/** The admin console's category screen: field validation, the category table, the
    delete and update modals (with the ids they keep between clicks) and the tab bar. */
module Admin {
  import opened Js
  import opened Catalog
  import opened Storage

  // ---------- Field validation ----------

  /** A form control as `validation` sees it: its `name` attribute and its value. */
  datatype Field = Field(name: string, value: string)

  /** The three outcomes of `validation`: "please enter", "valid format", or accepted. */
  datatype Verdict = Missing | BadFormat | Accepted

  const NameField := "CatergoryName"
  const DescriptionField := "CategoryDescription"

  /** The regex character class `[A-Za-z0-9 ]`. */
  predicate InClass(c: char)
  {
    'A' <= c <= 'Z' || 'a' <= c <= 'z' || '0' <= c <= '9' || c == ' '
  }

  /** The strings `^[A-Za-z0-9 ]{lo,hi}$` accepts. */
  predicate ClassRepeat(s: string, lo: nat, hi: nat)
  {
    lo <= |s| <= hi && forall k :: 0 <= k < |s| ==> InClass(s[k])
  }

  /** How far a left-to-right scan gets before it meets a character outside the class. */
  function ClassRun(s: string): (n: nat)
    ensures n <= |s|
    ensures forall k :: 0 <= k < n ==> InClass(s[k])
    ensures n < |s| ==> !InClass(s[n])
  {
    if s == [] || !InClass(s[0]) then 0
    else
      var n := ClassRun(s[1..]);
      assert forall k :: 1 <= k < |s| ==> s[k] == s[1..][k - 1];
      1 + n
  }

  /** `regex.test(s)` for `^[A-Za-z0-9 ]{lo,hi}$`: the scan reaches the end and the
      length is within bounds. */
  function RegexTest(s: string, lo: nat, hi: nat): (r: bool)
    ensures r <==> ClassRepeat(s, lo, hi)
  {
    ClassRun(s) == |s| && lo <= |s| <= hi
  }

  /** `validation(element)`: an empty value is missing; the category name must be 5 to 30
      class characters and the description 15 to 300; a field with any other name is
      accepted as soon as it is not empty. */
  function Validate(f: Field): (v: Verdict)
    ensures v == Missing <==> f.value == ""
    ensures f.value != "" && f.name == NameField ==> (v == Accepted <==> ClassRepeat(f.value, 5, 30))
    ensures f.value != "" && f.name == DescriptionField ==>
              (v == Accepted <==> ClassRepeat(f.value, 15, 300))
    ensures f.value != "" && f.name != NameField && f.name != DescriptionField ==> v == Accepted
  {
    if f.value == "" then Missing
    else if (f.name == NameField && !RegexTest(f.value, 5, 30)) ||
            (f.name == DescriptionField && !RegexTest(f.value, 15, 300)) then BadFormat
    else Accepted
  }

  /** The `allValid` loop of `createCategory` and `updateCategory`: every field is
      validated (and so gets its message), even after an earlier one failed. */
  method ValidateAll(fields: seq<Field>) returns (allValid: bool, verdicts: seq<Verdict>)
    ensures |verdicts| == |fields|
    ensures forall i :: 0 <= i < |fields| ==> verdicts[i] == Validate(fields[i])
    ensures allValid <==> forall i :: 0 <= i < |fields| ==> Validate(fields[i]) == Accepted
  {
    allValid := true;
    verdicts := [];
    var i := 0;
    while i < |fields|
      invariant 0 <= i <= |fields|
      invariant |verdicts| == i
      invariant forall j :: 0 <= j < i ==> verdicts[j] == Validate(fields[j])
      invariant allValid <==> forall j :: 0 <= j < i ==> Validate(fields[j]) == Accepted
    {
      var valid := Validate(fields[i]);
      verdicts := verdicts + [valid];
      if valid != Accepted {
        allValid := false;
      }
      i := i + 1;
    }
  }

  /** The record `createCategory` posts; its id comes from the clock and the random
      generator, so it is a parameter here. */
  datatype NewCategory = NewCategory(id: string, name: string, description: string)

  /** `createCategory`: posts a new category only when both fields are accepted. */
  method CreateCategory(nameField: Field, descriptionField: Field, freshId: string)
    returns (created: Option<NewCategory>)
    ensures created.Some? <==> Validate(nameField) == Accepted && Validate(descriptionField) == Accepted
    ensures created.Some? ==> created.value == NewCategory(freshId, nameField.value, descriptionField.value)
  {
    var fields := [nameField, descriptionField];
    var allValid, _ := ValidateAll(fields);
    assert fields[0] == nameField && fields[1] == descriptionField;
    if allValid {
      created := Some(NewCategory(freshId, nameField.value, descriptionField.value));
    } else {
      created := None;
    }
  }

  // ---------- Category table ----------

  datatype Category = Category(id: Value, name: Value, description: string)

  /** One table row: its number, the category's id and name, and the description as
      shown. */
  datatype Row = Row(number: nat, id: Value, name: Value, description: string)

  /** A description over 90 characters is cut to its first 90 followed by `...`. */
  function ShownDescription(d: string): (r: string)
    ensures |r| <= 93
    ensures |d| <= 90 ==> r == d
    ensures |d| > 90 ==> |r| == 93 && r[..90] == d[..90] && r[90..] == "..."
  {
    if |d| > 90 then d[..90] + "..." else d
  }

  /** The loop of `renderCaterogries`: rows are numbered from 1 in the order fetched, and
      the total shown is the number of categories. */
  method RenderCategories(categories: seq<Category>) returns (rows: seq<Row>, total: int)
    ensures |rows| == |categories| && total == |categories|
    ensures forall i :: 0 <= i < |rows| ==>
      rows[i] == Row(i + 1, categories[i].id, categories[i].name, ShownDescription(categories[i].description))
  {
    rows := [];
    var count := 1;
    for i := 0 to |categories|
      invariant count == i + 1 && |rows| == i
      invariant forall j :: 0 <= j < i ==>
        rows[j] == Row(j + 1, categories[j].id, categories[j].name, ShownDescription(categories[j].description))
    {
      var category := categories[i];
      rows := rows + [Row(count, category.id, category.name, ShownDescription(category.description))];
      count := count + 1;
    }
    total := count - 1;
  }

  const CategoriesUrl := "http://localhost:3000/categories"

  /** What `renderCaterogries` receives as `term`: nothing (the tab and the modals call
      it without arguments), the trimmed search box text, or, because it is also
      registered directly as the categories section's click listener, the click event,
      whose string form is `[object <EventClass>]`. */
  datatype RenderArg = NoArg | Term(text: string) | ClickEvent(eventClass: string)

  predicate ArgTruthy(term: RenderArg)
  {
    match term
    case NoArg => false
    case Term(text) => text != ""
    case ClickEvent(_) => true
  }

  function ArgText(term: RenderArg): string
  {
    match term
    case NoArg => "undefined"
    case Term(text) => text
    case ClickEvent(eventClass) => "[object " + eventClass + "]"
  }

  /** The URL `renderCaterogries` fetches, as written: any truthy `term` becomes a `q`
      search, the click event included. */
  function CategoriesUri(term: RenderArg): (uri: string)
    ensures !ArgTruthy(term) ==> uri == CategoriesUrl
    ensures ArgTruthy(term) ==> uri == CategoriesUrl + "?q=" + ArgText(term)
    ensures ArgTruthy(term) ==> |uri| > |CategoriesUrl| && uri[..|CategoriesUrl|] == CategoriesUrl
  {
    if ArgTruthy(term) then CategoriesUrl + "?q=" + ArgText(term) else CategoriesUrl
  }

  /** As written, a click in the categories section searches for the event's string
      form instead of listing every category. */
  lemma ClickSearchesForEventText(eventClass: string)
    ensures CategoriesUri(ClickEvent(eventClass)) == CategoriesUrl + "?q=[object " + eventClass + "]"
    ensures CategoriesUri(ClickEvent(eventClass)) != CategoriesUri(NoArg)
  {
    assert |CategoriesUri(ClickEvent(eventClass))| > |CategoriesUrl|;
  }

  /** The evidently intended URL: only search text narrows the list. */
  function CategoriesUriIntended(term: RenderArg): (uri: string)
    ensures (term.Term? && term.text != "") <==> uri != CategoriesUrl
    ensures term.Term? && term.text != "" ==> uri == CategoriesUrl + "?q=" + term.text
  {
    match term
    case Term(text) =>
      if text != "" then
        assert |CategoriesUrl + "?q=" + text| > |CategoriesUrl|;
        CategoriesUrl + "?q=" + text
      else CategoriesUrl
    case _ => CategoriesUrl
  }

  /** With the intended URL a click lists the same categories as the tab does. */
  lemma ClickListsAllIntended(eventClass: string)
    ensures CategoriesUriIntended(ClickEvent(eventClass)) == CategoriesUriIntended(NoArg) == CategoriesUrl
  {
  }

  // ---------- Delete cascade ----------

  /** Whether `product.categoryId == target` picks the product: against `null` that is
      loose equality (only `null` and `undefined` match); against a category id, the
      product's category id read as a string must be that id. */
  predicate BelongsTo(p: Product, target: Option<string>)
  {
    match target
    case None => LooselyNull(p.categoryId)
    case Some(id) => !LooselyNull(p.categoryId) && ToStr(p.categoryId) == id
  }

  /** The products the cascade's `forEach` deletes when it compares with `target`. */
  function ProductsOfCategory(products: seq<Product>, target: Option<string>): (r: seq<Product>)
    ensures |r| <= |products|
    ensures forall p :: p in r <==> p in products && BelongsTo(p, target)
  {
    if products == [] then []
    else
      var rest := ProductsOfCategory(products[1..], target);
      assert forall p :: p in products <==> p == products[0] || p in products[1..];
      if BelongsTo(products[0], target) then [products[0]] + rest else rest
  }

  /** What a confirmed deletion sends: the category to delete and the products deleted
      with it. */
  datatype Deletion = Deletion(category: string, products: seq<Product>)

  /** The record `updateCategory` sends with `PUT`; the body's id key is literally
      `categoryIdToUpdate`. */
  datatype UpdateRequest = UpdateRequest(target: string, categoryIdToUpdate: string, name: string, description: string)

  /** The two ids the category modals keep in module-level variables between clicks
      (`null` is `None`). */
  class CategoryModals {
    var categoryIdToDelete: Option<string>
    var categoryIdToUpdate: Option<string>

    constructor ()
      ensures categoryIdToDelete == None && categoryIdToUpdate == None
    {
      categoryIdToDelete, categoryIdToUpdate := None, None;
    }

    /** `openDeleteModal(id, name)`: remembers which category to delete. */
    method OpenDeleteModal(id: string)
      modifies this`categoryIdToDelete
      ensures categoryIdToDelete == Some(id)
    {
      categoryIdToDelete := Some(id);
    }

    /** `closeDeleteModal()`: forgets it again. */
    method CloseDeleteModal()
      modifies this`categoryIdToDelete
      ensures categoryIdToDelete == None
    {
      categoryIdToDelete := None;
    }

    /** The confirm button, as written. With no category selected (`null` or an empty id)
        nothing happens. Otherwise the category is deleted, the modal is closed, which
        resets the selected id, and only then are the products compared with that
        variable: the cascade picks the products without a category. */
    method ConfirmDelete(products: seq<Product>) returns (deletion: Option<Deletion>)
      modifies this`categoryIdToDelete
      ensures old(categoryIdToDelete) == None || old(categoryIdToDelete) == Some("") ==>
                deletion == None && categoryIdToDelete == old(categoryIdToDelete)
      ensures old(categoryIdToDelete).Some? && old(categoryIdToDelete).value != "" ==>
                categoryIdToDelete == None &&
                deletion == Some(Deletion(old(categoryIdToDelete).value, ProductsOfCategory(products, None)))
    {
      if categoryIdToDelete == None || categoryIdToDelete == Some("") {
        return None;
      }
      var deleted := categoryIdToDelete.value;
      CloseDeleteModal();
      deletion := Some(Deletion(deleted, ProductsOfCategory(products, categoryIdToDelete)));
    }

    /** The confirm button as evidently intended: the selected id is read before the
        modal resets it, so the cascade picks exactly the deleted category's products. */
    method ConfirmDeleteIntended(products: seq<Product>) returns (deletion: Option<Deletion>)
      modifies this`categoryIdToDelete
      ensures old(categoryIdToDelete) == None || old(categoryIdToDelete) == Some("") ==>
                deletion == None && categoryIdToDelete == old(categoryIdToDelete)
      ensures old(categoryIdToDelete).Some? && old(categoryIdToDelete).value != "" ==>
                categoryIdToDelete == None &&
                deletion == Some(Deletion(old(categoryIdToDelete).value,
                                          ProductsOfCategory(products, old(categoryIdToDelete))))
    {
      if categoryIdToDelete == None || categoryIdToDelete == Some("") {
        return None;
      }
      var deleted := categoryIdToDelete.value;
      var selected := ProductsOfCategory(products, categoryIdToDelete);
      CloseDeleteModal();
      deletion := Some(Deletion(deleted, selected));
    }

    /** `openUpdateModal(id, ...)`: remembers which category to update. Nothing resets it:
        `closeUpdateModal` only hides the modal. */
    method OpenUpdateModal(id: string)
      modifies this`categoryIdToUpdate
      ensures categoryIdToUpdate == Some(id)
    {
      categoryIdToUpdate := Some(id);
    }

    /** `updateCategory`: returns at once when no category was ever selected; otherwise
        validates both fields and sends the update only if both are accepted. */
    method UpdateCategory(nameField: Field, descriptionField: Field) returns (request: Option<UpdateRequest>)
      ensures categoryIdToUpdate == None ==> request == None
      ensures categoryIdToUpdate.Some? ==>
        (request.Some? <==> Validate(nameField) == Accepted && Validate(descriptionField) == Accepted)
      ensures request.Some? ==> request.value == UpdateRequest(categoryIdToUpdate.value,
        categoryIdToUpdate.value, nameField.value, descriptionField.value)
    {
      if categoryIdToUpdate == None {
        return None;
      }
      var fields := [nameField, descriptionField];
      var allValid, _ := ValidateAll(fields);
      assert fields[0] == nameField && fields[1] == descriptionField;
      if allValid {
        var id := categoryIdToUpdate.value;
        request := Some(UpdateRequest(id, id, nameField.value, descriptionField.value));
      } else {
        request := None;
      }
    }
  }

  /** As written, the cascade never picks a product of the category being deleted, and
      it picks every product that has no category. */
  lemma CascadeMissesDeletedCategory(products: seq<Product>, deleted: string)
    ensures forall p :: p in ProductsOfCategory(products, None) ==> ToStr(p.categoryId) != deleted || LooselyNull(p.categoryId)
    ensures forall p :: p in products && LooselyNull(p.categoryId) ==> p in ProductsOfCategory(products, None)
    ensures forall p :: p in products && p.categoryId == Str(deleted) ==>
              p !in ProductsOfCategory(products, None) && p in ProductsOfCategory(products, Some(deleted))
  {
  }

  // ---------- Tabs ----------

  /** `localStorage.setItem` stores the string form of its argument: `null` becomes the
      text "null". */
  function StoredText(pageId: Option<string>): string
  {
    match pageId
    case None => "null"
    case Some(p) => p
  }

  /** The tab buttons (`.taps .tap`, by their `data-page`) and the pages (`.sideTab`, by
      their `id`), with the `active` class of each. */
  class TabBar {
    const tabPages: seq<string>
    const pageIds: seq<string>
    var tabActive: seq<bool>
    var pageActive: seq<bool>

    ghost predicate Valid()
      reads this
    {
      |tabActive| == |tabPages| && |pageActive| == |pageIds|
    }

    constructor (tabPages: seq<string>, pageIds: seq<string>)
      ensures Valid() && this.tabPages == tabPages && this.pageIds == pageIds
      ensures forall i :: 0 <= i < |tabActive| ==> !tabActive[i]
      ensures forall i :: 0 <= i < |pageActive| ==> !pageActive[i]
    {
      this.tabPages, this.pageIds := tabPages, pageIds;
      tabActive := seq(|tabPages|, _ => false);
      pageActive := seq(|pageIds|, _ => false);
    }

    /** `activateTab(pageId)`: exactly the tabs and pages named `pageId` become active,
        the name is saved, and the category table is reloaded for "categories". */
    method ActivateTab(pageId: Option<string>, store: LocalStore) returns (renderCategories: bool)
      requires Valid()
      modifies this`tabActive, this`pageActive, store`activeTab
      ensures Valid()
      ensures forall i :: 0 <= i < |tabPages| ==> (tabActive[i] <==> pageId == Some(tabPages[i]))
      ensures forall i :: 0 <= i < |pageIds| ==> (pageActive[i] <==> pageId == Some(pageIds[i]))
      ensures store.activeTab == Some(StoredText(pageId))
      ensures renderCategories <==> pageId == Some("categories")
    {
      for i := 0 to |tabPages|
        invariant |tabActive| == |tabPages| && |pageActive| == |pageIds|
        invariant forall j :: 0 <= j < i ==> (tabActive[j] <==> pageId == Some(tabPages[j]))
      {
        tabActive := tabActive[i := pageId == Some(tabPages[i])];
      }
      for i := 0 to |pageIds|
        invariant |tabActive| == |tabPages| && |pageActive| == |pageIds|
        invariant forall j :: 0 <= j < |tabPages| ==> (tabActive[j] <==> pageId == Some(tabPages[j]))
        invariant forall j :: 0 <= j < i ==> (pageActive[j] <==> pageId == Some(pageIds[j]))
      {
        pageActive := pageActive[i := pageId == Some(pageIds[i])];
      }
      store.activeTab := Some(StoredText(pageId));
      renderCategories := pageId == Some("categories");
    }

    /** The console's start-up: the saved tab is activated again. On the very first visit
        nothing is saved, so no tab is active and the text "null" is saved. */
    method RestoreSavedTab(store: LocalStore) returns (renderCategories: bool)
      requires Valid()
      modifies this`tabActive, this`pageActive, store`activeTab
      ensures Valid()
      ensures old(store.activeTab) == None ==>
        store.activeTab == Some("null") && !renderCategories &&
        (forall i :: 0 <= i < |tabPages| ==> !tabActive[i]) &&
        (forall i :: 0 <= i < |pageIds| ==> !pageActive[i])
      ensures old(store.activeTab).Some? ==> store.activeTab == old(store.activeTab)
      ensures old(store.activeTab).Some? ==>
        (forall i :: 0 <= i < |tabPages| ==> (tabActive[i] <==> tabPages[i] == old(store.activeTab).value)) &&
        (forall i :: 0 <= i < |pageIds| ==> (pageActive[i] <==> pageIds[i] == old(store.activeTab).value)) &&
        (renderCategories <==> old(store.activeTab) == Some("categories"))
    {
      renderCategories := ActivateTab(store.activeTab, store);
    }
  }
}
