# E-Commerce Web App: the decision rules of its pages, in Dafny

This project models the rules that the storefront's browser scripts apply once the DOM
and network glue is stripped away, and proves what they guarantee.

- **Customer pages** (`Customer/main.js`): the wishlist kept in browser storage under the
  key `wishlist` (reading it, membership by `String(id)`, the heart-button toggle, and
  the filter of the wishlist page), the free-text search over the loaded catalogue, and
  the four price-band links.
- **Admin console** (`Admin/logic.js`): the category form validation (the two regular
  expressions, written as a character class plus a length range), the "validate every
  field" loop of create and update, the category table (row numbers, total, 90-character
  description cut), the ids the delete and update modals keep between clicks, the delete
  cascade, and the tab bar with its saved tab.
- **Registration** (`Auth/register/register.js`): the four field checks that all run,
  the stop on an existing email, the created user record and the `userName` write.
- **Login** (`Auth/login/login.js`): the early-return chain over the fields and the user
  lookup, first-match use and routing by role.

Modules: `Js` (JavaScript value semantics the rules rely on: truthiness, `String(v)`,
`trim`, `toLowerCase`, `includes`, and the result of a `fetch`), `Catalog` (the product
record), `Storage` (browser storage as a class whose fields are the stored documents),
`Customer`, `Admin`, `Register`, `Login`.

Field values coming from the data API are dynamically typed, so products carry `Value`
fields (`undefined`, `null`, booleans, integers, strings). That lets the model state what
the code does with a price of `0`, a missing name, or a numeric id compared with a
string id. Network answers are inputs: `Reply<T>` is either `Failed` (the request or its
JSON parsing threw) or the rows received.

The operations that change stored state are methods with `modifies` clauses: the toggle
handler, the modal functions, `activateTab`, and the register and login handlers.
Expressions and the decision chain of login are functions.

## Model

| member | source | states |
|---|---|---|
| `Customer.GetWishlist` | Customer/main.js:2-4 | A key that was never written (`getItem` gives `null`) reads as the empty list; a stored list reads as itself. |
| `Customer.HasKey` | Customer/main.js:11 | `some(p => String(p.id) === k)` is true iff some entry's id, as a string, equals `k`. |
| `Customer.IsInWishlist` | Customer/main.js:10-12 | `isInWishlist(id)` is true iff some stored entry's `String(id)` equals `String(id)` of the argument; nothing stored means false. |
| `Customer.RemoveKey` | Customer/main.js:163 | The filtered list has no entry with the product's key, keeps every entry with another key, holds only stored entries, and is no longer. |
| `Customer.RemoveKeyAppend` | Customer/main.js:163 | Filtering distributes over concatenation, so the kept entries stay in stored order. |
| `Customer.RemoveKeyAbsent` | Customer/main.js:163 | Filtering out a key that no entry has leaves the list unchanged. |
| `Customer.RemoveKeyUnique` | Customer/main.js:163 | Filtering keeps keys unique. |
| `Customer.FindByKey` | Customer/main.js:189 | `find` returns nothing iff no catalogue product has the key, and otherwise the first product that has it. |
| `Customer.AddFromCatalogue` | Customer/main.js:189-193 | After the add branch the key is present iff it was stored or is in the catalogue; the list is either unchanged or the old list with the first catalogue product with that key (the one `find` returns) appended at the end, and only when the key was absent. |
| `Customer.AddFromCatalogueUnique` | Customer/main.js:189-193 | The add branch keeps keys unique. |
| `Customer.ToggleWishlist` | Customer/main.js:149-194 | The button's `active` class decides: when active the filtered list is always written back; when not, the list changes only by an append from the catalogue, and storage is untouched when nothing is appended. The button flips either way, and unique keys stay unique. |
| `Customer.ToggleOnThenOffRestores` | Customer/main.js:159-194 | For a product not stored, adding then removing gives back exactly the original list. |
| `Customer.ToggleOffThenOnMovesToEnd` | Customer/main.js:159-194 | Removing then adding a stored product puts the catalogue's current copy at the end, so the original list need not be restored. |
| `Customer.ToggleOffThenOnReorders` | Customer/main.js:159-194 | Witness that the list need not be restored: turning off and on the first of two entries with different keys leaves them in the other order. |
| `Customer.ToggleOnThenOff` | Customer/main.js:149-194 | Two clicks on an inactive heart for a product that is not stored leave the stored list reading as before. |
| `Customer.WishlistView` | Customer/main.js:202 | The wishlist page shows exactly the stored entries whose id, name, price and imageUrl are all truthy; a price of `0` or `""` drops the entry. |
| `Customer.WishlistViewAppend` | Customer/main.js:202 | The page keeps the stored order. |
| `Customer.SearchFilterKeepsMatches` | Customer/main.js:99-101 | The filter succeeds iff no product makes `toLowerCase` throw; then it keeps exactly the products whose lower-cased name or description contains the query. |
| `Customer.SearchFilterAppend` | Customer/main.js:100 | The products found keep the catalogue's order, and one bad product anywhere makes the whole filter fail. |
| `Customer.Search` | Customer/main.js:97-104 | A query that is blank once lower-cased and trimmed shows every loaded product; otherwise exactly the matching products are shown, if none throws. |
| `Customer.BandQueryLow` | Customer/main.js:138 | `cat_007` adds the query for prices up to 99. |
| `Customer.BandQueryMid` | Customer/main.js:139 | `cat_008` adds the query for prices 100 to 500. |
| `Customer.BandQueryHigh` | Customer/main.js:140 | `cat_009` adds the query for prices 501 to 1000. |
| `Customer.BandQueryTop` | Customer/main.js:141 | `cat_0010` adds the query for prices from 1001. |
| `Customer.PriceFilterUrl` | Customer/main.js:136-142 | The URL built by the `switch` is the products URL plus the query of the link's band, and the bare products URL for any other id. |
| `Customer.BandsPartitionPrices` | Customer/main.js:137-142 | Every whole price lies in the band of exactly one of the four links. |
| `Js.LeadingSpace` | Auth/register/register.js:6 | The white space `trim` cuts at the front: every character before the count is white space, and the one at the count (if any) is not. |
| `Js.ContentEnd` | Auth/register/register.js:6 | Where the white space `trim` cuts at the back begins: everything from there on is white space, and the character just before it (if any) is not. |
| `Js.TrimBounds` | Auth/register/register.js:6-7 | The trimmed string is the slice between the two cut points, and only white space lies outside it. |
| `Js.Trim` | Auth/register/register.js:6-7 | `trim` never lengthens its input and leaves no white space at either end. |
| `Js.TrimSlice` | Auth/register/register.js:6-7 | `trim` returns a contiguous slice of its input, with only white space cut on each side. |
| `Js.TrimEmptyIff` | Auth/register/register.js:18 | A string trims to empty exactly when it is all white space. |
| `Js.TrimIdempotent` | Auth/login/login.js:6 | Trimming twice is trimming once. |
| `Js.IncludesOccurs` | Customer/main.js:100 | `includes` is true iff the substring occurs at some position. |
| `Js.IncludesChar` | Auth/register/register.js:23 | `includes('@')` is membership of `'@'`. |
| `Admin.RegexTest` | Admin/logic.js:117-118 | `^[A-Za-z0-9 ]{lo,hi}$` accepts exactly the strings of `lo` to `hi` characters, all from the class. |
| `Admin.Validate` | Admin/logic.js:116-140 | An empty value is missing; a `CatergoryName` field is accepted iff it has 5 to 30 class characters; a `CategoryDescription` field iff it has 15 to 300; any other non-empty field is accepted. |
| `Admin.ValidateAll` | Admin/logic.js:179-187 | Every field gets its verdict even after an earlier one fails, and `allValid` is true iff every field is accepted. |
| `Admin.CreateCategory` | Admin/logic.js:171-208 | A category is posted iff both fields are accepted, with the generated id and the two values. |
| `Admin.ShownDescription` | Admin/logic.js:45-47 | A description over 90 characters is shown as its first 90 plus `...`, otherwise unchanged; the shown text has at most 93 characters. |
| `Admin.RenderCategories` | Admin/logic.js:36-63 | Row `i` is numbered `i + 1` and shows category `i` with its cut description, and the total shown equals the number of categories fetched. |
| `Admin.CategoriesUri` | Admin/logic.js:24-31 | Without a truthy `term` the whole collection is fetched; a truthy `term`, whatever it is, turns into `?q=` followed by its string form. |
| `Admin.ClickSearchesForEventText` | Admin/logic.js:65-66 | As the section's click listener, the function receives the event and searches for `[object <EventClass>]` instead of listing all categories. |
| `Admin.CategoriesUriIntended` | Admin/logic.js:29-31 | Only non-empty search text changes the URL. |
| `Admin.ClickListsAllIntended` | Admin/logic.js:65-66 | With the intended URL a click lists every category, as the tab does. |
| `Admin.ProductsOfCategory` | Admin/logic.js:297-298 | The cascade picks exactly the products whose `categoryId` equals the compared value: against `null`, those with a `null` or missing category. |
| `Admin.CategoryModals.constructor` | Admin/logic.js:228 | Both remembered ids start as `null` (also line 308). |
| `Admin.CategoryModals.OpenDeleteModal` | Admin/logic.js:239-248 | Remembers the category to delete. |
| `Admin.CategoryModals.CloseDeleteModal` | Admin/logic.js:258-261 | Resets the remembered id to `null`. |
| `Admin.CategoryModals.ConfirmDelete` | Admin/logic.js:273-304 | With no category selected (`null` or empty id) nothing happens; otherwise the selected category is deleted, the id is reset, and the cascade picks the products with no category. |
| `Admin.CascadeMissesDeletedCategory` | Admin/logic.js:285-298 | As written the cascade never picks a product of the deleted category and always picks every product without a category. |
| `Admin.CategoryModals.ConfirmDeleteIntended` | Admin/logic.js:273-304 | Reading the id before the reset, the cascade picks exactly the products of the deleted category. |
| `Admin.CategoryModals.OpenUpdateModal` | Admin/logic.js:310-315 | Remembers the category to update; nothing resets it later. |
| `Admin.CategoryModals.UpdateCategory` | Admin/logic.js:321-364 | With no category ever selected nothing is sent; otherwise the update is sent iff both fields are accepted, to the selected id, with a body whose id key is `categoryIdToUpdate`. |
| `Admin.TabBar.constructor` | Admin/logic.js:378-379 | The tab buttons and pages, by `data-page` and `id`. |
| `Admin.TabBar.ActivateTab` | Admin/logic.js:381-398 | Exactly the tabs whose page is `pageId` and the pages whose id is `pageId` are active; `pageId` is saved as text (`null` as `"null"`); the table is reloaded iff `pageId` is `categories`. |
| `Admin.TabBar.RestoreSavedTab` | Admin/logic.js:407-408 | On the first visit nothing is saved: no tab is active and the text `"null"` is saved; later visits activate exactly the tabs and pages named by the saved text, keep it saved, and reload the category table exactly when it is `categories`. |
| `Register.CheckFields` | Auth/register/register.js:6-38 | The name error iff the trimmed name is empty; the email error iff the trimmed email has no `@`; the password error iff the untrimmed password has under 6 characters; the confirmation error iff the two differ; all are evaluated, and the form is valid iff none fired. |
| `Register.Register` | Auth/register/register.js:3-82 | Invalid fields stop everything and carry exactly the four failed checks; a failed lookup or an existing email creates nothing; otherwise the record holds the trimmed name and email, the password and role `user`, and `userName` is stored only when creation succeeded. |
| `Login.Login` | Auth/login/login.js:6-48 | A blank email gives only the email error; a missing password gives the password error before any lookup; a failed lookup gives the server-error alert; an empty answer gives the login error; the first user decides: role `user` goes to the customer home with its name, any other role to the admin page; a redirect needs both fields and a non-empty answer. |
| `Login.FirstMatchDecides` | Auth/login/login.js:35 | When several users match, the rest of the answer has no effect. |
| `Login.MissingFieldSkipsLookup` | Auth/login/login.js:13-21 | With a field missing the lookup's answer has no effect. |
| `Login.SubmitLogin` | Auth/login/login.js:37-45 | Only a customer's login writes `userName`; the admin route and every error leave it unchanged. |
| `Storage.LocalStore.constructor` | Customer/main.js:3 | Storage starts with no `wishlist`, `activeTab` or `userName` item. |

## Findings

| source | as written | input that shows it | evidently intended | confidence | as-written member | corrected member |
|---|---|---|---|---|---|---|
| Admin/logic.js:285-298 | `closeDeleteModal()` resets `categoryIdToDelete` to `null` before the cascade compares `product.categoryId == categoryIdToDelete` | delete category `"c1"` with products `{categoryId: "c1"}` and `{}`: the first is kept, the second is deleted | delete the products of the deleted category | high; not executed | `Admin.CategoryModals.ConfirmDelete`, `Admin.CascadeMissesDeletedCategory` | `Admin.CategoryModals.ConfirmDeleteIntended` |
| Admin/logic.js:65-66 | `renderCaterogries` is the click listener of the categories section, so its `term` is the event, which is truthy | any click in the section fetches `/categories?q=[object PointerEvent]` (the class name depends on the browser) | list every category | medium; not executed | `Admin.CategoriesUri`, `Admin.ClickSearchesForEventText` | `Admin.CategoriesUriIntended`, `Admin.ClickListsAllIntended` |

## Left out

- Network and browser I/O: every `fetch`, JSON parsing of answers, `alert`, `window.location` redirects, `console.error`. Lookup answers are inputs; redirects are outcome constructors.
- DOM rendering: template strings, modal show/hide, error message text, border colours, CSS classes, the navbar load and highlight, the empty-list placeholders. Only the active flags and outcomes are kept.
- `shuffleArray` (random order of the product grid) and `generateId` (clock and random number): the generated id is a parameter of `Admin.CreateCategory`.
- The category links (`Customer/main.js:113-128`) only fetch `?categoryId=<id>` or all products; there is no rule to model beyond the URL.
- `window.allProducts = data.products || data`: the catalogue is given as a list.
- The timing of the cascade's fire-and-forget `DELETE` requests: only which products are picked is modelled.
- `Admin.CategoryModals.ConfirmDelete`: the handler is modelled as running without other handlers in between. In the source it awaits the category `DELETE` and the products fetch before the cascade reads `categoryIdToDelete`, so an `openDeleteModal` for another category during those waits would make the cascade compare against that other id and delete products of a category whose deletion was never confirmed.
- Non-integral numbers: `Value` has integers only, so prices such as `19.99` are not represented.
- `Js.Value` integers are unbounded, whereas every JavaScript number is a double: ids or prices beyond 2^53 (which `JSON.parse` rounds, so two such ids can share one `String(p.id)`) and numbers from 1e21 on (which `String` prints as `1e+21`) are not rendered as JavaScript renders them by `Js.ToStr` and `Catalog.Key`.
- `Js.ToLower` lower-cases only `A`-`Z`; JavaScript's `toLowerCase` also maps other Unicode letters.
- String lengths count Unicode scalar values; JavaScript counts UTF-16 code units, so a character outside the Basic Multilingual Plane counts once here and twice in the source (password length, description cut).
- `Admin.ProductsOfCategory`: against a category id, JavaScript's `==` would also convert a numeric `categoryId` and a numeric-looking id string to numbers (`5 == "05"`); the model compares the string forms. The as-written cascade only ever compares against `null`, where the model is exact.
- Wishlist entries are always objects; a `null` element in the stored array would make `String(p.id)` throw, and is not represented.
- A category whose `description` is missing or `null` makes `renderCaterogries` throw; other non-strings are shown as their string form (a number's `.length` is `undefined`, so it is never cut). `Admin.Category` holds a string.
- A tab without `data-page` is not represented; tab pages and page ids are strings.
- `openUpdateModal` fills `updateForm.categoryDescription` while `updateCategory` reads `updateForm.CategoryDescription`; whether both name the same control depends on the page markup, which is not part of this model. The update fields are inputs.
- The stored documents are held parsed; `JSON.stringify` then `JSON.parse` is taken to give the same value back. Corrupt JSON would make `getWishlist` throw; no recovery is modelled because the code has none.
- Two browser tabs writing the same storage key (last write wins) are not modelled.
