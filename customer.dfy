/** The customer pages: the wishlist kept in browser storage, the free-text search over
    the loaded catalogue and the price-band filter links. */
module Customer {
  import opened Js
  import opened Catalog
  import opened Storage

  // ---------- Wishlist storage helpers ----------

  /** `getWishlist()`: a key that was never written reads as the empty list. */
  function GetWishlist(doc: Option<seq<Product>>): (w: seq<Product>)
    ensures doc == None ==> w == []
    ensures doc.Some? ==> w == doc.value
  {
    match doc
    case None => []
    case Some(entries) => entries
  }

  /** `w.some(p => String(p.id) === k)`, scanning from the front. */
  function HasKey(w: seq<Product>, k: string): (r: bool)
    ensures r <==> exists i :: 0 <= i < |w| && Key(w[i]) == k
  {
    if w == [] then false
    else
      var rest := HasKey(w[1..], k);
      assert forall i :: 1 <= i < |w| ==> w[i] == w[1..][i - 1];
      Key(w[0]) == k || rest
  }

  /** `isInWishlist(id)`: some stored entry has the same id once both are turned into
      strings. */
  function IsInWishlist(doc: Option<seq<Product>>, id: Value): (r: bool)
    ensures r <==> exists i :: 0 <= i < |GetWishlist(doc)| && Key(GetWishlist(doc)[i]) == ToStr(id)
  {
    HasKey(GetWishlist(doc), ToStr(id))
  }

  /** The wishlist's intended invariant: no two entries share a key. */
  ghost predicate UniqueKeys(w: seq<Product>)
  {
    forall i, j :: 0 <= i < j < |w| ==> Key(w[i]) != Key(w[j])
  }

  // ---------- Wishlist toggle ----------

  /** `wishlist.filter(p => String(p.id) !== k)`: no entry with key `k` is left, and
      every other entry is kept. */
  function RemoveKey(w: seq<Product>, k: string): (r: seq<Product>)
    ensures |r| <= |w|
    ensures forall i :: 0 <= i < |r| ==> Key(r[i]) != k
    ensures forall x :: x in r ==> x in w
    ensures forall i :: 0 <= i < |w| && Key(w[i]) != k ==> w[i] in r
  {
    if w == [] then []
    else
      var rest := RemoveKey(w[1..], k);
      assert forall i :: 1 <= i < |w| ==> w[i] == w[1..][i - 1];
      if Key(w[0]) == k then rest else [w[0]] + rest
  }

  /** Removal works entry by entry, so the entries kept stay in their stored order. */
  lemma {:induction false} RemoveKeyAppend(a: seq<Product>, b: seq<Product>, k: string)
    ensures RemoveKey(a + b, k) == RemoveKey(a, k) + RemoveKey(b, k)
  {
    if a == [] {
      assert a + b == b;
    } else {
      assert (a + b)[1..] == a[1..] + b;
      RemoveKeyAppend(a[1..], b, k);
    }
  }

  /** Removing a key that no entry has changes nothing. */
  lemma {:induction false} RemoveKeyAbsent(w: seq<Product>, k: string)
    requires !HasKey(w, k)
    ensures RemoveKey(w, k) == w
  {
    if w != [] {
      assert !HasKey(w[1..], k);
      RemoveKeyAbsent(w[1..], k);
    }
  }

  /** Removal keeps the keys unique. */
  lemma {:induction false} RemoveKeyUnique(w: seq<Product>, k: string)
    requires UniqueKeys(w)
    ensures UniqueKeys(RemoveKey(w, k))
  {
    if w != [] {
      assert UniqueKeys(w[1..]);
      RemoveKeyUnique(w[1..], k);
      var rest := RemoveKey(w[1..], k);
      forall x | x in rest ensures Key(x) != Key(w[0]) {
        var i :| 0 <= i < |w[1..]| && w[1..][i] == x;
        assert w[i + 1] == x;
      }
    }
  }

  /** `allProducts.find(p => String(p.id) === k)`: the first catalogue product with key
      `k`, if there is one. */
  function FindByKey(ps: seq<Product>, k: string): (r: Option<Product>)
    ensures r.None? <==> !HasKey(ps, k)
    ensures r.Some? ==> exists i :: 0 <= i < |ps| && ps[i] == r.value && Key(ps[i]) == k &&
                                    forall j :: 0 <= j < i ==> Key(ps[j]) != k
  {
    if ps == [] then None
    else if Key(ps[0]) == k then Some(ps[0])
    else
      var r := FindByKey(ps[1..], k);
      assert forall i :: 1 <= i < |ps| ==> ps[i] == ps[1..][i - 1];
      assert r.Some? ==> exists i :: 0 <= i < |ps| && ps[i] == r.value && Key(ps[i]) == k &&
                                     forall j :: 0 <= j < i ==> Key(ps[j]) != k by {
        if r.Some? {
          var i :| 0 <= i < |ps[1..]| && ps[1..][i] == r.value && Key(ps[1..][i]) == k &&
                   forall j :: 0 <= j < i ==> Key(ps[1..][j]) != k;
          assert forall j :: 1 <= j < i + 1 ==> Key(ps[j]) != k;
        }
      }
      r
  }

  /** The list the "toggle on" branch leaves: the catalogue's product appended at the end
      when it exists and no entry with its key is stored yet; otherwise the same list. */
  function AddFromCatalogue(w: seq<Product>, catalogue: seq<Product>, k: string): (r: seq<Product>)
    ensures HasKey(r, k) <==> HasKey(w, k) || HasKey(catalogue, k)
    ensures r == w || (!HasKey(w, k) && |r| == |w| + 1 && r[..|w|] == w &&
                       r[|w|] in catalogue && Key(r[|w|]) == k)
    ensures r != w ==> r[|w|] == FindByKey(catalogue, k).value
  {
    match FindByKey(catalogue, k)
    case None => w
    case Some(p) =>
      if HasKey(w, k) then w
      else
        assert (w + [p])[|w|] == p;
        w + [p]
  }

  /** Adding keeps the keys unique. */
  lemma AddFromCatalogueUnique(w: seq<Product>, catalogue: seq<Product>, k: string)
    requires UniqueKeys(w)
    ensures UniqueKeys(AddFromCatalogue(w, catalogue, k))
  {
  }

  /** The click handler on a heart button. Whether it removes or adds is decided by the
      button's `active` class, not by the stored list; the button flips either way. The
      "off" branch always writes the filtered list back; the "on" branch writes only when
      it appended something. */
  method ToggleWishlist(store: LocalStore, active: bool, productId: string, catalogue: seq<Product>)
    returns (nowActive: bool)
    modifies store`wishlist
    ensures nowActive == !active
    ensures active ==> store.wishlist == Some(RemoveKey(GetWishlist(old(store.wishlist)), productId))
    ensures !active ==>
      GetWishlist(store.wishlist) == AddFromCatalogue(GetWishlist(old(store.wishlist)), catalogue, productId)
    ensures !active && (!HasKey(catalogue, productId) || HasKey(GetWishlist(old(store.wishlist)), productId)) ==>
      store.wishlist == old(store.wishlist)
    ensures UniqueKeys(GetWishlist(old(store.wishlist))) ==> UniqueKeys(GetWishlist(store.wishlist))
  {
    var wishlist := GetWishlist(store.wishlist);
    if active {
      nowActive := false;
      if UniqueKeys(wishlist) { RemoveKeyUnique(wishlist, productId); }
      wishlist := RemoveKey(wishlist, productId);
      store.wishlist := Some(wishlist);
    } else {
      nowActive := true;
      if UniqueKeys(wishlist) { AddFromCatalogueUnique(wishlist, catalogue, productId); }
      var product := FindByKey(catalogue, productId);
      if product.Some? && !HasKey(wishlist, productId) {
        wishlist := wishlist + [product.value];
        store.wishlist := Some(wishlist);
      }
    }
  }

  /** Turning a product on and then off again, for a product that was not stored, gives
      back exactly the stored list. */
  lemma {:induction false} ToggleOnThenOffRestores(w: seq<Product>, catalogue: seq<Product>, k: string)
    requires !HasKey(w, k)
    ensures RemoveKey(AddFromCatalogue(w, catalogue, k), k) == w
  {
    RemoveKeyAbsent(w, k);
    match FindByKey(catalogue, k)
    case None =>
    case Some(p) =>
      RemoveKeyAppend(w, [p], k);
      assert RemoveKey([p], k) == [];
  }

  /** Turning a stored product off and on again replaces its entry by the catalogue's
      current copy, at the end, so the list need not be restored. */
  lemma ToggleOffThenOnMovesToEnd(w: seq<Product>, catalogue: seq<Product>, k: string)
    requires HasKey(catalogue, k)
    ensures AddFromCatalogue(RemoveKey(w, k), catalogue, k) == RemoveKey(w, k) + [FindByKey(catalogue, k).value]
  {
  }

  /** A list of two entries with different keys, of which the first is turned off and on
      again, comes back in the other order. */
  lemma ToggleOffThenOnReorders(a: Product, b: Product)
    requires Key(a) != Key(b)
    ensures AddFromCatalogue(RemoveKey([a, b], Key(a)), [a], Key(a)) == [b, a]
    ensures [b, a] != [a, b]
  {
    assert RemoveKey([a, b], Key(a)) == [b] by {
      RemoveKeyAppend([a], [b], Key(a));
      assert [a] + [b] == [a, b];
    }
  }

  /** The two clicks on one heart button, starting from an inactive button for a product
      that is not stored: the stored list reads as it did before. */
  method ToggleOnThenOff(store: LocalStore, productId: string, catalogue: seq<Product>)
    requires !HasKey(GetWishlist(store.wishlist), productId)
    modifies store`wishlist
    ensures GetWishlist(store.wishlist) == GetWishlist(old(store.wishlist))
  {
    var active := ToggleWishlist(store, false, productId, catalogue);
    active := ToggleWishlist(store, active, productId, catalogue);
    ToggleOnThenOffRestores(GetWishlist(old(store.wishlist)), catalogue, productId);
  }

  // ---------- Wishlist page ----------

  /** An entry the wishlist page can show: id, name, price and imageUrl all truthy. */
  predicate WellFormed(p: Product)
  {
    Truthy(p.id) && Truthy(p.name) && Truthy(p.price) && Truthy(p.imageUrl)
  }

  /** The filter of `renderWishlist`: exactly the well-formed entries. */
  function WishlistView(w: seq<Product>): (r: seq<Product>)
    ensures |r| <= |w|
    ensures forall x :: x in r <==> x in w && WellFormed(x)
  {
    if w == [] then []
    else
      var rest := WishlistView(w[1..]);
      assert forall x :: x in w <==> x == w[0] || x in w[1..];
      if WellFormed(w[0]) then [w[0]] + rest else rest
  }

  /** The page keeps the stored order. */
  lemma {:induction false} WishlistViewAppend(a: seq<Product>, b: seq<Product>)
    ensures WishlistView(a + b) == WishlistView(a) + WishlistView(b)
  {
    if a == [] {
      assert a + b == b;
    } else {
      assert (a + b)[1..] == a[1..] + b;
      WishlistViewAppend(a[1..], b);
    }
  }

  // ---------- Search ----------

  /** `p.name.toLowerCase().includes(q) || p.description.toLowerCase().includes(q)` runs
      without throwing: the name is a string, and so is the description whenever the name
      does not already match. */
  predicate Evaluable(p: Product, q: string)
  {
    p.name.Str? && (Includes(ToLower(p.name.s), q) || p.description.Str?)
  }

  /** The lower-cased name or description contains `q`. */
  predicate Matches(p: Product, q: string)
  {
    (p.name.Str? && Includes(ToLower(p.name.s), q)) ||
    (p.description.Str? && Includes(ToLower(p.description.s), q))
  }

  /** The `filter` of the search handler; `None` stands for the `TypeError` thrown on a
      product whose name or description is not a string. */
  function SearchFilter(ps: seq<Product>, q: string): Option<seq<Product>>
  {
    if ps == [] then Some([])
    else
      var p := ps[0];
      var rest := SearchFilter(ps[1..], q);
      if !Evaluable(p, q) then None
      else if rest.None? then None
      else if Matches(p, q) then Some([p] + rest.value)
      else rest
  }

  /** The filter succeeds exactly when no product throws, and then keeps exactly the
      matching products. */
  lemma {:induction false} SearchFilterKeepsMatches(ps: seq<Product>, q: string)
    ensures SearchFilter(ps, q).Some? <==> forall i :: 0 <= i < |ps| ==> Evaluable(ps[i], q)
    ensures SearchFilter(ps, q).Some? ==>
      |SearchFilter(ps, q).value| <= |ps| &&
      forall x :: x in SearchFilter(ps, q).value <==> x in ps && Matches(x, q)
  {
    if ps != [] {
      SearchFilterKeepsMatches(ps[1..], q);
      assert forall x :: x in ps <==> x == ps[0] || x in ps[1..];
      assert forall i :: 1 <= i < |ps| ==> ps[i] == ps[1..][i - 1];
    }
  }

  /** The products found keep the catalogue's order. */
  lemma {:induction false} SearchFilterAppend(a: seq<Product>, b: seq<Product>, q: string)
    ensures SearchFilter(a + b, q) ==
      if SearchFilter(a, q).Some? && SearchFilter(b, q).Some?
      then Some(SearchFilter(a, q).value + SearchFilter(b, q).value)
      else None
  {
    var other := SearchFilter(b, q);
    if a == [] {
      assert a + b == b;
      assert other.Some? ==> [] + other.value == other.value;
    } else {
      var p := a[0];
      assert (a + b)[0] == p;
      assert (a + b)[1..] == a[1..] + b;
      SearchFilterAppend(a[1..], b, q);
      var tail, rest := SearchFilter(a[1..] + b, q), SearchFilter(a[1..], q);
      var keep := Matches(p, q);
      if !Evaluable(p, q) {
        assert SearchFilter(a, q) == None && SearchFilter(a + b, q) == None;
      } else if rest.None? || other.None? {
        assert tail == None;
        assert SearchFilter(a + b, q) == None;
      } else if keep {
        assert SearchFilter(a, q) == Some([p] + rest.value);
        assert SearchFilter(a + b, q) == Some([p] + tail.value);
        assert [p] + (rest.value + other.value) == ([p] + rest.value) + other.value;
      } else {
        assert SearchFilter(a, q) == rest;
        assert SearchFilter(a + b, q) == tail;
      }
    }
  }

  lemma LowerKeepsSpace(s: string)
    ensures AllSpace(ToLower(s)) <==> AllSpace(s)
  {
    assert forall c :: IsSpace(LowerChar(c)) <==> IsSpace(c);
  }

  /** The search input handler: the query is the input lower-cased, then trimmed; an
      empty query shows every loaded product, any other keeps exactly the matching ones. */
  function Search(products: seq<Product>, input: string): (r: Option<seq<Product>>)
    ensures AllSpace(input) ==> r == Some(products)
    ensures !AllSpace(input) ==>
      (r.Some? <==> forall i :: 0 <= i < |products| ==> Evaluable(products[i], Trim(ToLower(input))))
    ensures !AllSpace(input) && r.Some? ==>
      forall x :: x in r.value <==> x in products && Matches(x, Trim(ToLower(input)))
  {
    var query := Trim(ToLower(input));
    LowerKeepsSpace(input);
    TrimEmptyIff(ToLower(input));
    SearchFilterKeepsMatches(products, query);
    if query == "" then Some(products) else SearchFilter(products, query)
  }

  // ---------- Price filter ----------

  const ProductsUrl := "http://localhost:3000/products"

  /** Inclusive price bounds sent as `price_gte` / `price_lte`. */
  datatype Band = Band(lo: Option<nat>, hi: Option<nat>)

  predicate InBand(b: Band, price: nat)
  {
    (b.lo.Some? ==> b.lo.value <= price) && (b.hi.Some? ==> price <= b.hi.value)
  }

  /** The bounds each price link stands for; any other id means no bounds. */
  function BandOf(priceId: string): Option<Band>
  {
    if priceId == "cat_007" then Some(Band(None, Some(99)))
    else if priceId == "cat_008" then Some(Band(Some(100), Some(500)))
    else if priceId == "cat_009" then Some(Band(Some(501), Some(1000)))
    else if priceId == "cat_0010" then Some(Band(Some(1001), None))
    else None
  }

  /** The query string for a band: lower bound first. */
  function QueryOf(b: Band): string
  {
    match (b.lo, b.hi)
    case (None, None) => ""
    case (Some(lo), None) => "?price_gte=" + NatToString(lo)
    case (None, Some(hi)) => "?price_lte=" + NatToString(hi)
    case (Some(lo), Some(hi)) => "?price_gte=" + NatToString(lo) + "&price_lte=" + NatToString(hi)
  }

  /** The query string of each of the four bands, spelled out. */
  lemma BandQueryLow()
    ensures QueryOf(Band(None, Some(99))) == "?price_lte=99"
  {
    assert NatToString(99) == "99" by {
      assert NatToString(99) == NatToString(9) + ['9'];
    }
  }

  lemma BandQueryMid()
    ensures QueryOf(Band(Some(100), Some(500))) == "?price_gte=100&price_lte=500"
  {
    assert NatToString(100) == "100" by {
      assert NatToString(10) == NatToString(1) + ['0'];
      assert NatToString(100) == NatToString(10) + ['0'];
    }
    assert NatToString(500) == "500" by {
      assert NatToString(50) == NatToString(5) + ['0'];
      assert NatToString(500) == NatToString(50) + ['0'];
    }
    assert "?price_gte=" + "100" == "?price_gte=100";
    assert "?price_gte=100" + "&price_lte=" == "?price_gte=100&price_lte=";
    assert "?price_gte=100&price_lte=" + "500" == "?price_gte=100&price_lte=500";
  }

  lemma BandQueryHigh()
    ensures QueryOf(Band(Some(501), Some(1000))) == "?price_gte=501&price_lte=1000"
  {
    assert NatToString(501) == "501" by {
      assert NatToString(50) == NatToString(5) + ['0'];
      assert NatToString(501) == NatToString(50) + ['1'];
    }
    assert NatToString(1000) == "1000" by {
      assert NatToString(10) == NatToString(1) + ['0'];
      assert NatToString(100) == NatToString(10) + ['0'];
      assert NatToString(1000) == NatToString(100) + ['0'];
    }
    assert "?price_gte=" + "501" == "?price_gte=501";
    assert "?price_gte=501" + "&price_lte=" == "?price_gte=501&price_lte=";
    assert "?price_gte=501&price_lte=" + "1000" == "?price_gte=501&price_lte=1000";
  }

  lemma BandQueryTop()
    ensures QueryOf(Band(Some(1001), None)) == "?price_gte=1001"
  {
    assert NatToString(1001) == "1001" by {
      assert NatToString(10) == NatToString(1) + ['0'];
      assert NatToString(100) == NatToString(10) + ['0'];
      assert NatToString(1001) == NatToString(100) + ['1'];
    }
  }

  /** The price link handler builds its URL by appending a fixed suffix per link id. */
  method PriceFilterUrl(priceId: string) returns (url: string)
    ensures BandOf(priceId).None? ==> url == ProductsUrl
    ensures BandOf(priceId).Some? ==> url == ProductsUrl + QueryOf(BandOf(priceId).value)
  {
    BandQueryLow();
    BandQueryMid();
    BandQueryHigh();
    BandQueryTop();
    url := ProductsUrl;
    if priceId == "cat_007" {
      url := url + "?price_lte=99";
    } else if priceId == "cat_008" {
      url := url + "?price_gte=100&price_lte=500";
    } else if priceId == "cat_009" {
      url := url + "?price_gte=501&price_lte=1000";
    } else if priceId == "cat_0010" {
      url := url + "?price_gte=1001";
    }
  }

  /** The link whose band holds a given whole price. */
  function BandFor(price: nat): string
  {
    if price <= 99 then "cat_007"
    else if price <= 500 then "cat_008"
    else if price <= 1000 then "cat_009"
    else "cat_0010"
  }

  /** Every whole price falls in the band of exactly one link. */
  lemma BandsPartitionPrices(price: nat, priceId: string)
    ensures BandOf(BandFor(price)).Some? && InBand(BandOf(BandFor(price)).value, price)
    ensures BandOf(priceId).Some? && InBand(BandOf(priceId).value, price) ==> priceId == BandFor(price)
  {
  }
}
