/** Browser-local persistent storage, seen as the handful of documents the pages keep
    under fixed keys. A key that was never written reads as `None` (`getItem` returns
    `null`); documents are held already parsed, since the JSON text round-trips them. */
module Storage {
  import opened Js
  import opened Catalog

  class LocalStore {
    /** The `wishlist` document: a JSON array of product snapshots. */
    var wishlist: Option<seq<Product>>
    /** The `activeTab` item of the admin console (always stored as a string). */
    var activeTab: Option<string>
    /** The `userName` item written by login and registration. */
    var userName: Option<string>

    constructor ()
      ensures wishlist == None && activeTab == None && userName == None
    {
      wishlist, activeTab, userName := None, None, None;
    }
  }
}
