/** The product record served by the data API's `/products` collection and copied,
    field for field, into wishlist entries. */
module Catalog {
  import opened Js

  datatype Product = Product(
    id: Value,
    name: Value,
    description: Value,
    price: Value,
    imageUrl: Value,
    categoryId: Value)

  /** Products are compared by `String(p.id)`, so `5` and `"5"` name the same product. */
  function Key(p: Product): string
  {
    ToStr(p.id)
  }
}
