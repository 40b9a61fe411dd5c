/** The two persisted entities, `Categoria` and `Producto`, as values. */
module Entities {
  import opened Common

  /** A product category (`Categoria`). */
  datatype Category = Category(
    id: int,                       // IdCategoria, the primary key
    code: string,                  // CodigoCategoria, the human-facing lookup key
    description: string,           // DescripcionCategoria
    createdAt: Timestamp,          // FechaCreacion
    updatedAt: Option<Timestamp>)  // FechaActualizacion, null until the first update

  /** A product (`Producto`). Its navigation property to the category is not a
      field: it is looked up by `categoryId` wherever a query includes it. */
  datatype Product = Product(
    id: int,                       // IdProducto, the primary key
    name: string,
    price: real,                   // decimal(18, 2), kept exact
    stock: Int32,
    brand: string,
    categoryId: int,               // IdCategoria, the foreign key to Category
    createdAt: Timestamp,          // FechaCreacion
    updatedAt: Option<Timestamp>)  // FechaActualizacion, null until the first update

  /** The primary key of a product, and the product with another key. */
  function ProductKey(p: Product): int { p.id }
  function WithProductKey(p: Product, id: int): Product { p.(id := id) }

  /** The primary key of a category, and the category with another key. */
  function CategoryKey(c: Category): int { c.id }
  function WithCategoryKey(c: Category, id: int): Category { c.(id := id) }
}
