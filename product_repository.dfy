/**
 * The read-only queries that join products with their categories:
 * `ProductRepository.GetProductsWithInclude`, `GetProductsByCategoryAsync`
 * and the generic repository's `Get(string)`. They take the two tables'
 * contents as values, so none of them can change the store.
 */
module ProductRepository {
  import opened Common
  import opened Entities

  /** A product with its `IdCategoriaNavigation` loaded. */
  datatype ProductWithCategory = ProductWithCategory(product: Product, category: Option<Category>)

  /** The category row a product refers to, or null when none has its key. */
  function Navigation(p: Product, categories: map<int, Category>): Option<Category>
  {
    if p.categoryId in categories then Some(categories[p.categoryId]) else None
  }

  /** Every category is stored under its own id. */
  predicate KeyedById(categories: map<int, Category>)
  {
    forall k :: k in categories ==> categories[k].id == k
  }

  /** The foreign-key constraint: every product's category exists. */
  predicate ReferencesExist(products: seq<Product>, categories: map<int, Category>)
  {
    forall i :: 0 <= i < |products| ==> products[i].categoryId in categories
  }

  /** `GetProductsWithInclude()`: every product, in order, paired with its category. */
  function ProductsWithInclude(products: seq<Product>, categories: map<int, Category>): (r: seq<ProductWithCategory>)
    ensures |r| == |products|
    ensures forall i :: 0 <= i < |r| ==> r[i].product == products[i] && r[i].category == Navigation(products[i], categories)
  {
    if products == [] then []
    else
      [ProductWithCategory(products[0], Navigation(products[0], categories))]
      + ProductsWithInclude(products[1..], categories)
  }

  /** Under the foreign-key constraint every included category is present and
      is the row the product's key names. */
  lemma IncludedCategoriesArePresent(products: seq<Product>, categories: map<int, Category>)
    requires KeyedById(categories) && ReferencesExist(products, categories)
    ensures forall i :: 0 <= i < |products| ==>
      var pc := ProductsWithInclude(products, categories)[i];
      pc.category == Some(categories[products[i].categoryId]) && pc.category.value.id == products[i].categoryId
  {
  }

  predicate NavigationHasId(p: Product, categories: map<int, Category>, id: int)
  {
    var nav := Navigation(p, categories);
    nav.Some? && nav.value.id == id
  }

  /** `GetProductsByCategoryAsync(id)`: the products whose navigation's id is
      `id`, each as often as it is stored. */
  function ProductsByCategory(products: seq<Product>, categories: map<int, Category>, id: int): (r: seq<Product>)
    ensures forall i :: 0 <= i < |r| ==> r[i] in products && NavigationHasId(r[i], categories, id)
    ensures forall i :: 0 <= i < |products| && NavigationHasId(products[i], categories, id) ==> products[i] in r
    ensures forall p :: multiset(r)[p] == if NavigationHasId(p, categories, id) then multiset(products)[p] else 0
  {
    var keep := p => NavigationHasId(p, categories, id);
    WhereMembers(products, keep);
    WhereCounts(products, keep);
    Where(products, keep)
  }

  /** Under the foreign-key constraint the query selects exactly the products
      whose foreign key is `id`. */
  lemma ProductsByCategoryIsExact(products: seq<Product>, categories: map<int, Category>, id: int)
    requires KeyedById(categories) && ReferencesExist(products, categories)
    ensures var r := ProductsByCategory(products, categories, id);
      && (forall i :: 0 <= i < |r| ==> r[i].categoryId == id)
      && (forall i :: 0 <= i < |products| && products[i].categoryId == id ==> products[i] in r)
  {
  }

  predicate NavigationHasCode(p: Product, categories: map<int, Category>, code: string)
  {
    var nav := Navigation(p, categories);
    nav.Some? && nav.value.code == code
  }

  /** `Get(code)`: the products whose category's code is exactly `code`, each
      as often as it is stored. */
  function ProductsByCategoryCode(products: seq<Product>, categories: map<int, Category>, code: string): (r: seq<Product>)
    ensures forall i :: 0 <= i < |r| ==> r[i] in products && NavigationHasCode(r[i], categories, code)
    ensures forall i :: 0 <= i < |products| && NavigationHasCode(products[i], categories, code) ==> products[i] in r
    ensures forall p :: multiset(r)[p] == if NavigationHasCode(p, categories, code) then multiset(products)[p] else 0
  {
    var keep := p => NavigationHasCode(p, categories, code);
    WhereMembers(products, keep);
    WhereCounts(products, keep);
    Where(products, keep)
  }
}
