/**
 * `ProductService`: the business operations on products over the product and
 * category tables. Category codes are matched ignoring case; create and update
 * add the category when no stored code matches (find-or-create).
 */
module Products {
  import opened Common
  import opened Entities
  import Text
  import opened Repositories
  import opened ProductRepository
  import opened Dto

  /** `c.CodigoCategoria.ToLower() == categoryName.ToLower()`. */
  predicate CodeMatches(c: Category, name: string)
  {
    Text.EqualIgnoringCase(c.code, name)
  }

  /** `GetCategoryByNameAsync`'s `FirstOrDefault`: the first category, in table
      order, whose code matches `name` ignoring case, or null when none does. */
  function FirstCategoryNamed(categories: seq<Category>, name: string): (r: Option<Category>)
    ensures r.None? <==> forall i :: 0 <= i < |categories| ==> !CodeMatches(categories[i], name)
    ensures r.Some? ==>
      exists i :: 0 <= i < |categories| && categories[i] == r.value && CodeMatches(categories[i], name)
        && forall j :: 0 <= j < i ==> !CodeMatches(categories[j], name)
  {
    if categories == [] then None
    else if CodeMatches(categories[0], name) then Some(categories[0])
    else
      var r := FirstCategoryNamed(categories[1..], name);
      assert r.Some? ==>
        exists i :: 1 <= i < |categories| && categories[i] == r.value && CodeMatches(categories[i], name)
          && forall j :: 1 <= j < i ==> !CodeMatches(categories[j], name);
      r
  }

  /** The included product belongs to a category whose code matches `name`
      ignoring case; a product whose navigation is null never does. */
  predicate InCategoryNamed(pc: ProductWithCategory, name: string)
  {
    pc.category.Some? && CodeMatches(pc.category.value, name)
  }

  /** The filter of `GetProductsByCategoryNameAsync` over the included products:
      empty when there are no products, otherwise those in a category whose
      code matches `name` ignoring case, each as often as it occurs, in table order. */
  function ProductsInCategoryNamed(included: seq<ProductWithCategory>, name: string): (r: seq<ProductWithCategory>)
    ensures included == [] ==> r == []
    ensures forall i :: 0 <= i < |r| ==> r[i] in included && InCategoryNamed(r[i], name)
    ensures forall i :: 0 <= i < |included| && InCategoryNamed(included[i], name) ==> included[i] in r
    ensures forall pc :: multiset(r)[pc] == if InCategoryNamed(pc, name) then multiset(included)[pc] else 0
  {
    if |included| == 0 then []
    else
      var keep := pc => InCategoryNamed(pc, name);
      WhereMembers(included, keep);
      WhereCounts(included, keep);
      Where(included, keep)
  }

  /** Two category names that differ only in letter case select the same products. */
  lemma CategoryFilterIgnoresCase(included: seq<ProductWithCategory>, a: string, b: string)
    requires Text.EqualIgnoringCase(a, b)
    ensures ProductsInCategoryNamed(included, a) == ProductsInCategoryNamed(included, b)
  {
    WhereCongruent(included, pc => InCategoryNamed(pc, a), pc => InCategoryNamed(pc, b));
  }

  /** For instance "ropa" and "ROPA" name the same category. */
  lemma RopaIsROPA()
    ensures Text.EqualIgnoringCase("ropa", "ROPA")
  {
    assert Text.Lower("ROPA") == "ropa";
  }

  /** The category filter over a listing of stored products returns only
      listed products of a matching category, each with that category. */
  lemma FilterReturnsStoredMatches(all: seq<Product>, stored: map<int, Product>,
                                   categories: map<int, Category>, name: string)
    requires forall i :: 0 <= i < |all| ==> all[i].id in stored && stored[all[i].id] == all[i]
    requires forall k :: k in stored ==> stored[k].categoryId in categories
    ensures var r := ProductsInCategoryNamed(ProductsWithInclude(all, categories), name);
      forall i :: 0 <= i < |r| ==>
        var p := r[i].product;
        && p.id in stored && stored[p.id] == p
        && p.categoryId in categories
        && r[i].category == Some(categories[p.categoryId])
        && CodeMatches(categories[p.categoryId], name)
  {
    var included := ProductsWithInclude(all, categories);
    var r := ProductsInCategoryNamed(included, name);
    forall i | 0 <= i < |r|
      ensures var p := r[i].product;
        && p.id in stored && stored[p.id] == p
        && p.categoryId in categories
        && r[i].category == Some(categories[p.categoryId])
        && CodeMatches(categories[p.categoryId], name)
    {
      var j :| 0 <= j < |included| && included[j] == r[i];
      assert included[j].product == all[j];
    }
  }

  /** Every listed product of a matching category is returned, with its category. */
  lemma FilterReturnsEveryStoredMatch(all: seq<Product>, stored: map<int, Product>,
                                      categories: map<int, Category>, name: string)
    requires forall k :: k in stored ==> exists i :: 0 <= i < |all| && all[i] == stored[k]
    requires forall k :: k in stored ==> stored[k].categoryId in categories
    ensures var r := ProductsInCategoryNamed(ProductsWithInclude(all, categories), name);
      forall k :: k in stored && CodeMatches(categories[stored[k].categoryId], name) ==>
        ProductWithCategory(stored[k], Some(categories[stored[k].categoryId])) in r
  {
    var included := ProductsWithInclude(all, categories);
    var r := ProductsInCategoryNamed(included, name);
    forall k | k in stored && CodeMatches(categories[stored[k].categoryId], name)
      ensures ProductWithCategory(stored[k], Some(categories[stored[k].categoryId])) in r
    {
      var i :| 0 <= i < |all| && all[i] == stored[k];
      assert included[i] == ProductWithCategory(stored[k], Some(categories[stored[k].categoryId]));
    }
  }

  /** A listing in id order gives a filter result in id order, so no product appears twice. */
  lemma FilterKeepsIdOrder(all: seq<Product>, categories: map<int, Category>, name: string)
    requires forall i, j :: 0 <= i < j < |all| ==> all[i].id < all[j].id
    ensures var r := ProductsInCategoryNamed(ProductsWithInclude(all, categories), name);
      forall i, j :: 0 <= i < j < |r| ==> r[i].product.id < r[j].product.id
  {
    var included := ProductsWithInclude(all, categories);
    assert forall i :: 0 <= i < |included| ==> included[i].product == all[i];
    if |included| > 0 {
      var keep := pc => InCategoryNamed(pc, name);
      var id := (pc: ProductWithCategory) => pc.product.id;
      assert forall i, j :: 0 <= i < j < |included| ==> id(included[i]) < id(included[j]);
      WhereKeepsOrder(included, keep, id);
      assert ProductsInCategoryNamed(included, name) == Where(included, keep);
    }
  }

  /** The error `UpdateProductAsync` throws for an id that is not stored. */
  datatype ServiceError = ProductNotFound(id: int)

  class ProductService {
    const products: Repository<Product>
    const categories: Repository<Category>

    /** Both tables are well formed, keyed by the entities' ids, and every
        product's category exists (the store's foreign-key constraint). */
    ghost predicate Valid()
      reads this, products, categories
    {
      && products.Valid()
      && categories.Valid()
      && products.keyOf == ProductKey && products.withKey == WithProductKey
      && categories.keyOf == CategoryKey && categories.withKey == WithCategoryKey
      && (forall k :: k in products.entries ==> products.entries[k].categoryId in categories.entries)
    }

    constructor (products: Repository<Product>, categories: Repository<Category>)
      requires products.Valid() && categories.Valid()
      requires products.keyOf == ProductKey && products.withKey == WithProductKey
      requires categories.keyOf == CategoryKey && categories.withKey == WithCategoryKey
      requires forall k :: k in products.entries ==> products.entries[k].categoryId in categories.entries
      ensures Valid() && this.products == products && this.categories == categories
    {
      this.products := products;
      this.categories := categories;
    }

    /** The category table went from its old to its new state by
        find-or-create of `name`, and `id` is the resolved category's id: the
        first matching category's when there is one, and the table is
        unchanged; otherwise one new category with code and description
        `name` is added under the next generated key. */
    twostate predicate CategoryResolved(name: string, id: int)
      reads this, categories
    {
      old(categories.Valid()) &&
      match FirstCategoryNamed(old(categories.All()), name)
      case Some(c) =>
        && id == c.id
        && categories.entries == old(categories.entries)
        && categories.keys == old(categories.keys)
        && categories.nextId == old(categories.nextId)
      case None =>
        && id == old(categories.nextId)
        && old(categories.nextId) !in old(categories.entries)
        && categories.entries == old(categories.entries)[id := Category(id, name, name, DefaultTime, None)]
        && categories.keys == old(categories.keys) + [id]
        && categories.nextId == old(categories.nextId) + 1
    }

    /** `GetProductByIdAsync(id)`: the stored product with that id, or null. */
    method GetProductById(id: int) returns (r: Option<Product>)
      requires Valid()
      ensures r.Some? <==> id in products.entries
      ensures r.Some? ==> r.value == products.entries[id] && r.value.id == id
    {
      r := products.Find(id);
    }

    /** `GetAllProductsAsync()`: every stored product, once, in key order. */
    method GetAllProducts() returns (r: seq<Product>)
      requires Valid()
      ensures |r| == |products.entries|
      ensures forall k :: k in products.entries ==> products.entries[k] in r
      ensures forall i :: 0 <= i < |r| ==> r[i].id in products.entries && products.entries[r[i].id] == r[i]
      ensures forall i, j :: 0 <= i < j < |r| ==> r[i].id < r[j].id
    {
      r := products.All();
    }

    /** `GetProductsByCategoryNameAsync(name)`: exactly the stored products whose
        category's code equals `name` ignoring case, each once and with its
        category, in id order. */
    method GetProductsByCategoryName(name: string) returns (r: seq<ProductWithCategory>)
      requires Valid()
      ensures r == ProductsInCategoryNamed(ProductsWithInclude(products.All(), categories.entries), name)
      ensures products.entries == map[] ==> r == []
      ensures forall i :: 0 <= i < |r| ==>
        var p := r[i].product;
        && p.id in products.entries && products.entries[p.id] == p
        && p.categoryId in categories.entries
        && r[i].category == Some(categories.entries[p.categoryId])
        && CodeMatches(categories.entries[p.categoryId], name)
      ensures forall k :: k in products.entries && CodeMatches(categories.entries[products.entries[k].categoryId], name) ==>
        ProductWithCategory(products.entries[k], Some(categories.entries[products.entries[k].categoryId])) in r
      ensures forall i, j :: 0 <= i < j < |r| ==> r[i].product.id < r[j].product.id
    {
      var all := products.All();
      forall k | k in products.entries ensures exists i :: 0 <= i < |all| && all[i] == products.entries[k] {
        products.AllHas(k);
      }
      FilterReturnsStoredMatches(all, products.entries, categories.entries, name);
      FilterReturnsEveryStoredMatch(all, products.entries, categories.entries, name);
      FilterKeepsIdOrder(all, categories.entries, name);
      r := ProductsInCategoryNamed(ProductsWithInclude(all, categories.entries), name);
    }

    /** `GetCategoryByNameAsync(name)`: the first stored category whose code
        matches `name` ignoring case, or null. */
    method GetCategoryByName(name: string) returns (r: Option<Category>)
      requires Valid()
      ensures r == FirstCategoryNamed(categories.All(), name)
      ensures r.Some? ==> r.value.id in categories.entries && categories.entries[r.value.id] == r.value
      ensures r.None? ==> forall k :: k in categories.entries ==> !CodeMatches(categories.entries[k], name)
    {
      r := FirstCategoryNamed(categories.All(), name);
    }

    /** The find-or-create step that create and update share. A new category
        gets only its code and description; its timestamps keep their defaults. */
    method ResolveCategory(name: string) returns (category: Category)
      requires Valid()
      modifies categories
      ensures Valid()
      ensures CategoryResolved(name, category.id)
      ensures category.id in categories.entries && categories.entries[category.id] == category
    {
      var found := GetCategoryByName(name);
      if found.None? {
        category := categories.Add(Category(0, name, name, DefaultTime, None));
      } else {
        category := found.value;
      }
    }

    /** `CreateProductAsync(dto)` at time `now`: resolves the category, then
        adds one product with the DTO's fields, that category's id and the
        creation stamp `now`, under a fresh id; no other product changes. */
    method CreateProduct(dto: ProductDto, now: Timestamp) returns (created: Product)
      requires Valid()
      requires dto.name.Some? && dto.category.Some? && dto.brand.Some?
      modifies products, categories
      ensures Valid()
      ensures CategoryResolved(dto.category.value, created.categoryId)
      ensures created.id == old(products.nextId) && created.id !in old(products.entries)
      ensures created == Product(created.id, dto.name.value, dto.price, dto.stock, dto.brand.value,
                                 created.categoryId, now, None)
      ensures products.entries == old(products.entries)[created.id := created]
      ensures products.keys == old(products.keys) + [created.id]
      ensures products.nextId == old(products.nextId) + 1
    {
      var category := ResolveCategory(dto.category.value);
      var entity := Product(0, dto.name.value, dto.price, dto.stock, dto.brand.value, category.id, now, None);
      created := products.Add(entity);
    }

    /** `UpdateProductAsync(id, dto)` at time `now`. A missing id fails before
        anything changes. Otherwise the category is resolved and the stored
        product gets the DTO's name, price, stock and brand, the resolved
        category id and the update stamp `now`; its id and creation stamp stay,
        and no other product changes. */
    method UpdateProduct(id: int, dto: ProductDto, now: Timestamp) returns (outcome: Outcome<ServiceError>)
      requires Valid()
      requires dto.name.Some? && dto.category.Some? && dto.brand.Some?
      modifies products, categories
      ensures Valid()
      ensures outcome.Fail? <==> id !in old(products.entries)
      ensures outcome.Fail? ==> outcome.error == ProductNotFound(id) && unchanged(products, categories)
      ensures outcome.Pass? ==>
        var before := old(products.entries)[id];
        && id in products.entries
        && var categoryId := products.entries[id].categoryId;
        && CategoryResolved(dto.category.value, categoryId)
        && products.entries == old(products.entries)[id := before.(
             name := dto.name.value, categoryId := categoryId, price := dto.price,
             stock := dto.stock, brand := dto.brand.value, updatedAt := Some(now))]
        && products.keys == old(products.keys)
        && products.nextId == old(products.nextId)
    {
      var existing := products.Find(id);
      if existing.None? {
        return Fail(ProductNotFound(id));
      }
      var category := ResolveCategory(dto.category.value);
      var p := existing.value;
      p := p.(name := dto.name.value);
      p := p.(categoryId := category.id);
      p := p.(price := dto.price);
      p := p.(stock := dto.stock);
      p := p.(brand := dto.brand.value);
      p := p.(updatedAt := Some(now));
      var ok := products.Update(p);
      assert ok;
      outcome := Pass;
    }

    /** `DeleteProductAsync(id)`: removes the product with that id if there is
        one and does nothing otherwise; categories are untouched. */
    method DeleteProduct(id: int)
      requires Valid()
      modifies products
      ensures Valid()
      ensures products.entries == old(products.entries) - {id}
      ensures products.keys == Without(old(products.keys), id)
      ensures products.nextId == old(products.nextId)
    {
      products.Delete(id);
    }
  }

  /** An empty store, then "create Running Shoes in Footwear": the category
      Footwear is created under id 1 and the product refers to it. */
  method CreateUnderNewCategoryScenario(now: Timestamp)
  {
    var products := new Repository<Product>(ProductKey, WithProductKey);
    var categories := new Repository<Category>(CategoryKey, WithCategoryKey);
    var service := new ProductService(products, categories);
    var dto := ProductDto(Some("Running Shoes"), Some("Footwear"), 29.99, 10, Some("Acme"));
    var created := service.CreateProduct(dto, now);
    assert created == Product(1, "Running Shoes", 29.99, 10, "Acme", 1, now, None);
    assert categories.entries == map[1 := Category(1, "Footwear", "Footwear", DefaultTime, None)];
  }

  /** On the product table: deleting an id that is not stored changes
      nothing, and deleting a stored product twice is the same as deleting it once. */
  method DeleteScenario(p: Product)
  {
    var table := new Repository<Product>(ProductKey, WithProductKey);
    var saved := table.Add(p);
    assert saved == p.(id := 1);
    table.Delete(7);
    assert table.entries == map[1 := saved];
    table.Delete(1);
    assert table.entries == map[];
    table.Delete(1);
    assert table.entries == map[];
  }
}
