# SportShopApi core, modelled in Dafny

SportShopApi is a small ASP.NET Core shop API for sports products. Its core is made of:

- a generic EF Core repository over two tables, products (`Producto`) and categories (`Categoria`);
- a product service that looks up categories by code ignoring case and creates them on demand;
- a metrics service that totals the products and names the two busiest categories;
- the validation annotations on the `ProductoDTO` request body.

This project models that core and proves what each operation promises.

| file | module | models |
|---|---|---|
| `common.dfy` | `Common` | null as `Option`, a thrown error as `Outcome`, C# `int` as `Int32`, LINQ `Where` |
| `text.dfy` | `Text` | `ToLower` on ASCII letters and case-insensitive equality; `char.IsWhiteSpace` |
| `entities.dfy` | `Entities` | `Categoria` and `Producto` as values |
| `repository.dfy` | `Repositories` | `Repository<T>` as a class holding one table in memory |
| `product_repository.dfy` | `ProductRepository` | the read-only queries that join products with their categories |
| `product_dto.dfy` | `Dto` | `ProductoDTO` and the errors its annotations report |
| `product_service.dfy` | `Products` | `ProductService`, as a class over two repositories |
| `metrics_service.dfy` | `Metrics` | `GetProductMetricsAsync`, as pure functions |

## The store

A table is a `Repository<T>` with three fields:

- `entries`, a map from primary key to entity;
- `keys`, the stored keys in ascending order, which is the order the model gives `GetAllAsync`'s rows (see `Repositories.Repository.All` under "## Left out");
- `nextId`, the identity counter that generates keys.

The database stops being an outside party: generating identities is the counter's job, and `SaveChangesAsync` takes effect at once. The methods change only the repository and state its whole new state. The product service keeps a foreign-key invariant: every product's category is stored.

## Inputs the model takes as parameters

- `DateTime.Now` becomes the `now: Timestamp` argument of create and update.
- The database's identity column becomes the repository's `nextId`.

## Model

| member | source | states |
|---|---|---|
| Common.Where | Application/Services/ProductService.cs:81-83 | LINQ `Where(...).ToList()`; specified by `WhereMembers`, `WhereCounts`, `WhereAppend` and `WhereKeepsOrder` |
| Common.WhereMembers | Application/Services/ProductService.cs:81-83 | the filter keeps only elements of the input that satisfy the predicate, keeps every one that does, and never grows the list |
| Common.WhereCounts | Application/Services/ProductService.cs:81-83 | every element that satisfies the predicate occurs in the result exactly as often as in the input; no other element occurs |
| Common.WhereAppend | Application/Services/ProductService.cs:81-83 | filtering a concatenation is the concatenation of the filtered parts, so input order is kept |
| Common.WhereKeepsOrder | Application/Services/ProductService.cs:81-83 | when a key strictly increases along the input, it strictly increases along the result |
| Common.WhereCongruent | Application/Services/ProductService.cs:81-83 | two predicates that agree on every element filter a list identically |
| Text.IsWhiteSpace | Application/DTO/ProductoDTO.cs:13 | `char.IsWhiteSpace`, the set `[Required]` treats as blank; definition used by `Dto.Required` |
| Text.IsBlank | Application/DTO/ProductoDTO.cs:13 | `string.IsNullOrWhiteSpace` on a non-null string: every character is white space; definition used by `Dto.Required` |
| Text.EqualIgnoringCase | Application/Services/ProductService.cs:205 | `a.ToLower() == b.ToLower()`; specified by `EqualIgnoringCaseIsPointwise` and `EqualIgnoringCaseIsEquivalence` |
| Text.Lower | Application/Services/ProductService.cs:82 | lower-casing keeps the length and lower-cases each character on its own |
| Text.EqualIgnoringCaseIsPointwise | Application/Services/ProductService.cs:205 | two codes are equal ignoring case iff they have the same length and agree letter by letter once lower-cased |
| Text.LowerIdempotent | Application/Services/ProductService.cs:205 | lower-casing a lower-cased string changes nothing |
| Text.EqualIgnoringCaseIsEquivalence | Application/Services/ProductService.cs:205 | matching codes ignoring case is reflexive, symmetric and transitive |
| Repositories.Without | infrastructure/Repositories/Repository.cs:62-69 | the key list after a delete holds exactly the old keys other than the deleted one |
| Repositories.WithoutIncreasing | infrastructure/Repositories/Repository.cs:62-69 | a delete keeps the remaining keys in ascending order |
| Repositories.WithoutAbsent | infrastructure/Repositories/Repository.cs:64-65 | deleting a key that is not stored leaves the key list as it was |
| Repositories.InKeyOrder | infrastructure/Repositories/Repository.cs:41-44 | listing a table gives one entity per key, in key order, each the entity stored under its key |
| Repositories.IncreasingCardinality | infrastructure/Repositories/Repository.cs:41-44 | a list of ascending keys has no repeats, so the table and its listing have the same size |
| Repositories.Repository.constructor | infrastructure/Repositories/Repository.cs:23-26 | a new table is empty and its first generated key is 1 |
| Repositories.Repository.Find | infrastructure/Repositories/Repository.cs:29-32 | the result is not null iff the key is stored, and then it is the entity stored under that key and carries that key |
| Repositories.Repository.All | infrastructure/Repositories/Repository.cs:41-44 | the listing has as many rows as the table, each row is the entity stored under its own key, and keys strictly increase, so no row repeats |
| Repositories.Repository.AllHas | infrastructure/Repositories/Repository.cs:41-44 | every stored entity appears in the listing |
| Repositories.Repository.Add | infrastructure/Repositories/Repository.cs:47-52 | the entity is stored under a key that was not in use, and is returned with that key filled in; every other entry is unchanged and the counter advances by one |
| Repositories.Repository.Update | infrastructure/Repositories/Repository.cs:55-59 | the entry under the entity's key is replaced iff that key is stored; nothing else changes |
| Repositories.Repository.Delete | infrastructure/Repositories/Repository.cs:62-69 | only the entry under the id is removed, and a missing id changes nothing and does not fail |
| Repositories.DeleteIdempotent | infrastructure/Repositories/Repository.cs:64-69 | deleting twice leaves the table as deleting once does; deleting a missing id leaves it unchanged |
| ProductRepository.Navigation | infrastructure/Repositories/ProductRepository.cs:21 | `p.IdCategoriaNavigation`: the category row a product's foreign key names, or null; definition used by `ProductsWithInclude` and the two queries |
| ProductRepository.NavigationHasId | infrastructure/Repositories/ProductRepository.cs:27 | the lambda of `GetProductsByCategoryAsync`; definition used by `ProductsByCategory` |
| ProductRepository.NavigationHasCode | infrastructure/Repositories/Repository.cs:37 | the lambda of `Get(string)`; definition used by `ProductsByCategoryCode` |
| ProductRepository.ProductsWithInclude | infrastructure/Repositories/ProductRepository.cs:18-23 | every product, in order, paired with the category its foreign key names, or with null when no category has that key |
| ProductRepository.IncludedCategoriesArePresent | infrastructure/Repositories/ProductRepository.cs:18-23 | under the foreign-key constraint every included category is present and is the row with the product's category id |
| ProductRepository.ProductsByCategory | infrastructure/Repositories/ProductRepository.cs:24-29 | the result holds only stored products whose category has the id, and every such product, each as often as it is stored |
| ProductRepository.ProductsByCategoryIsExact | infrastructure/Repositories/ProductRepository.cs:24-29 | under the foreign-key constraint the result is exactly the products whose foreign key is the id |
| ProductRepository.ProductsByCategoryCode | infrastructure/Repositories/Repository.cs:35-38 | the result holds only products whose category's code equals the argument exactly, and every such product, each as often as it is stored |
| Dto.Required | Application/DTO/ProductoDTO.cs:13-20 | `[Required]` on a string: not null and not empty or white space only; used by `Errors` and `NoErrorsIffValid` |
| Dto.IsValid | Application/DTO/ProductoDTO.cs:13-40 | every annotation holds; proved equal to "no errors" by `NoErrorsIffValid` and sufficient for the entity invariant by `ValidDtoMeetsEntityInvariant` |
| Dto.Errors | Application/DTO/ProductoDTO.cs:13-40 | each annotation's message is reported iff that annotation fails on its property (name, category and brand not required-valid, price below 0.01, stock negative), and at most five are reported |
| Dto.FieldRank | Application/DTO/ProductoDTO.cs:13-40 | the declaration order of the five annotated properties; used by `ErrorsReportEachFieldOnce` |
| Dto.AppendRanked | Application/DTO/ProductoDTO.cs:13-40 | appending an error for a later property to errors in property order keeps them in property order |
| Dto.ErrorsReportEachFieldOnce | Application/DTO/ProductoDTO.cs:13-40 | the errors come in property order, so no property is reported twice |
| Dto.NoErrorsIffValid | Application/DTO/ProductoDTO.cs:13-40 | a request has no validation errors iff name, category and brand are present and not blank, the price is at least 0.01 and the stock is in [0, int.MaxValue] |
| Dto.ValidDtoMeetsEntityInvariant | Application/DTO/ProductoDTO.cs:13-40 | a valid request names a product with non-empty strings, a positive price and no negative stock |
| Products.CodeMatches | Application/Services/ProductService.cs:205 | the lambda of `GetCategoryByNameAsync`: the category's code equals the name ignoring case; definition used by `FirstCategoryNamed` and `InCategoryNamed` |
| Products.InCategoryNamed | Application/Services/ProductService.cs:82 | the lambda of `GetProductsByCategoryNameAsync`: the loaded category is present and its code matches the name ignoring case; definition used by `ProductsInCategoryNamed` |
| Products.FirstCategoryNamed | Application/Services/ProductService.cs:202-206 | null iff no category's code matches the name ignoring case; otherwise a matching category that no earlier category matches |
| Products.ProductsInCategoryNamed | Application/Services/ProductService.cs:74-85 | empty when there are no products; otherwise only included products whose category matches the name ignoring case, and all of them, each as often as it occurs in the input |
| Products.FilterReturnsStoredMatches | Application/Services/ProductService.cs:74-85 | over the listing of a product table, every result is a stored product paired with its category, and that category's code matches the name ignoring case |
| Products.FilterReturnsEveryStoredMatch | Application/Services/ProductService.cs:74-85 | over a listing that holds every stored product, every stored product whose category matches the name ignoring case is in the result |
| Products.FilterKeepsIdOrder | Application/Services/ProductService.cs:74-85 | over a listing in increasing id order the result is in increasing id order, so no product appears twice |
| Products.CategoryFilterIgnoresCase | Application/Services/ProductService.cs:82 | two names that differ only in letter case select the same products |
| Products.RopaIsROPA | Application/Services/ProductService.cs:82 | "ropa" and "ROPA" name the same category |
| Products.ProductService.constructor | Application/Services/ProductService.cs:22-27 | the service works over the two given tables, which are keyed by id and obey the foreign-key constraint |
| Products.ProductService.GetProductById | Application/Services/ProductService.cs:35-46 | the result is not null iff a product with that id is stored, and then it is that product |
| Products.ProductService.GetAllProducts | Application/Services/ProductService.cs:52-63 | every stored product exactly once, in id order, and nothing else |
| Products.ProductService.GetProductsByCategoryName | Application/Services/ProductService.cs:70-92 | empty for an empty store; otherwise exactly the stored products whose category's code matches the name ignoring case, each with its category, each once, in increasing id order |
| Products.ProductService.GetCategoryByName | Application/Services/ProductService.cs:202-206 | the first category in table order that matches the name ignoring case; null only when no stored category matches |
| Products.ProductService.CategoryResolved | Application/Services/ProductService.cs:104-113 | the two-state relation of find-or-create: the first matching category's id with the table unchanged, or one new category with code and description the name under the next key; the postcondition of `ResolveCategory` and `CreateProduct` |
| Products.ProductService.ResolveCategory | Application/Services/ProductService.cs:104-113 | the first matching category is returned and the category table is unchanged; when none matches, exactly one category is added, with code and description both equal to the name, under a fresh key |
| Products.ProductService.CreateProduct | Application/Services/ProductService.cs:100-133 | the category is found or created as above, and exactly one product is added under a fresh id. It takes name, price, stock and brand from the request, the resolved category's id and creation stamp `now`, and has no update stamp; no other product changes |
| Products.ProductService.UpdateProduct | Application/Services/ProductService.cs:142-176 | fails iff the id is not stored, and then nothing changes and no category is created. Otherwise the category is found or created, and the product gets the request's name, price, stock and brand, the resolved category id and update stamp `now`. It keeps its id and creation stamp, and no other product changes |
| Products.ProductService.DeleteProduct | Application/Services/ProductService.cs:184-195 | only the product with the id is removed, a missing id changes nothing, and categories are untouched |
| Metrics.CheckedStockSum | Application/Services/MetricsService.cs:33 | `Sum(p => p.Stock)` in checked `int` arithmetic, left to right; specified by `CheckedStockSumIsSum` and `CheckedStockSumFailsOnOverflow` |
| Metrics.CheckedStockSumIsSum | Application/Services/MetricsService.cs:33 | when the checked `int` sum of the stocks succeeds it equals the sum of the stocks |
| Metrics.CheckedStockSumFailsOnOverflow | Application/Services/MetricsService.cs:33 | with no negative stock the checked sum fails iff the total stock exceeds int.MaxValue |
| Metrics.AveragePrice | Application/Services/MetricsService.cs:34 | 0 for no products, otherwise the mean price; specified by `AveragePriceIsMean` |
| Metrics.PriceSumBounds | Application/Services/MetricsService.cs:34 | n prices between lo and hi add up to between n·lo and n·hi |
| Metrics.AveragePriceIsMean | Application/Services/MetricsService.cs:34 | for a non-empty list the average times the count is the price sum, and the average lies between the lowest and the highest price |
| Metrics.AddToGroups | Application/Services/MetricsService.cs:36-38 | one step of LINQ's grouping; specified by `AddToGroupsSpec` and `AddToGroupsAddsOne` |
| Metrics.GroupByCategory | Application/Services/MetricsService.cs:36-38 | `GroupBy(p => p.IdCategoria)` with each group's count; specified by `GroupByCategorySpec`, `GroupByCategoryOrder` and `GroupCountsAddUp` |
| Metrics.AddToGroupsSpec | Application/Services/MetricsService.cs:36-38 | counting one more product raises its category's group by one, or appends a new group of one at the end; other groups stay as they are |
| Metrics.CountInPositive | Application/Services/MetricsService.cs:36-38 | a category has a positive count iff some product belongs to it |
| Metrics.OccursInit | Application/Services/MetricsService.cs:36-38 | a category occurs in a list iff it occurs in all but the last product or is the last product's |
| Metrics.GroupByCategorySpec | Application/Services/MetricsService.cs:36-38 | the groups have distinct category ids; there is one group per category that occurs; each group's count is the number of products with that category id |
| Metrics.GroupByCategoryOrder | Application/Services/MetricsService.cs:36-38 | groups come in order of first appearance: a prefix of the products that reaches a later group reaches every earlier one |
| Metrics.GroupCountsAddUp | Application/Services/MetricsService.cs:36-38 | the group counts add up to the number of products |
| Metrics.AddToGroupsAddsOne | Application/Services/MetricsService.cs:36-38 | counting one more product raises the total of the counts by one |
| Metrics.InsertByCount | Application/Services/MetricsService.cs:39 | one insertion step of the stable sort; specified by `InsertByCountAddsOne`, `InsertByCountKeepsOrder` and `InsertByCountStable` |
| Metrics.OrderByCountDescending | Application/Services/MetricsService.cs:39 | `OrderByDescending(g => g.Count)`; specified by `OrderByCountDescendingSorts`, `OrderByCountDescendingLength` and `OrderByCountDescendingStable` |
| Metrics.InsertByCountAddsOne | Application/Services/MetricsService.cs:39 | inserting a group adds exactly that group to the multiset of groups |
| Metrics.InsertByCountKeepsOrder | Application/Services/MetricsService.cs:39 | inserting a group into a list in non-increasing count order keeps it in that order |
| Metrics.OrderByCountDescendingSorts | Application/Services/MetricsService.cs:39 | the ordering is by non-increasing count and is a permutation of the groups |
| Metrics.OrderByCountDescendingLength | Application/Services/MetricsService.cs:39 | the ordering keeps the number of groups |
| Metrics.WithCountAppend | Application/Services/MetricsService.cs:39 | picking the groups of one count distributes over concatenation |
| Metrics.InsertByCountStable | Application/Services/MetricsService.cs:39 | an inserted group goes ahead of every group of the same count already placed |
| Metrics.OrderByCountDescendingStable | Application/Services/MetricsService.cs:39 | the ordering is stable: groups of equal count keep their order |
| Metrics.TopTwo | Application/Services/MetricsService.cs:39-40 | `OrderByDescending(...).Take(2)`; specified by `TopTwoIsSortedSelection`, `TopTwoSelectsLargest` and `TopTwoKeepsTieOrder` |
| Metrics.TopTwoIsSortedSelection | Application/Services/MetricsService.cs:39-40 | min(2, number of groups) groups are selected, they are groups of the input, and they come in non-increasing order of count |
| Metrics.TopTwoSelectsLargest | Application/Services/MetricsService.cs:39-40 | no group left out has a larger count than a selected one |
| Metrics.TopTwoKeepsTieOrder | Application/Services/MetricsService.cs:39-40 | among groups of equal count the selected ones are the first of that count in group order |
| Metrics.CodesFor | Application/Services/MetricsService.cs:42-48 | the join's inner side for one group; specified by `CodesForUnique` and `CodesForAbsent` |
| Metrics.JoinCodes | Application/Services/MetricsService.cs:42-48 | `Join(categories, ..., (cc, c) => c.CodigoCategoria)`; specified by `JoinCodesSpec` |
| Metrics.CodesForUnique | Application/Services/MetricsService.cs:42-48 | with distinct category ids a group joins at most one category, and joins exactly the category with its id when one exists |
| Metrics.CodesForAbsent | Application/Services/MetricsService.cs:42-48 | a group whose id no category has contributes no code |
| Metrics.JoinCodesSpec | Application/Services/MetricsService.cs:42-48 | the join gives at most one code per selected group; when every group's category exists, exactly the code of each group's category, in the selected order |
| Metrics.ProductMetrics | Application/Services/MetricsService.cs:27-63 | the error object iff the checked stock sum overflows. Otherwise: `total_products` is the number of products and `total_stock` the sum of the stocks; `average_price` is 0 for no products and otherwise multiplies by the count to the price sum; `top_categories` is the join of the top two groups |
| Metrics.TopCategoriesAtMostTwo | Application/Services/MetricsService.cs:42-48 | with distinct category ids `top_categories` has at most two entries |
| Metrics.TopCategoriesUnderForeignKeys | Application/Services/MetricsService.cs:36-48 | when every product's category exists, `top_categories` holds min(2, categories in use) codes; each is the code of the corresponding selected group's category |
| Metrics.GetProductMetrics | Application/Services/MetricsService.cs:27-63 | the metrics of the two tables as listed by `GetAllAsync`, with at most two top categories |

`Products.CreateUnderNewCategoryScenario` and `Products.DeleteScenario` carry no contract and have no row. They are worked examples of the create and delete scenarios: an empty store where "create Running Shoes in Footwear" creates category 1 and product 1, and a table where deleting a missing id, the stored id, then the same id again leaves it as the behaviour of `Delete` says.

## Left out

- Async and logging: `async`/`Task` and `Console.WriteLine` are not modelled. The operations are sequential once awaited.
- Catch blocks: infrastructure failures are not modelled (connection loss, a failed `SaveChangesAsync`, a constraint violation), so the catch blocks that turn them into null or an empty list are not modelled either. The one exception the code itself raises in the metrics chain is modelled: `int` overflow in `Sum`, which yields the error object. So is the one in the product service: the missing product in update, which yields `Fail`.
- Text.Lower: lower-cases ASCII letters only. `ToLower` uses the current culture and maps every Unicode letter, which is not modelled.
- Products.ProductsInCategoryNamed: the `?.` on a null category code is not modelled. The code is not nullable in the entity, so a category's code is always a string here.
- Entities.Product: prices are exact reals. The rounding of `decimal(18, 2)` storage and of `decimal` division in `Average` is not modelled. Neither is the overflow of a `decimal` sum.
- Dto.IsValid and Dto.Errors: compare the price with 0.01 exactly (`MinPrice <= dto.price` and `PriceOutOfRange in r <==> dto.price < MinPrice`). `[Range(0.01, double.MaxValue)]` converts the `decimal` price to `double` before comparing. So a price just below 0.01, such as 0.00999999999999999999, rounds to the double 0.01 and passes in the source, but the model rejects it. The upper bound `double.MaxValue` is not modelled either, because `decimal` is far below it. The model has no upper bound on the price.
- Products.ProductService.ResolveCategory: a new category's creation stamp is left at `default(DateTime)`, as the service leaves it. The database default `getdate()` on that column is not modelled.
- ProductRepository.ProductsByCategoryCode: compares codes exactly. The database collation, which SQL Server usually makes case-insensitive, is not modelled.
- ProductRepository.ProductsWithInclude: a product whose category is missing is paired with null. EF's `Include` on a required relation is an inner join and would drop the product. Under the foreign-key invariant that the service keeps, the two agree. The joined rows are taken in the product table's key order, the order `Repositories.Repository.All` gives, although the query has no `OrderBy`.
- Repositories.Repository.All: lists the rows in ascending key order. `GetAllAsync` is `ToListAsync()` with no `OrderBy`, and SQL promises no order; key order is what a scan of the clustered primary key gives in practice. Four results depend on this assumption. `GetAllProductsAsync` returns the products in id order. `GetProductsByCategoryNameAsync` returns its matches in increasing id order. `GetCategoryByNameAsync` picks the first category in key order when several codes match ignoring case. The metrics break ties among equally large categories by first appearance in key order. `GetProductsWithInclude` is its own `Include(...).ToListAsync()` query, a join with no `OrderBy`, whose plan could return rows in another order, such as category order; the model takes it as the product table's listing in the same key order, each product joined to its category (see `ProductRepository.ProductsWithInclude`).
- Repositories.Repository.Update: an entity whose key is not stored changes nothing and reports failure. EF would instead insert an entity with key 0 and throw a concurrency error for any other missing key. The service only updates a product it has just found, so it never reaches that case.
- Products.ProductService.UpdateProduct: the product is updated as a value copied out of the table and written back. The EF change tracker, where `existingProduct` is the same object as the tracked row, is not modelled.
- Products.ProductService.CreateProduct: requires only that name, category and brand are not null, which is all the service relies on. The controller checks the full `IsValid` before calling it (SportShopApi/Controllers/ProductoController.cs:73-76), and likewise before `UpdateProduct` (lines 97-100).
- Unknown category: the unit test at SportShopApiTest/UnitTest1.cs:31-45 expects create with an unknown category to throw. The service code creates the category instead, and the model follows the code.
- `IRepository.AddAsync`: the interface declares it as returning a plain `Task`. The model follows `Repository.AddAsync`, which returns the saved entity, and the service uses that entity.
- Category description: `DescripcionCategoria` is declared as `byte[]`, but the service assigns it the category name. The model keeps the description as a string.
- Unused helper: the private `ProductService.GetProductsByCategoryAsync` (lines 213-216) is never called and is not modelled.
- Key width: keys are `long` in the source and unbounded integers here, so identity exhaustion at `long.MaxValue` is not modelled.
- Wiring and schema: the `DbContext` configuration, the database's delete behaviour and column lengths, the HTTP controllers and `Program.cs` are not part of this model.
