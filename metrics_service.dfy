/**
 * `MetricsService.GetProductMetricsAsync`: totals over the product table, the
 * two categories with the most products, and their codes.
 */
module Metrics {
  import opened Common
  import opened Entities
  import opened Repositories

  // ---------------------------------------------------------------- totals

  /** The mathematical sum of the stocks. */
  function StockSum(products: seq<Product>): int
  {
    if products == [] then 0
    else StockSum(products[..|products| - 1]) + products[|products| - 1].stock as int
  }

  /** `Sum(p => p.Stock)`: LINQ adds `int`s left to right in checked arithmetic,
      so the sum throws (`None`) as soon as a running total leaves the range of `int`. */
  function CheckedStockSum(products: seq<Product>): Option<Int32>
  {
    if products == [] then Some(0)
    else
      match CheckedStockSum(products[..|products| - 1])
      case None => None
      case Some(total) =>
        var s := total as int + products[|products| - 1].stock as int;
        if INT32_MIN <= s <= INT32_MAX then Some(s as Int32) else None
  }

  /** When the checked sum succeeds it is the sum of the stocks. */
  lemma {:induction false} CheckedStockSumIsSum(products: seq<Product>)
    ensures CheckedStockSum(products).Some? ==> CheckedStockSum(products).value as int == StockSum(products)
  {
    if products != [] {
      CheckedStockSumIsSum(products[..|products| - 1]);
    }
  }

  /** With no negative stock the running totals only grow, so the checked sum
      fails exactly when the total stock exceeds `int.MaxValue`. */
  lemma {:induction false} CheckedStockSumFailsOnOverflow(products: seq<Product>)
    requires forall i :: 0 <= i < |products| ==> products[i].stock >= 0
    ensures StockSum(products) >= 0
    ensures CheckedStockSum(products).Some? <==> StockSum(products) <= INT32_MAX
  {
    if products != [] {
      var init := products[..|products| - 1];
      assert forall i :: 0 <= i < |init| ==> init[i] == products[i];
      CheckedStockSumFailsOnOverflow(init);
      CheckedStockSumIsSum(init);
    }
  }

  /** The sum of the prices. */
  function PriceSum(products: seq<Product>): real
  {
    if products == [] then 0.0
    else PriceSum(products[..|products| - 1]) + products[|products| - 1].price
  }

  /** `Any() ? Average(p => p.Price) : 0`. */
  function AveragePrice(products: seq<Product>): real
  {
    if |products| == 0 then 0.0 else PriceSum(products) / (|products| as real)
  }

  /** n prices in [lo, hi] add up to between n * lo and n * hi. */
  lemma {:induction false} PriceSumBounds(products: seq<Product>, lo: real, hi: real)
    requires forall i :: 0 <= i < |products| ==> lo <= products[i].price <= hi
    ensures (|products| as real) * lo <= PriceSum(products) <= (|products| as real) * hi
  {
    if products != [] {
      var init := products[..|products| - 1];
      assert forall i :: 0 <= i < |init| ==> init[i] == products[i];
      PriceSumBounds(init, lo, hi);
      assert (|products| as real) * lo == (|init| as real) * lo + lo;
      assert (|products| as real) * hi == (|init| as real) * hi + hi;
    }
  }

  lemma QuotientBounds(s: real, n: real, lo: real, hi: real)
    requires n > 0.0 && n * lo <= s <= n * hi
    ensures (s / n) * n == s
    ensures lo <= s / n <= hi
  {
  }

  /** The average price times the number of products is the price sum, and
      the average lies between the lowest and the highest price. */
  lemma AveragePriceIsMean(products: seq<Product>, lo: real, hi: real)
    requires |products| > 0
    requires forall i :: 0 <= i < |products| ==> lo <= products[i].price <= hi
    ensures AveragePrice(products) * (|products| as real) == PriceSum(products)
    ensures lo <= AveragePrice(products) <= hi
  {
    PriceSumBounds(products, lo, hi);
    QuotientBounds(PriceSum(products), |products| as real, lo, hi);
  }

  // ---------------------------------------------------------------- grouping

  /** One group of `GroupBy(p => p.IdCategoria)` with its `Count()`. */
  datatype CategoryCount = CategoryCount(categoryId: int, count: nat)

  /** The number of products in category `id`. */
  function CountIn(products: seq<Product>, id: int): nat
  {
    if products == [] then 0
    else CountIn(products[..|products| - 1], id) + (if products[|products| - 1].categoryId == id then 1 else 0)
  }

  predicate Occurs(products: seq<Product>, id: int)
  {
    exists i :: 0 <= i < |products| && products[i].categoryId == id
  }

  predicate HasGroup(groups: seq<CategoryCount>, id: int)
  {
    exists i :: 0 <= i < |groups| && groups[i].categoryId == id
  }

  predicate DistinctGroups(groups: seq<CategoryCount>)
  {
    forall i, j :: 0 <= i < j < |groups| ==> groups[i].categoryId != groups[j].categoryId
  }

  /** Counts one more product of category `id`: the group for `id` grows by
      one, or a new group of one is appended at the end. */
  function AddToGroups(groups: seq<CategoryCount>, id: int): seq<CategoryCount>
  {
    if groups == [] then [CategoryCount(id, 1)]
    else if groups[0].categoryId == id then [groups[0].(count := groups[0].count + 1)] + groups[1..]
    else [groups[0]] + AddToGroups(groups[1..], id)
  }

  /** `GroupBy(p => p.IdCategoria).Select(g => (g.Key, g.Count()))`: one pass
      over the products, as LINQ's lookup builds its groups. */
  function GroupByCategory(products: seq<Product>): seq<CategoryCount>
  {
    if products == [] then []
    else AddToGroups(GroupByCategory(products[..|products| - 1]), products[|products| - 1].categoryId)
  }

  lemma {:induction false} AddToGroupsSpec(groups: seq<CategoryCount>, id: int)
    requires DistinctGroups(groups)
    ensures var r := AddToGroups(groups, id);
      && |r| == (if HasGroup(groups, id) then |groups| else |groups| + 1)
      && (forall i :: 0 <= i < |groups| ==>
            r[i] == groups[i].(count := groups[i].count + if groups[i].categoryId == id then 1 else 0))
      && (!HasGroup(groups, id) ==> r[|groups|] == CategoryCount(id, 1))
  {
    if groups != [] && groups[0].categoryId != id {
      AddToGroupsSpec(groups[1..], id);
      assert HasGroup(groups, id) <==> HasGroup(groups[1..], id) by {
        if HasGroup(groups, id) {
          var i :| 0 <= i < |groups| && groups[i].categoryId == id;
          assert groups[1..][i - 1].categoryId == id;
        }
        if HasGroup(groups[1..], id) {
          var i :| 0 <= i < |groups[1..]| && groups[1..][i].categoryId == id;
          assert groups[i + 1].categoryId == id;
        }
      }
    }
  }

  /** A category occurs in the products exactly when some of them are counted for it. */
  lemma {:induction false} CountInPositive(products: seq<Product>, id: int)
    ensures CountIn(products, id) > 0 <==> Occurs(products, id)
  {
    if products != [] {
      var init := products[..|products| - 1];
      CountInPositive(init, id);
      OccursInit(products, id);
    }
  }

  /** A category occurs in a non-empty list when it occurs in all but the last
      product or is the last product's. */
  lemma OccursInit(products: seq<Product>, id: int)
    requires products != []
    ensures Occurs(products, id) <==>
      Occurs(products[..|products| - 1], id) || products[|products| - 1].categoryId == id
  {
    var init := products[..|products| - 1];
    if Occurs(products, id) && products[|products| - 1].categoryId != id {
      var i :| 0 <= i < |products| && products[i].categoryId == id;
      assert init[i].categoryId == id;
    }
    if Occurs(init, id) {
      var i :| 0 <= i < |init| && init[i].categoryId == id;
      assert products[i].categoryId == id;
    }
  }

  /** The groups have distinct category ids, one per category that occurs in
      the products, and each counts exactly the products of its category. */
  lemma {:induction false} GroupByCategorySpec(products: seq<Product>)
    ensures var gs := GroupByCategory(products);
      && DistinctGroups(gs)
      && (forall i :: 0 <= i < |gs| ==> gs[i].count == CountIn(products, gs[i].categoryId) && gs[i].count > 0)
      && (forall id :: HasGroup(gs, id) <==> Occurs(products, id))
  {
    if products != [] {
      var init := products[..|products| - 1];
      var last := products[|products| - 1].categoryId;
      var gs0 := GroupByCategory(init);
      var gs := GroupByCategory(products);
      GroupByCategorySpec(init);
      AddToGroupsSpec(gs0, last);
      assert DistinctGroups(gs) by {
        forall i, j | 0 <= i < j < |gs| ensures gs[i].categoryId != gs[j].categoryId {
          if j == |gs0| {
            assert gs0[i].categoryId != last;
          }
        }
      }
      forall id ensures HasGroup(gs, id) <==> Occurs(products, id) {
        OccursInit(products, id);
        if HasGroup(gs, id) {
          var i :| 0 <= i < |gs| && gs[i].categoryId == id;
          if i < |gs0| {
            assert gs0[i].categoryId == id;
          }
        }
        if HasGroup(gs0, id) {
          var i :| 0 <= i < |gs0| && gs0[i].categoryId == id;
          assert gs[i].categoryId == id;
        }
        if id == last && !HasGroup(gs0, id) {
          assert gs[|gs0|].categoryId == id;
        }
      }
      forall i | 0 <= i < |gs| ensures gs[i].count == CountIn(products, gs[i].categoryId) && gs[i].count > 0 {
        if i == |gs0| {
          CountInPositive(init, last);
        }
      }
    }
  }

  /** Groups come in order of first appearance: any prefix of the products
      that contains a product of a later group contains one of every earlier group. */
  lemma {:induction false} GroupByCategoryOrder(products: seq<Product>, i: int, j: int, n: int)
    requires 0 <= i < j < |GroupByCategory(products)| && 0 <= n <= |products|
    requires Occurs(products[..n], GroupByCategory(products)[j].categoryId)
    ensures Occurs(products[..n], GroupByCategory(products)[i].categoryId)
  {
    var gs := GroupByCategory(products);
    GroupByCategorySpec(products);
    var init := products[..|products| - 1];
    var last := products[|products| - 1].categoryId;
    var gs0 := GroupByCategory(init);
    GroupByCategorySpec(init);
    AddToGroupsSpec(gs0, last);
    if n == |products| {
      assert products[..n] == products;
      assert HasGroup(gs, gs[i].categoryId);
    } else {
      assert products[..n] == init[..n];
      var k :| 0 <= k < n && products[..n][k].categoryId == gs[j].categoryId;
      if j < |gs0| {
        GroupByCategoryOrder(init, i, j, n);
      }
    }
  }

  function SumCounts(groups: seq<CategoryCount>): nat
  {
    if groups == [] then 0 else groups[0].count + SumCounts(groups[1..])
  }

  /** Every product is counted in exactly one group. */
  lemma {:induction false} GroupCountsAddUp(products: seq<Product>)
    ensures SumCounts(GroupByCategory(products)) == |products|
  {
    if products != [] {
      GroupCountsAddUp(products[..|products| - 1]);
      AddToGroupsAddsOne(GroupByCategory(products[..|products| - 1]), products[|products| - 1].categoryId);
    }
  }

  lemma {:induction false} AddToGroupsAddsOne(groups: seq<CategoryCount>, id: int)
    ensures SumCounts(AddToGroups(groups, id)) == SumCounts(groups) + 1
  {
    if groups != [] && groups[0].categoryId != id {
      AddToGroupsAddsOne(groups[1..], id);
    }
  }

  // ---------------------------------------------------------------- ordering

  predicate NonIncreasing(groups: seq<CategoryCount>)
  {
    forall i, j :: 0 <= i < j < |groups| ==> groups[i].count >= groups[j].count
  }

  /** Inserts `g` into a list sorted by decreasing count, ahead of every group
      whose count is not larger. */
  function InsertByCount(g: CategoryCount, sorted: seq<CategoryCount>): seq<CategoryCount>
  {
    if sorted == [] || sorted[0].count <= g.count then [g] + sorted
    else [sorted[0]] + InsertByCount(g, sorted[1..])
  }

  /** `OrderByDescending(g => g.Count)`: a stable sort by decreasing count. */
  function OrderByCountDescending(groups: seq<CategoryCount>): seq<CategoryCount>
  {
    if groups == [] then [] else InsertByCount(groups[0], OrderByCountDescending(groups[1..]))
  }

  lemma {:induction false} InsertByCountAddsOne(g: CategoryCount, sorted: seq<CategoryCount>)
    ensures multiset(InsertByCount(g, sorted)) == multiset(sorted) + multiset{g}
  {
    if sorted != [] && sorted[0].count > g.count {
      InsertByCountAddsOne(g, sorted[1..]);
      assert sorted == [sorted[0]] + sorted[1..];
    }
  }

  lemma {:induction false} InsertByCountKeepsOrder(g: CategoryCount, sorted: seq<CategoryCount>)
    requires NonIncreasing(sorted)
    ensures NonIncreasing(InsertByCount(g, sorted))
  {
    if sorted != [] && sorted[0].count > g.count {
      InsertByCountKeepsOrder(g, sorted[1..]);
      InsertByCountAddsOne(g, sorted[1..]);
      var rest := InsertByCount(g, sorted[1..]);
      forall k | 0 <= k < |rest| ensures sorted[0].count >= rest[k].count {
        assert rest[k] in multiset(rest);
        if rest[k] != g {
          assert rest[k] in multiset(sorted[1..]);
          assert rest[k] in sorted[1..];
        }
      }
    }
  }

  /** The sort orders by decreasing count and loses or adds no group. */
  lemma {:induction false} OrderByCountDescendingSorts(groups: seq<CategoryCount>)
    ensures NonIncreasing(OrderByCountDescending(groups))
    ensures multiset(OrderByCountDescending(groups)) == multiset(groups)
  {
    if groups != [] {
      OrderByCountDescendingSorts(groups[1..]);
      InsertByCountKeepsOrder(groups[0], OrderByCountDescending(groups[1..]));
      InsertByCountAddsOne(groups[0], OrderByCountDescending(groups[1..]));
      assert groups == [groups[0]] + groups[1..];
    }
  }

  /** The groups with count `c`, in their order. */
  function WithCount(groups: seq<CategoryCount>, c: nat): seq<CategoryCount>
  {
    if groups == [] then []
    else (if groups[0].count == c then [groups[0]] else []) + WithCount(groups[1..], c)
  }

  lemma {:induction false} WithCountAppend(a: seq<CategoryCount>, b: seq<CategoryCount>, c: nat)
    ensures WithCount(a + b, c) == WithCount(a, c) + WithCount(b, c)
  {
    if a == [] {
      assert a + b == b;
    } else {
      WithCountAppend(a[1..], b, c);
      var head := if a[0].count == c then [a[0]] else [];
      calc {
        WithCount(a + b, c);
        { assert (a + b)[0] == a[0]; assert (a + b)[1..] == a[1..] + b; }
        head + WithCount(a[1..] + b, c);
        head + (WithCount(a[1..], c) + WithCount(b, c));
        (head + WithCount(a[1..], c)) + WithCount(b, c);
      }
    }
  }

  lemma {:induction false} InsertByCountStable(g: CategoryCount, sorted: seq<CategoryCount>, c: nat)
    ensures WithCount(InsertByCount(g, sorted), c) == (if g.count == c then [g] else []) + WithCount(sorted, c)
  {
    if sorted != [] && sorted[0].count > g.count {
      InsertByCountStable(g, sorted[1..], c);
    }
  }

  /** The sort is stable: the groups of any one count keep their relative order. */
  lemma {:induction false} OrderByCountDescendingStable(groups: seq<CategoryCount>, c: nat)
    ensures WithCount(OrderByCountDescending(groups), c) == WithCount(groups, c)
  {
    if groups != [] {
      OrderByCountDescendingStable(groups[1..], c);
      InsertByCountStable(groups[0], OrderByCountDescending(groups[1..]), c);
    }
  }

  function Min(a: int, b: int): int { if a < b then a else b }

  /** `.OrderByDescending(g => g.Count).Take(2)`. */
  function TopTwo(groups: seq<CategoryCount>): seq<CategoryCount>
  {
    var sorted := OrderByCountDescending(groups);
    sorted[..Min(2, |sorted|)]
  }

  /** A sort keeps the length of the list. */
  lemma OrderByCountDescendingLength(groups: seq<CategoryCount>)
    ensures |OrderByCountDescending(groups)| == |groups|
  {
    OrderByCountDescendingSorts(groups);
    assert |multiset(OrderByCountDescending(groups))| == |multiset(groups)|;
  }

  /** At most two groups are selected, in non-increasing order of count, and
      they are groups of the input. */
  lemma TopTwoIsSortedSelection(groups: seq<CategoryCount>)
    ensures |TopTwo(groups)| == Min(2, |groups|)
    ensures NonIncreasing(TopTwo(groups))
    ensures forall t :: t in TopTwo(groups) ==> t in groups
  {
    var sorted := OrderByCountDescending(groups);
    OrderByCountDescendingSorts(groups);
    OrderByCountDescendingLength(groups);
    forall t | t in TopTwo(groups) ensures t in groups {
      assert t in multiset(sorted);
    }
  }

  /** No unselected group has a larger count than a selected one. */
  lemma TopTwoSelectsLargest(groups: seq<CategoryCount>, g: CategoryCount, t: CategoryCount)
    requires g in groups && g !in TopTwo(groups) && t in TopTwo(groups)
    ensures g.count <= t.count
  {
    var sorted := OrderByCountDescending(groups);
    var top := TopTwo(groups);
    OrderByCountDescendingSorts(groups);
    assert g in multiset(sorted);
    var k :| 0 <= k < |sorted| && sorted[k] == g;
    var m :| 0 <= m < |top| && top[m] == t;
    assert sorted[m] == t;
  }

  /** Among groups of equal count the selected ones are the first groups of
      that count in the input. */
  lemma TopTwoKeepsTieOrder(groups: seq<CategoryCount>, c: nat)
    ensures WithCount(TopTwo(groups), c) <= WithCount(groups, c)
  {
    var sorted := OrderByCountDescending(groups);
    var top := TopTwo(groups);
    OrderByCountDescendingStable(groups, c);
    assert sorted == top + sorted[|top|..];
    WithCountAppend(top, sorted[|top|..], c);
  }

  // ---------------------------------------------------------------- join

  /** The codes of the categories with id `id`, in table order. */
  function CodesFor(id: int, categories: seq<Category>): seq<string>
  {
    if categories == [] then []
    else (if categories[0].id == id then [categories[0].code] else []) + CodesFor(id, categories[1..])
  }

  /** `Join(categories, cc => cc.CategoryId, c => c.IdCategoria, (cc, c) => c.CodigoCategoria)`:
      for each selected group in order, the code of every category with its id. */
  function JoinCodes(top: seq<CategoryCount>, categories: seq<Category>): seq<string>
  {
    if top == [] then [] else CodesFor(top[0].categoryId, categories) + JoinCodes(top[1..], categories)
  }

  predicate DistinctIds(categories: seq<Category>)
  {
    forall i, j :: 0 <= i < j < |categories| ==> categories[i].id != categories[j].id
  }

  /** With distinct ids a group joins with the one category of its id, or with none. */
  lemma {:induction false} CodesForUnique(id: int, categories: seq<Category>)
    requires DistinctIds(categories)
    ensures |CodesFor(id, categories)| <= 1
    ensures forall i :: 0 <= i < |categories| && categories[i].id == id ==> CodesFor(id, categories) == [categories[i].code]
  {
    if categories != [] {
      CodesForUnique(id, categories[1..]);
      if categories[0].id == id {
        assert forall i :: 1 <= i < |categories| ==> categories[i].id != id;
        CodesForAbsent(id, categories[1..]);
      }
      forall i | 1 <= i < |categories| && categories[i].id == id
        ensures CodesFor(id, categories) == [categories[i].code]
      {
        assert categories[1..][i - 1].id == id;
      }
    }
  }

  lemma {:induction false} CodesForAbsent(id: int, categories: seq<Category>)
    requires forall i :: 0 <= i < |categories| ==> categories[i].id != id
    ensures CodesFor(id, categories) == []
  {
    if categories != [] {
      CodesForAbsent(id, categories[1..]);
    }
  }

  /** With distinct category ids the join yields at most one code per group, and
      when every group's category exists, exactly the code of each group's
      category, in the groups' order. */
  lemma {:induction false} JoinCodesSpec(top: seq<CategoryCount>, categories: seq<Category>)
    requires DistinctIds(categories)
    ensures |JoinCodes(top, categories)| <= |top|
    ensures (forall i :: 0 <= i < |top| ==> exists j :: 0 <= j < |categories| && categories[j].id == top[i].categoryId) ==>
      && |JoinCodes(top, categories)| == |top|
      && forall i :: 0 <= i < |top| ==>
           exists j :: 0 <= j < |categories| && categories[j].id == top[i].categoryId && JoinCodes(top, categories)[i] == categories[j].code
  {
    if top != [] {
      JoinCodesSpec(top[1..], categories);
      CodesForUnique(top[0].categoryId, categories);
      if forall i :: 0 <= i < |top| ==> exists j :: 0 <= j < |categories| && categories[j].id == top[i].categoryId {
        var j0 :| 0 <= j0 < |categories| && categories[j0].id == top[0].categoryId;
        var rest := JoinCodes(top[1..], categories);
        assert forall i :: 0 <= i < |top[1..]| ==> top[1..][i] == top[i + 1];
        forall i | 0 <= i < |top|
          ensures exists j :: 0 <= j < |categories| && categories[j].id == top[i].categoryId && JoinCodes(top, categories)[i] == categories[j].code
        {
          if i == 0 {
            assert JoinCodes(top, categories)[0] == categories[j0].code;
          } else {
            var j :| 0 <= j < |categories| && categories[j].id == top[1..][i - 1].categoryId
              && rest[i - 1] == categories[j].code;
            assert JoinCodes(top, categories)[i] == rest[i - 1];
          }
        }
      }
    }
  }

  // ---------------------------------------------------------------- result

  datatype ProductMetricsReport = ProductMetricsReport(
    totalProducts: nat,          // total_products
    topCategories: seq<string>,  // top_categories
    totalStock: Int32,           // total_stock
    averagePrice: real)          // average_price

  /** The anonymous result object, or the error object the catch block returns. */
  datatype MetricsResult = Ok(metrics: ProductMetricsReport) | Error(error: string)

  const MetricsError := "Error getting metrics."

  /** `GetProductMetricsAsync` over the product and category lists. */
  function ProductMetrics(products: seq<Product>, categories: seq<Category>): (r: MetricsResult)
    ensures r.Error? <==> CheckedStockSum(products).None?
    ensures r.Error? ==> r.error == MetricsError
    ensures r.Ok? ==>
      && r.metrics.totalProducts == |products|
      && r.metrics.totalStock as int == StockSum(products)
      && (|products| == 0 ==> r.metrics.averagePrice == 0.0)
      && (|products| > 0 ==> r.metrics.averagePrice * (|products| as real) == PriceSum(products))
      && r.metrics.topCategories == JoinCodes(TopTwo(GroupByCategory(products)), categories)
  {
    CheckedStockSumIsSum(products);
    match CheckedStockSum(products)
    case None => Error(MetricsError)
    case Some(totalStock) =>
      var average := AveragePrice(products);
      assert |products| > 0 ==> average * (|products| as real) == PriceSum(products);
      Ok(ProductMetricsReport(|products|, JoinCodes(TopTwo(GroupByCategory(products)), categories), totalStock, average))
  }

  /** With distinct category ids, `top_categories` has at most two entries. */
  lemma TopCategoriesAtMostTwo(products: seq<Product>, categories: seq<Category>)
    requires DistinctIds(categories)
    ensures ProductMetrics(products, categories).Ok? ==> |ProductMetrics(products, categories).metrics.topCategories| <= 2
  {
    TopTwoIsSortedSelection(GroupByCategory(products));
    JoinCodesSpec(TopTwo(GroupByCategory(products)), categories);
  }

  /** When every product's category exists and category ids are distinct,
      `top_categories` holds exactly one code per selected group: the code of
      that group's category, in the selected order, and there are
      min(2, number of categories in use) of them. */
  lemma TopCategoriesUnderForeignKeys(products: seq<Product>, categories: seq<Category>)
    requires DistinctIds(categories)
    requires forall i :: 0 <= i < |products| ==>
      exists j :: 0 <= j < |categories| && categories[j].id == products[i].categoryId
    ensures var r := ProductMetrics(products, categories);
      var top := TopTwo(GroupByCategory(products));
      r.Ok? ==>
        && |r.metrics.topCategories| == |top| == Min(2, |GroupByCategory(products)|)
        && forall i :: 0 <= i < |top| ==>
             exists j :: 0 <= j < |categories| && categories[j].id == top[i].categoryId && r.metrics.topCategories[i] == categories[j].code
  {
    var groups := GroupByCategory(products);
    var top := TopTwo(groups);
    TopTwoIsSortedSelection(groups);
    GroupByCategorySpec(products);
    forall i | 0 <= i < |top|
      ensures exists j :: 0 <= j < |categories| && categories[j].id == top[i].categoryId
    {
      assert top[i] in groups;
      var g :| 0 <= g < |groups| && groups[g] == top[i];
      assert HasGroup(groups, top[i].categoryId);
      var k :| 0 <= k < |products| && products[k].categoryId == top[i].categoryId;
    }
    JoinCodesSpec(top, categories);
  }

  /** `GetProductMetricsAsync()` reading both tables through `GetAllAsync`. */
  method GetProductMetrics(products: Repository<Product>, categories: Repository<Category>) returns (r: MetricsResult)
    requires products.Valid() && categories.Valid()
    requires categories.keyOf == CategoryKey
    ensures r == ProductMetrics(products.All(), categories.All())
    ensures r.Ok? ==> |r.metrics.topCategories| <= 2
  {
    var allProducts := products.All();
    var allCategories := categories.All();
    r := ProductMetrics(allProducts, allCategories);
    TopCategoriesAtMostTwo(allProducts, allCategories);
  }
}
