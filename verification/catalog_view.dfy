/** `filterAndSortProducts`, `updateProductCount` and `loadMoreProducts`: the
    products page's view over the fixed catalog. The view is the list of
    products currently rendered (`currentProducts`) and whether the "Load More"
    button is displayed. */
module CatalogView {
  import opened Wrappers
  import opened Text
  import opened Seqs
  import opened Catalog

  /** `productsToShow`: the page size after a filter, search or sort. */
  const PageSize: nat := 6
  /** `productsPerLoad`: how many products one "Load More" appends. */
  const PerLoad: nat := 3

  // ---------------------------------------------------------------------------
  // Filtering

  /** The category step: `'all'` keeps everything, any other value keeps the
      products whose category equals it. */
  function ByCategory(products: seq<Product>, filter: string): (r: seq<Product>)
    ensures filter == "all" ==> r == products
    ensures filter != "all" ==> forall p :: p in r <==> p in products && p.category == filter
    ensures IsSubsequence(r, products)
  {
    if filter == "all" then
      SubsequenceReflexive(products);
      products
    else
      FilterIsSubsequence(products, (p: Product) => p.category == filter);
      Filter(products, (p: Product) => p.category == filter)
  }

  /** The category step keeps every product it keeps as often as the input
      holds it, and drops the others entirely. */
  lemma ByCategoryCounts(products: seq<Product>, filter: string)
    ensures forall p :: multiset(ByCategory(products, filter))[p] ==
                        (if filter == "all" || p.category == filter then multiset(products)[p] else 0)
  {
    if filter != "all" {
      FilterCounts(products, (p: Product) => p.category == filter);
    }
  }

  /** The term a non-blank search looks for: `search.toLowerCase().trim()`. */
  function SearchTerm(search: string): string {
    Trim(Lower(search))
  }

  /** Title, description or category key, lower-cased, contains the term. */
  predicate Matches(p: Product, term: string) {
    Contains(Lower(p.title), term) || Contains(Lower(p.description), term) || Contains(Lower(p.category), term)
  }

  /** The search step: a blank search keeps everything; otherwise the products
      matching the lower-cased, trimmed term, which is then never empty. */
  function BySearch(products: seq<Product>, search: string): (r: seq<Product>)
    ensures IsBlank(search) ==> r == products
    ensures !IsBlank(search) ==> |SearchTerm(search)| > 0
    ensures !IsBlank(search) ==> forall p :: p in r <==> p in products && Matches(p, SearchTerm(search))
    ensures IsSubsequence(r, products)
  {
    TrimSpec(search);
    if |Trim(search)| == 0 then
      SubsequenceReflexive(products);
      products
    else
      var term := SearchTerm(search);
      LowerKeepsBlank(search);
      FilterIsSubsequence(products, (p: Product) => Matches(p, term));
      Filter(products, (p: Product) => Matches(p, term))
  }

  lemma LowerKeepsBlank(s: string)
    ensures |SearchTerm(s)| == 0 <==> IsBlank(s)
  {
    LowerSpec(s);
    TrimSpec(Lower(s));
    TrimSpec(s);
  }

  /** The search step keeps every product it keeps as often as the input
      holds it, and drops the others entirely. */
  lemma BySearchCounts(products: seq<Product>, search: string)
    ensures forall p :: multiset(BySearch(products, search))[p] ==
                        (if IsBlank(search) || Matches(p, SearchTerm(search)) then multiset(products)[p] else 0)
  {
    TrimSpec(search);
    if !IsBlank(search) {
      var term := SearchTerm(search);
      FilterCounts(products, (p: Product) => Matches(p, term));
    }
  }

  // ---------------------------------------------------------------------------
  // Sorting

  /** Ids never increase along the sequence. */
  predicate DescendingById(ps: seq<Product>) {
    forall i, j :: 0 <= i < j < |ps| ==> ps[i].id >= ps[j].id
  }

  /** Ids strictly decrease along the sequence. */
  predicate StrictlyDescendingById(ps: seq<Product>) {
    forall i, j :: 0 <= i < j < |ps| ==> ps[i].id > ps[j].id
  }

  /** No two positions hold products with the same id. */
  predicate DistinctIds(ps: seq<Product>) {
    forall i, j :: 0 <= i < j < |ps| ==> ps[i].id != ps[j].id
  }

  /** Places `p` in front of the first product whose id is not larger. */
  function InsertById(p: Product, ps: seq<Product>): (r: seq<Product>)
    requires DescendingById(ps)
    ensures DescendingById(r)
    ensures multiset(r) == multiset(ps) + multiset{p}
    ensures forall x :: x in r ==> x == p || x in ps
  {
    if |ps| == 0 || p.id >= ps[0].id then
      ConsDescending(p, ps);
      [p] + ps
    else
      var rest := InsertById(p, ps[1..]);
      TailBelowHead(ps);
      ConsDescending(ps[0], rest);
      MultisetCons(ps);
      [ps[0]] + rest
  }

  lemma ConsDescending(h: Product, t: seq<Product>)
    requires DescendingById(t) && forall x :: x in t ==> x.id <= h.id
    ensures DescendingById([h] + t)
  {
    var r := [h] + t;
    forall i, j | 0 <= i < j < |r| ensures r[i].id >= r[j].id {
      assert r[j] == t[j - 1];
      if i > 0 {
        assert r[i] == t[i - 1];
      } else {
        assert t[j - 1] in t;
      }
    }
  }

  lemma TailBelowHead(ps: seq<Product>)
    requires |ps| > 0 && DescendingById(ps)
    ensures forall x :: x in ps[1..] ==> x.id <= ps[0].id && x in ps
  {
    forall x | x in ps[1..] ensures x.id <= ps[0].id && x in ps {
      var k :| 0 <= k < |ps[1..]| && ps[1..][k] == x;
      assert ps[k + 1] == x;
    }
  }

  lemma MultisetCons(ps: seq<Product>)
    requires |ps| > 0
    ensures multiset(ps) == multiset{ps[0]} + multiset(ps[1..])
  {
    assert ps == [ps[0]] + ps[1..];
  }

  /** `array.sort((a, b) => b.id - a.id)`: the products by descending id. */
  function SortByIdDesc(ps: seq<Product>): (r: seq<Product>)
    ensures DescendingById(r)
    ensures multiset(r) == multiset(ps)
  {
    if |ps| == 0 then []
    else
      assert ps == [ps[0]] + ps[1..];
      InsertById(ps[0], SortByIdDesc(ps[1..]))
  }

  /** The `switch (sort)`: `'newest'` and `'popular'` sort by descending id;
      `'price'`, `'featured'` and every other value keep the order. */
  function ApplySort(ps: seq<Product>, sort: string): (r: seq<Product>)
    ensures sort == "newest" || sort == "popular" ==> DescendingById(r) && multiset(r) == multiset(ps)
    ensures sort != "newest" && sort != "popular" ==> r == ps
  {
    if sort == "newest" then SortByIdDesc(ps)
    else if sort == "price" then ps
    else if sort == "popular" then SortByIdDesc(ps)
    else ps
  }

  /** `'popular'` has no popularity data of its own: it is `'newest'`. */
  lemma PopularIsNewest(ps: seq<Product>)
    ensures ApplySort(ps, "popular") == ApplySort(ps, "newest")
  {
  }

  lemma DistinctDescendingIsStrict(ps: seq<Product>)
    requires DistinctIds(ps) && DescendingById(ps)
    ensures StrictlyDescendingById(ps)
  {
  }

  lemma HeadsEqual(a: seq<Product>, b: seq<Product>)
    requires |a| > 0 && |b| > 0
    requires StrictlyDescendingById(a) && StrictlyDescendingById(b)
    requires multiset(a) == multiset(b)
    ensures a[0] == b[0]
  {
    assert a[0] in multiset(b);
    assert b[0] in multiset(a);
    var k :| 0 <= k < |b| && b[k] == a[0];
    var m :| 0 <= m < |a| && a[m] == b[0];
  }

  /** Two arrangements of the same products with strictly decreasing ids are
      the same sequence: with distinct ids, sorting by id leaves no choice. */
  lemma {:induction false} StrictArrangementUnique(a: seq<Product>, b: seq<Product>)
    requires StrictlyDescendingById(a) && StrictlyDescendingById(b)
    requires multiset(a) == multiset(b)
    ensures a == b
    decreases |a|
  {
    assert |a| == |multiset(a)| == |multiset(b)| == |b|;
    if |a| > 0 {
      HeadsEqual(a, b);
      assert multiset(a) == multiset{a[0]} + multiset(a[1..]) by {
        assert a == [a[0]] + a[1..];
      }
      assert multiset(b) == multiset{b[0]} + multiset(b[1..]) by {
        assert b == [b[0]] + b[1..];
      }
      assert multiset(a[1..]) == multiset(a) - multiset{a[0]};
      assert multiset(b[1..]) == multiset(b) - multiset{b[0]};
      StrictArrangementUnique(a[1..], b[1..]);
    }
  }

  /** With distinct ids a product occurs at most once. */
  lemma {:induction false} DistinctMultiplicity(ps: seq<Product>, x: Product)
    requires DistinctIds(ps)
    ensures multiset(ps)[x] <= 1
    decreases |ps|
  {
    if |ps| > 0 {
      assert ps == [ps[0]] + ps[1..];
      DistinctMultiplicity(ps[1..], x);
      if x == ps[0] {
        assert x !in ps[1..];
      }
    }
  }

  /** A product at two positions occurs at least twice. */
  lemma TwoPositions(r: seq<Product>, i: int, j: int)
    requires 0 <= i < j < |r| && r[i] == r[j]
    ensures multiset(r)[r[i]] >= 2
  {
    assert r == r[..j] + [r[j]] + r[j + 1..];
    assert r[i] in r[..j];
  }

  /** Sorting by id keeps ids distinct. */
  lemma SortKeepsDistinct(ps: seq<Product>, r: seq<Product>)
    requires DistinctIds(ps) && multiset(r) == multiset(ps)
    ensures DistinctIds(r)
  {
    forall i, j | 0 <= i < j < |r| ensures r[i].id != r[j].id {
      if r[i] == r[j] {
        TwoPositions(r, i, j);
        DistinctMultiplicity(ps, r[i]);
      } else {
        assert r[i] in multiset(ps) && r[j] in multiset(ps);
        var a :| 0 <= a < |ps| && ps[a] == r[i];
        var b :| 0 <= b < |ps| && ps[b] == r[j];
        assert a != b;
      }
    }
  }

  /** For products with distinct ids, `'newest'` yields the one arrangement by
      strictly decreasing id, whatever sorting algorithm produced it. */
  lemma NewestIsUniqueArrangement(ps: seq<Product>, other: seq<Product>)
    requires DistinctIds(ps)
    requires StrictlyDescendingById(other) && multiset(other) == multiset(ps)
    ensures ApplySort(ps, "newest") == other
  {
    var r := ApplySort(ps, "newest");
    SortKeepsDistinct(ps, r);
    DistinctDescendingIsStrict(r);
    StrictArrangementUnique(r, other);
  }

  // ---------------------------------------------------------------------------
  // The whole pipeline and the view

  /** The filtered and sorted list `filterAndSortProducts` computes before paging. */
  function FilterAndSort(filter: string, search: string, sort: string): (r: seq<Product>)
    ensures multiset(r) == multiset(BySearch(ByCategory(AllProducts, filter), search))
  {
    ApplySort(BySearch(ByCategory(AllProducts, filter), search), sort)
  }

  /** What the page shows: `currentProducts` and the display of the "Load More" button. */
  datatype View = View(current: seq<Product>, loadMoreShown: bool)

  /** `updateProductCount`'s button rule: shown while fewer than all catalog products are rendered. */
  function UpdateProductCount(current: seq<Product>): bool
  {
    !(|current| >= |AllProducts|)
  }

  /** `initProducts`: the first six catalog products, button per `updateProductCount`. */
  function InitProducts(): (v: View)
    ensures v.current == AllProducts[..PageSize]
    ensures v.loadMoreShown
  {
    var current := Slice(AllProducts, 0, PageSize);
    assert current == AllProducts[..PageSize];
    View(current, UpdateProductCount(current))
  }

  /** The first page of a result list, with the button displayed exactly
      while results remain unshown. */
  function FirstPage(results: seq<Product>): (v: View)
    ensures |v.current| == Min(PageSize, |results|)
    ensures v.current == results[..|v.current|]
    ensures !v.loadMoreShown <==> |v.current| >= |results|
  {
    var current := Slice(results, 0, PageSize);
    assert current == results[..|current|];
    View(current, !(|current| >= |results|))
  }

  /** `filterAndSortProducts(filter, search, sort)`: the first six results are
      shown, and the button is hidden exactly when they are all the results
      (this overrides the rule `updateProductCount` applied just before). */
  function FilterAndSortProducts(filter: string, search: string, sort: string): (v: View)
    ensures var results := FilterAndSort(filter, search, sort);
      && |v.current| == Min(PageSize, |results|)
      && v.current == results[..|v.current|]
      && (!v.loadMoreShown <==> |v.current| >= |results|)
  {
    FirstPage(FilterAndSort(filter, search, sort))
  }

  /** `loadMoreProducts` once its delay has elapsed: with `n` products shown it
      appends `allProducts.slice(n, min(n + 3, 15))` — catalog positions, not
      further results of the active filter — then applies `updateProductCount`. */
  function LoadMoreProducts(v: View): (w: View)
    ensures |v.current| <= |AllProducts| ==> |w.current| == Min(|v.current| + PerLoad, |AllProducts|)
    ensures |w.current| >= |v.current| && w.current[..|v.current|] == v.current
    ensures w.current[|v.current|..] == Slice(AllProducts, |v.current|, |w.current|)
    ensures |v.current| >= |AllProducts| ==> w.current == v.current
    ensures !w.loadMoreShown <==> |w.current| >= |AllProducts|
  {
    var next := |v.current|;
    var end := Min(next + PerLoad, |AllProducts|);
    var added := Slice(AllProducts, next, end);
    var current := v.current + added;
    assert current[..next] == v.current && current[next..] == added;
    View(current, UpdateProductCount(current))
  }

  // ---------------------------------------------------------------------------
  // Properties of the pipeline

  /** A product is a result exactly when it is in the catalog, passes the
      category filter and, for a non-blank search, matches the term. */
  lemma FilterAndSortMembers(filter: string, search: string, sort: string, p: Product)
    ensures p in FilterAndSort(filter, search, sort) <==>
      && p in AllProducts
      && (filter == "all" || p.category == filter)
      && (IsBlank(search) || Matches(p, SearchTerm(search)))
  {
    var r := FilterAndSort(filter, search, sort);
    assert p in r <==> p in multiset(r);
  }

  /** A filter value that is neither `'all'` nor a catalog category selects nothing. */
  lemma UnknownFilterIsEmpty(filter: string, search: string, sort: string)
    requires filter != "all" && !IsKnownCategory(filter)
    ensures FilterAndSort(filter, search, sort) == []
  {
    CatalogShape();
    var r := FilterAndSort(filter, search, sort);
    if |r| > 0 {
      FilterAndSortMembers(filter, search, sort, r[0]);
    }
  }

  /** Without a sort by id the results keep catalog order. */
  lemma ResultsKeepCatalogOrder(filter: string, search: string, sort: string)
    requires sort != "newest" && sort != "popular"
    ensures IsSubsequence(FilterAndSort(filter, search, sort), AllProducts)
  {
    var c := ByCategory(AllProducts, filter);
    SubsequenceTransitive(BySearch(c, search), c, AllProducts);
  }

  lemma {:induction false} FilterKeepsDistinct(ps: seq<Product>, keep: Product -> bool)
    requires DistinctIds(ps)
    ensures DistinctIds(Filter(ps, keep))
    decreases |ps|
  {
    if |ps| > 0 {
      FilterKeepsDistinct(ps[1..], keep);
      var rest := Filter(ps[1..], keep);
      if keep(ps[0]) {
        var r := [ps[0]] + rest;
        forall i, j | 0 <= i < j < |r| ensures r[i].id != r[j].id {
          if i == 0 {
            assert r[j] in ps[1..];
          }
        }
      }
    }
  }

  lemma CatalogIdsDistinct()
    ensures DistinctIds(AllProducts)
  {
    CatalogShape();
  }

  lemma ByCategoryKeepsDistinct(ps: seq<Product>, filter: string)
    requires DistinctIds(ps)
    ensures DistinctIds(ByCategory(ps, filter))
  {
    if filter != "all" {
      FilterKeepsDistinct(ps, (p: Product) => p.category == filter);
    }
  }

  lemma BySearchKeepsDistinct(ps: seq<Product>, search: string)
    requires DistinctIds(ps)
    ensures DistinctIds(BySearch(ps, search))
  {
    TrimSpec(search);
    if |Trim(search)| != 0 {
      FilterKeepsDistinct(ps, (p: Product) => Matches(p, SearchTerm(search)));
    }
  }

  /** `'newest'` results have strictly decreasing ids, so they are the unique
      such arrangement of the filtered products. */
  lemma NewestResultsStrictlyDescending(filter: string, search: string)
    ensures StrictlyDescendingById(FilterAndSort(filter, search, "newest"))
  {
    CatalogIdsDistinct();
    var c := ByCategory(AllProducts, filter);
    ByCategoryKeepsDistinct(AllProducts, filter);
    var s := BySearch(c, search);
    BySearchKeepsDistinct(c, search);
    var r := FilterAndSort(filter, search, "newest");
    SortKeepsDistinct(s, r);
    DistinctDescendingIsStrict(r);
  }

  /** Products numbered 1, 2, 3, ... in order, sorted `'newest'`, come out reversed. */
  lemma NewestOfNumberedIsReversed(ps: seq<Product>)
    requires forall i :: 0 <= i < |ps| ==> ps[i].id == i + 1
    ensures ApplySort(ps, "newest") == Reverse(ps)
  {
    var r := Reverse(ps);
    assert StrictlyDescendingById(r);
    assert DistinctIds(ps);
    ReverseMultiset(ps);
    NewestIsUniqueArrangement(ps, r);
  }

  /** The whole catalog sorted `'newest'` is the catalog reversed: ids 15 down to 1. */
  lemma NewestCatalogIsReversed()
    ensures FilterAndSort("all", "", "newest") == Reverse(AllProducts)
  {
    CatalogShape();
    assert IsBlank("");
    NewestOfNumberedIsReversed(AllProducts);
  }

  /** With the default controls the view is the catalog in page order. */
  lemma FeaturedCatalogIsCatalog()
    ensures FilterAndSort("all", "", "featured") == AllProducts
  {
    assert IsBlank("");
  }

  lemma FilterSkip(ps: seq<Product>, k: nat, keep: Product -> bool)
    requires k < |ps| && !keep(ps[k])
    ensures Filter(ps[k..], keep) == Filter(ps[k + 1..], keep)
  {
    assert ps[k..][1..] == ps[k + 1..];
  }

  lemma FilterKeep(ps: seq<Product>, k: nat, keep: Product -> bool)
    requires k < |ps| && keep(ps[k])
    ensures Filter(ps[k..], keep) == [ps[k]] + Filter(ps[k + 1..], keep)
  {
    assert ps[k..][1..] == ps[k + 1..];
  }

  lemma SecurityPositions()
    ensures |AllProducts| == 15
    ensures forall i :: 0 <= i < 15 ==> (AllProducts[i].category == "security" <==> i == 1 || i == 5 || i == 10)
  {
  }

  /** A run of rejected products contributes nothing to a filter. */
  lemma {:induction false} FilterSkipRun(ps: seq<Product>, lo: nat, hi: nat, keep: Product -> bool)
    requires lo <= hi <= |ps|
    requires forall i :: lo <= i < hi ==> !keep(ps[i])
    ensures Filter(ps[lo..], keep) == Filter(ps[hi..], keep)
    decreases hi - lo
  {
    if lo < hi {
      FilterSkip(ps, lo, keep);
      FilterSkipRun(ps, lo + 1, hi, keep);
    }
  }

  /** A run of rejected products followed by one kept product contributes
      just that product. */
  lemma FilterNextKept(ps: seq<Product>, lo: nat, k: nat, keep: Product -> bool)
    requires lo <= k < |ps| && keep(ps[k])
    requires forall i :: lo <= i < k ==> !keep(ps[i])
    ensures Filter(ps[lo..], keep) == [ps[k]] + Filter(ps[k + 1..], keep)
  {
    FilterSkipRun(ps, lo, k, keep);
    FilterKeep(ps, k, keep);
  }

  /** The last nine of fifteen products, of which only position 10 passes. */
  lemma FilterFromSix(ps: seq<Product>, keep: Product -> bool)
    requires |ps| == 15
    requires forall i :: 6 <= i < 15 ==> (keep(ps[i]) <==> i == 10)
    ensures Filter(ps[6..], keep) == [ps[10]]
  {
    FilterSkipRun(ps, 11, 15, keep);
    assert ps[15..] == [];
    FilterNextKept(ps, 6, 10, keep);
  }

  /** The last thirteen of fifteen products, of which positions 5 and 10 pass. */
  lemma FilterFromTwo(ps: seq<Product>, keep: Product -> bool)
    requires |ps| == 15
    requires forall i :: 2 <= i < 15 ==> (keep(ps[i]) <==> i == 5 || i == 10)
    ensures Filter(ps[2..], keep) == [ps[5], ps[10]]
  {
    FilterFromSix(ps, keep);
    FilterNextKept(ps, 2, 5, keep);
  }

  /** Filtering fifteen products of which exactly positions 1, 5 and 10 pass. */
  lemma FilterThreeOfFifteen(ps: seq<Product>, keep: Product -> bool)
    requires |ps| == 15
    requires forall i :: 0 <= i < 15 ==> (keep(ps[i]) <==> i == 1 || i == 5 || i == 10)
    ensures Filter(ps, keep) == [ps[1], ps[5], ps[10]]
  {
    FilterFromTwo(ps, keep);
    FilterNextKept(ps, 0, 1, keep);
    assert ps[0..] == ps;
  }

  lemma SecurityProducts()
    ensures ByCategory(AllProducts, "security") == [AllProducts[1], AllProducts[5], AllProducts[10]]
  {
    SecurityPositions();
    FilterThreeOfFifteen(AllProducts, (p: Product) => p.category == "security");
  }

  /** The `'security'` category holds ids 2, 6 and 11: all three are shown and
      "Load More" is hidden. */
  lemma SecurityView()
    ensures FilterAndSortProducts("security", "", "featured")
         == View([AllProducts[1], AllProducts[5], AllProducts[10]], false)
  {
    assert IsBlank("");
    SecurityProducts();
  }

  // ---------------------------------------------------------------------------
  // "Load More"

  /** Load more appends catalog positions even when a sort is active: after a
      `'newest'` view of the whole catalog, one click shows products 15..10 then
      7, 8, 9 — not the next results 9, 8, 7 in sorted order — and a second click
      shows product 10 twice. */
  lemma LoadMoreIgnoresView()
    ensures var v := FilterAndSortProducts("all", "", "newest");
      var w := LoadMoreProducts(v);
      var w2 := LoadMoreProducts(w);
      && w.current[6..] == AllProducts[6..9]
      && w.current != FilterAndSort("all", "", "newest")[..9]
      && |w2.current| == 12 && w2.current[5] == w2.current[9]
  {
    var v := FilterAndSortProducts("all", "", "newest");
    NewestView();
    NewestFirstLoad(v);
    var w := LoadMoreProducts(v);
    NewestCatalogIsReversed();
    NotTheNextResults(w.current, FilterAndSort("all", "", "newest")[..9]);
    NewestSecondLoad(w);
  }

  lemma ReversedCatalogAt(i: nat)
    requires i < 15
    ensures Reverse(AllProducts)[i] == AllProducts[14 - i]
  {
  }

  lemma NewestView()
    ensures FilterAndSortProducts("all", "", "newest").current == Reverse(AllProducts)[..6]
  {
    NewestCatalogIsReversed();
  }

  lemma NewestFirstLoad(v: View)
    requires v.current == Reverse(AllProducts)[..6]
    ensures var w := LoadMoreProducts(v);
      && |w.current| == 9 && w.current[5] == AllProducts[9]
      && w.current[6..] == AllProducts[6..9]
  {
    var w := LoadMoreProducts(v);
    assert |w.current| == 9;
    assert w.current[5] == AllProducts[9] by {
      ReversedCatalogAt(5);
    }
    assert w.current[6..] == Slice(AllProducts, 6, 9);
  }

  lemma NotTheNextResults(shown: seq<Product>, results: seq<Product>)
    requires |shown| == 9 && shown[6..] == AllProducts[6..9]
    requires results == Reverse(AllProducts)[..9]
    ensures shown != results
  {
    ReversedCatalogAt(6);
    assert shown[6] == AllProducts[6];
    assert results[6] == AllProducts[8];
  }

  lemma NewestSecondLoad(w: View)
    requires |w.current| == 9 && w.current[5] == AllProducts[9]
    ensures var w2 := LoadMoreProducts(w);
      |w2.current| == 12 && w2.current[5] == w2.current[9]
  {
    var w2 := LoadMoreProducts(w);
    assert |w2.current| == 12;
    assert w2.current[5] == w.current[5];
    assert w2.current[9..] == Slice(AllProducts, 9, 12);
    assert w2.current[9] == AllProducts[9];
  }

  /** From a prefix of the catalog, load more extends the prefix by up to three. */
  lemma LoadMoreExtendsPrefix(v: View, n: nat)
    requires n <= |AllProducts| && v.current == AllProducts[..n]
    ensures LoadMoreProducts(v).current == AllProducts[..Min(n + PerLoad, |AllProducts|)]
  {
    var w := LoadMoreProducts(v);
    assert w.current == w.current[..n] + w.current[n..];
  }

  /** The rule `updateProductCount` applies displays the button exactly
      when a click on it would add products, and after a click the display
      is exactly that rule. (A filter sets the display by its own rule, so a
      filtered view can hide the button while a click would still add
      products.) */
  lemma ButtonShownIffClickAdds(v: View)
    ensures UpdateProductCount(v.current) <==> |LoadMoreProducts(v).current| > |v.current|
    ensures LoadMoreProducts(v).loadMoreShown <==>
      |LoadMoreProducts(LoadMoreProducts(v)).current| > |LoadMoreProducts(v).current|
  {
    var w := LoadMoreProducts(v);
    if |v.current| < |AllProducts| {
      assert |w.current| == Min(|v.current| + PerLoad, |AllProducts|);
    }
    if |w.current| < |AllProducts| {
      assert |LoadMoreProducts(w).current| == Min(|w.current| + PerLoad, |AllProducts|);
    }
  }

  function LoadMoreTimes(v: View, k: nat): View
    decreases k
  {
    if k == 0 then v else LoadMoreTimes(LoadMoreProducts(v), k - 1)
  }

  /** `k` clicks from `n` shown products show `min(n + 3k, 15)`. */
  lemma {:induction false} LoadMoreTimesCount(v: View, k: nat)
    requires |v.current| <= |AllProducts|
    ensures |LoadMoreTimes(v, k).current| == Min(|v.current| + PerLoad * k, |AllProducts|)
    decreases k
  {
    if k > 0 {
      LoadMoreTimesCount(LoadMoreProducts(v), k - 1);
    }
  }

  /** The page's own walk-through: six products at load, then 9, 12 and 15 in
      catalog order, after which the button is hidden and clicks change nothing. */
  lemma LoadMoreWalkThrough()
    ensures InitProducts().current == AllProducts[..6] && InitProducts().loadMoreShown
    ensures LoadMoreTimes(InitProducts(), 1).current == AllProducts[..9]
    ensures LoadMoreTimes(InitProducts(), 2).current == AllProducts[..12]
    ensures LoadMoreTimes(InitProducts(), 3).current == AllProducts
    ensures !LoadMoreTimes(InitProducts(), 3).loadMoreShown
    ensures LoadMoreProducts(LoadMoreTimes(InitProducts(), 3)) == LoadMoreTimes(InitProducts(), 3)
  {
    CatalogShape();
    var v0 := InitProducts();
    LoadMoreExtendsPrefix(v0, 6);
    var v1 := LoadMoreProducts(v0);
    LoadMoreExtendsPrefix(v1, 9);
    var v2 := LoadMoreProducts(v1);
    LoadMoreExtendsPrefix(v2, 12);
    var v3 := LoadMoreProducts(v2);
    assert v3.current == AllProducts[..15] == AllProducts;
    assert LoadMoreTimes(v0, 3) == LoadMoreTimes(v1, 2) == LoadMoreTimes(v2, 1) == v3;
  }

  /** The user actions of the products page. */
  datatype Action = FilterChanged(filter: string, search: string, sort: string) | LoadMoreClicked

  function Step(v: View, a: Action): View {
    match a
    case FilterChanged(f, s, o) => FilterAndSortProducts(f, s, o)
    case LoadMoreClicked => LoadMoreProducts(v)
  }

  function Run(v: View, actions: seq<Action>): View
    decreases |actions|
  {
    if |actions| == 0 then v else Run(Step(v, actions[0]), actions[1..])
  }

  /** What holds of every view the page can reach: at most fifteen products,
      all from the catalog, and a displayed button means a click adds some. */
  predicate Consistent(v: View) {
    && |v.current| <= |AllProducts|
    && (forall p :: p in v.current ==> p in AllProducts)
    && (v.loadMoreShown ==> |v.current| < |AllProducts|)
  }

  lemma StepKeepsConsistent(v: View, a: Action)
    requires Consistent(v)
    ensures Consistent(Step(v, a))
  {
    match a
    case FilterChanged(f, s, o) =>
      var r := FilterAndSort(f, s, o);
      var w := FilterAndSortProducts(f, s, o);
      forall p | p in w.current ensures p in AllProducts {
        FilterAndSortMembers(f, s, o, p);
      }
      assert |r| <= |AllProducts| by {
        assert |r| == |multiset(r)|;
      }
    case LoadMoreClicked =>
      var w := LoadMoreProducts(v);
      forall p | p in w.current ensures p in AllProducts {
        var i :| 0 <= i < |w.current| && w.current[i] == p;
        if i >= |v.current| {
          assert p == w.current[|v.current|..][i - |v.current|];
        } else {
          assert p == w.current[..|v.current|][i];
        }
      }
  }

  /** Filter changes and clicks never leave a consistent view. */
  lemma {:induction false} RunKeepsConsistent(v: View, actions: seq<Action>)
    requires Consistent(v)
    ensures Consistent(Run(v, actions))
    decreases |actions|
  {
    if |actions| > 0 {
      StepKeepsConsistent(v, actions[0]);
      RunKeepsConsistent(Step(v, actions[0]), actions[1..]);
    }
  }

  /** In a consistent view a displayed "Load More" always adds a product. */
  lemma ShownButtonMakesProgress(v: View)
    requires Consistent(v) && v.loadMoreShown
    ensures |LoadMoreProducts(v).current| > |v.current|
  {
  }

  lemma InitConsistent()
    ensures Consistent(InitProducts())
  {
    CatalogShape();
  }

  /** Every view reachable from page load by filter changes and clicks is
      consistent. */
  lemma ReachableViewsConsistent(actions: seq<Action>)
    ensures Consistent(Run(InitProducts(), actions))
  {
    InitConsistent();
    RunKeepsConsistent(InitProducts(), actions);
  }

}
