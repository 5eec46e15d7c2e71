/** The read-only view of a list: its items sorted ascending by order and cut
    into pages, with the page-range rule of Django's paginator (no orphans, an
    empty list still has one page). */
module ListPagination {
  import opened Results
  import opened Seqs
  import opened ListItems
  import opened ListService

  predicate SortedByOrder(s: seq<Item>) {
    forall i, j :: 0 <= i < j < |s| ==> s[i].order <= s[j].order
  }

  /** Places `x` before the first item of a sorted list whose order is not
      smaller. */
  function InsertByOrder(x: Item, s: seq<Item>): (r: seq<Item>)
    requires SortedByOrder(s)
    ensures SortedByOrder(r)
    ensures multiset(r) == multiset(s) + multiset{x}
    ensures |r| == |s| + 1
    ensures r[0] == x || (s != [] && r[0] == s[0])
  {
    if s == [] || x.order <= s[0].order then [x] + s
    else
      var tail := InsertByOrder(x, s[1..]);
      assert s == [s[0]] + s[1..];
      assert s[0].order <= tail[0].order;
      [s[0]] + tail
  }

  /** `order_by('listing_order')`: the items, ascending by order. */
  function SortByOrder(items: seq<Item>): (r: seq<Item>)
    ensures SortedByOrder(r)
    ensures multiset(r) == multiset(items)
    ensures |r| == |items|
  {
    if items == [] then []
    else
      assert items == [items[0]] + items[1..];
      InsertByOrder(items[0], SortByOrder(items[1..]))
  }

  /** The paginator's page count: enough pages of `size` for `count` items with
      the last one non-empty, and one page when there are none. */
  function NumPages(count: nat, size: int): (r: nat)
    requires size >= 1
    ensures r >= 1
    ensures count == 0 ==> r == 1
    ensures count <= PageStart(r + 1, size)
    ensures count > 0 ==> PageStart(r, size) < count
    decreases count
  {
    if count <= size then 1 else 1 + NumPages(count - size, size)
  }

  /** What the view reports of a page. */
  datatype Page = Page(items: seq<Item>, number: int, count: nat, numPages: nat, hasNext: bool, hasPrevious: bool)

  /** Index in the sorted list of the first item of page `page`, that is
      `(page - 1) * size`. */
  function PageStart(page: int, size: nat): (b: nat)
    decreases page
  {
    if page <= 1 then 0 else PageStart(page - 1, size) + size
  }

  lemma {:induction false} PageStartIsProduct(page: int, size: nat)
    requires page >= 1
    ensures PageStart(page, size) == (page - 1) * size
    decreases page
  {
    if page > 1 {
      PageStartIsProduct(page - 1, size);
    }
  }

  lemma {:induction false} PageStartMonotone(p: int, q: int, size: nat)
    requires p <= q
    ensures PageStart(p, size) <= PageStart(q, size)
    decreases q
  {
    if q > 1 && p < q {
      PageStartMonotone(p, q - 1, size);
    }
  }

  /** The page count is the ceiling of `count / size`, as the paginator computes it. */
  lemma NumPagesIsCeiling(count: nat, size: int)
    requires size >= 1 && count > 0
    ensures NumPages(count, size) == (count + size - 1) / size
  {
    var r := NumPages(count, size);
    PageStartIsProduct(r, size);
    PageStartIsProduct(r + 1, size);
    var m := r * size;
    assert (r - 1) * size == m - size;
    assert m - size < count <= m;
    DivUnique(count + size - 1, size, r, m);
  }

  lemma DivUnique(x: int, d: int, q: int, m: int)
    requires d >= 1 && m == q * d && m <= x < m + d
    ensures x / d == q
  {
    var k := x / d;
    var p := k * d;
    assert p <= x < p + d;
    if k < q {
      MulMono(k + 1, q, d);
      Distrib(k, d);
      assert false;
    } else if k > q {
      MulMono(q + 1, k, d);
      Distrib(q, d);
      assert false;
    }
  }

  lemma Distrib(a: int, d: int)
    ensures (a + 1) * d == a * d + d
  {}

  lemma MulMono(a: int, b: int, c: nat)
    requires a <= b
    ensures a * c <= b * c
  {}

  /** A valid page starts within the list (at 0 for an empty list). */
  lemma PageStartInList(count: nat, page: int, size: int)
    requires size >= 1 && 1 <= page <= NumPages(count, size)
    ensures PageStart(page, size) <= count
    ensures count > 0 ==> PageStart(page, size) < count
  {
    PageStartMonotone(page, NumPages(count, size), size);
  }

  function Min(a: int, b: int): int {
    if a <= b then a else b
  }

  /** Page `page` of `size` items of the sorted list. A page number outside
      `1..NumPages` is `EmptyPage`, reported as "Page not found.". A size of zero
      makes the page count divide by zero. A negative size gives a page count of
      at most zero, so every page number is out of range. */
  function Paginate(items: seq<Item>, page: int, size: int): (r: Result<Page, ListError>)
    ensures r.Ok? <==> size >= 1 && 1 <= page <= NumPages(|items|, size)
    ensures r == Err(PaginatorFault) <==> size == 0 && page >= 1
    ensures r == Err(PageNotFound) <==> page < 1 || size < 0 || (size >= 1 && page > NumPages(|items|, size))
    ensures r.Ok? ==> SortedByOrder(r.value.items)
    ensures r.Ok? ==> |r.value.items| == Min(size, |items| - PageStart(page, size))
    ensures r.Ok? ==>
      r.value.items == SortByOrder(items)[PageStart(page, size)..PageStart(page, size) + |r.value.items|]
    ensures r.Ok? ==> r.value.count == |items| && r.value.number == page
    ensures r.Ok? ==> r.value.numPages == NumPages(|items|, size)
    ensures r.Ok? ==> (r.value.hasNext <==> page < r.value.numPages)
    ensures r.Ok? ==> (r.value.hasPrevious <==> page > 1)
  {
    if page < 1 then Err(PageNotFound)
    else if size == 0 then Err(PaginatorFault)
    else if size < 0 then Err(PageNotFound)
    else
      var pages := NumPages(|items|, size);
      if page > pages then Err(PageNotFound)
      else
        var sorted := SortByOrder(items);
        var bottom := PageStart(page, size);
        var top := if bottom + size >= |items| then |items| else bottom + size;
        PageStartInList(|items|, page, size);
        var slice := sorted[bottom..top];
        Ok(Page(slice, page, |items|, pages, page < pages, page > 1))
  }

  /** An empty list still has its first page, with nothing on it. */
  lemma EmptyListFirstPage(size: int)
    requires size >= 1
    ensures Paginate([], 1, size) == Ok(Page([], 1, 0, 1, false, false))
    ensures Paginate([], 2, size) == Err(PageNotFound)
  {
  }

  /** Two lists holding the same rows are dense together. */
  lemma SameRowsDense(a: seq<Item>, b: seq<Item>)
    requires multiset(a) == multiset(b)
    ensures Dense(a) <==> Dense(b)
  {
    assert |a| == |multiset(a)| == |b|;
    forall o ensures o in Elems(Orders(a)) <==> o in Elems(Orders(b)) {
      if o in Elems(Orders(a)) {
        var i :| 0 <= i < |a| && Orders(a)[i] == o;
        assert a[i] in multiset(b);
        var j :| 0 <= j < |b| && b[j] == a[i];
        assert Orders(b)[j] == o;
      }
      if o in Elems(Orders(b)) {
        var j :| 0 <= j < |b| && Orders(b)[j] == o;
        assert b[j] in multiset(a);
        var i :| 0 <= i < |a| && a[i] == b[j];
        assert Orders(a)[i] == o;
      }
    }
  }

  lemma {:induction false} SortedDenseLower(s: seq<Item>, i: nat)
    requires SortedByOrder(s) && OrdersInRange(s) && OrdersDistinct(s) && i < |s|
    ensures s[i].order >= i + 1
    decreases i
  {
    if i > 0 {
      SortedDenseLower(s, i - 1);
    }
  }

  lemma {:induction false} SortedDenseUpper(s: seq<Item>, i: nat)
    requires SortedByOrder(s) && OrdersInRange(s) && OrdersDistinct(s) && i < |s|
    ensures s[i].order <= i + 1
    decreases |s| - i
  {
    if i < |s| - 1 {
      SortedDenseUpper(s, i + 1);
    }
  }

  /** Sorted by order, a dense list holds order `i + 1` at index `i`. */
  lemma SortedDenseIsIdentity(items: seq<Item>)
    requires Dense(items)
    ensures forall i :: 0 <= i < |items| ==> SortByOrder(items)[i].order == i + 1
  {
    var s := SortByOrder(items);
    SameRowsDense(items, s);
    DenseIff(s);
    forall i | 0 <= i < |s| ensures s[i].order == i + 1 {
      SortedDenseLower(s, i);
      SortedDenseUpper(s, i);
    }
  }

  /** On a dense list, the `k`-th item of page `p` is the one at order
      `(p - 1) * size + k + 1`. */
  lemma DensePageOrders(items: seq<Item>, page: int, size: int)
    requires Dense(items)
    requires Paginate(items, page, size).Ok?
    ensures var pg := Paginate(items, page, size).value;
      forall k :: 0 <= k < |pg.items| ==> pg.items[k].order == PageStart(page, size) + k + 1
  {
    SortedDenseIsIdentity(items);
    var pg := Paginate(items, page, size).value;
    var sorted := SortByOrder(items);
    var b := PageStart(page, size);
    forall k | 0 <= k < |pg.items| ensures pg.items[k].order == b + k + 1 {
      assert pg.items[k] == sorted[b..b + |pg.items|][k] == sorted[b + k];
    }
  }

  /** Every item of the sorted list is on a valid page: the one at index
      `PageStart(page, size) + off` is item `off` of page `page`. */
  lemma EveryItemOnAPage(items: seq<Item>, size: int, page: int, off: nat)
    requires size >= 1 && page >= 1 && off < size
    requires PageStart(page, size) + off < |items|
    ensures var res := Paginate(items, page, size);
      && res.Ok?
      && off < |res.value.items|
      && res.value.items[off] == SortByOrder(items)[PageStart(page, size) + off]
  {
    var pages := NumPages(|items|, size);
    var b := PageStart(page, size);
    if page > pages {
      PageStartMonotone(pages + 1, page, size);
      assert false;
    }
    var res := Paginate(items, page, size);
    var pg := res.value;
    var sorted := SortByOrder(items);
    assert |pg.items| == Min(size, |items| - b);
    assert pg.items[off] == sorted[b..b + |pg.items|][off] == sorted[b + off];
  }
}
