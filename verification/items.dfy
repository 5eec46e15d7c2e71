/** The rows of one reading list: each pairs a book with its `listing_order`.
    The position of an item in the sequence carries no meaning (the rows live in a
    table); only the `order` field ranks them. */
module ListItems {
  import opened Seqs

  /** Books are opaque integer ids; the engine never looks into the catalog. */
  type BookId = int

  datatype Item = Item(book: BookId, order: int)

  function Orders(items: seq<Item>): (r: seq<int>)
    ensures |r| == |items|
    ensures forall i :: 0 <= i < |items| ==> r[i] == items[i].order
  {
    seq(|items|, i requires 0 <= i < |items| => items[i].order)
  }

  function Books(items: seq<Item>): (r: seq<BookId>)
    ensures |r| == |items|
    ensures forall i :: 0 <= i < |items| ==> r[i] == items[i].book
  {
    seq(|items|, i requires 0 <= i < |items| => items[i].book)
  }

  /** The set of book ids in the list (`current_book_ids` as a set). */
  function BookSet(items: seq<Item>): set<BookId> {
    Elems(Books(items))
  }

  predicate Contains(items: seq<Item>, book: BookId) {
    exists i :: 0 <= i < |items| && items[i].book == book
  }

  /** A book appears at most once in a list. */
  predicate UniqueBooks(items: seq<Item>) {
    Distinct(Books(items))
  }

  /** The density invariant: the listing orders are exactly `1..n`. */
  predicate Dense(items: seq<Item>) {
    Elems(Orders(items)) == Range(|items|)
  }

  /** Every order lies in `1..n`. */
  predicate OrdersInRange(items: seq<Item>) {
    forall i :: 0 <= i < |items| ==> 1 <= items[i].order <= |items|
  }

  /** No two items share an order. */
  predicate OrdersDistinct(items: seq<Item>) {
    forall i, j :: 0 <= i < j < |items| ==> items[i].order != items[j].order
  }

  /** Density, stated as a set equality, is the same as "in range and no duplicates". */
  lemma DenseIff(items: seq<Item>)
    ensures Dense(items) <==> OrdersInRange(items) && OrdersDistinct(items)
  {
    var os := Orders(items);
    var n := |items|;
    ElemsCard(os);
    RangeCard(n);
    assert Distinct(os) <==> OrdersDistinct(items) by {
      if Distinct(os) {
        forall i, j | 0 <= i < j < n ensures items[i].order != items[j].order {
          assert os[i] == items[i].order && os[j] == items[j].order;
        }
      }
    }
    if OrdersInRange(items) && OrdersDistinct(items) {
      forall o | o in Elems(os) ensures o in Range(n) {
        var i :| 0 <= i < n && os[i] == o;
      }
      FullSubsetOfRange(Elems(os), n);
    }
    if Dense(items) {
      forall i | 0 <= i < n ensures 1 <= items[i].order <= n {
        assert os[i] in Elems(os);
      }
    }
  }

  /** On a dense list, `Max(listing_order)` is the item count. */
  lemma DenseHasTop(items: seq<Item>)
    requires Dense(items) && |items| > 0
    ensures exists i :: 0 <= i < |items| && items[i].order == |items|
  {
    assert |items| in Range(|items|);
    var os := Orders(items);
    assert |items| in Elems(os);
    var i :| 0 <= i < |os| && os[i] == |items|;
    assert items[i].order == |items|;
  }
}
