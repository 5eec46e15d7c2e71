/** The reading-list ordering engine: add (append or positional insert), remove
    with compaction, and reorder by a full sequence of book ids. Each operation
    returns the list after the change, or an error with the list unchanged: add
    writes inside a transaction that rolls back on failure, and the errors of
    remove and reorder are raised before anything is written. */
module ListService {
  import opened Results
  import opened Seqs
  import opened ListItems

  /** The errors the service raises. */
  datatype ListError =
    | AlreadyInList   // the duplicate check before the insert
    | AddFailed       // an IntegrityError inside the insert transaction
    | NotInList       // `ReadingListItem.DoesNotExist` on remove
    | AddCrashed      // an exception on add that the service does not catch
    | RemoveFailed    // any other exception on remove, e.g. two rows for one book
    | IdsMismatch     // reorder ids do not match the list's books
    | PageNotFound    // `EmptyPage` from the paginator
    | PaginatorFault  // the paginator failed in another way; the service does not catch it

  /** The text the service attaches to each error, if it catches it. */
  function Message(e: ListError): (m: Option<string>)
    ensures m.None? <==> e == PaginatorFault || e == AddCrashed
  {
    match e
    case AlreadyInList => Some("Book already in list.")
    case AddFailed => Some("Failed to add book to list due to an unexpected error.")
    case AddCrashed => None
    case NotInList => Some("Book not in list.")
    case RemoveFailed => Some("Internal server error")
    case IdsMismatch => Some("Provided book IDs do not match the list.")
    case PageNotFound => Some("Page not found.")
    case PaginatorFault => None
  }

  /** Each caught error has its own text, so the text names the error. */
  lemma MessagesDistinct(e1: ListError, e2: ListError)
    requires Message(e1).Some? && Message(e1) == Message(e2)
    ensures e1 == e2
  {
  }

  /** The `listing_order` column is a `PositiveIntegerField`: the store rejects a
      negative value with an integrity error. */
  predicate Storable(order: int) {
    order >= 0
  }

  /** `(max_order or 0) + 1`: one past the largest order, or 1 for an empty list. */
  function NextOrder(items: seq<Item>): (r: int)
    ensures |items| == 0 ==> r == 1
    ensures forall i :: 0 <= i < |items| ==> items[i].order < r
    ensures |items| > 0 ==> exists i :: 0 <= i < |items| && items[i].order == r - 1
  {
    if |items| == 0 then 1
    else
      var rest := NextOrder(items[1..]);
      if |items| == 1 || items[0].order >= rest - 1 then items[0].order + 1
      else
        assert exists i :: 1 <= i < |items| && items[i].order == rest - 1 by {
          var i :| 0 <= i < |items[1..]| && items[1..][i].order == rest - 1;
          assert items[i + 1].order == rest - 1;
        }
        rest
  }

  /** The bulk update `listing_order = listing_order + 1` for every row whose order
      is at least `from`. */
  function ShiftUp(items: seq<Item>, from: int): (r: seq<Item>)
    ensures |r| == |items|
    ensures forall i :: 0 <= i < |items| ==> r[i].book == items[i].book
    ensures forall i :: 0 <= i < |items| && items[i].order >= from ==> r[i].order == items[i].order + 1
    ensures forall i :: 0 <= i < |items| && items[i].order < from ==> r[i] == items[i]
  {
    seq(|items|, i requires 0 <= i < |items| =>
      if items[i].order >= from then Item(items[i].book, items[i].order + 1) else items[i])
  }

  /** The bulk update `listing_order = listing_order - 1` for every row whose order
      is above `above`. */
  function ShiftDown(items: seq<Item>, above: int): (r: seq<Item>)
    ensures |r| == |items|
    ensures forall i :: 0 <= i < |items| ==> r[i].book == items[i].book
    ensures forall i :: 0 <= i < |items| && items[i].order > above ==> r[i].order == items[i].order - 1
    ensures forall i :: 0 <= i < |items| && items[i].order <= above ==> r[i] == items[i]
  {
    seq(|items|, i requires 0 <= i < |items| =>
      if items[i].order > above then Item(items[i].book, items[i].order - 1) else items[i])
  }

  /** Adds `book` to the list. Without a position it is appended after the
      current maximum; with a position `p`, every item at `p` or later moves up
      by one and the new item takes `p`. A negative order violates the column's
      check, and the transaction rolls the shift back. */
  function AddBook(items: seq<Item>, book: BookId, position: Option<int>): (r: Result<seq<Item>, ListError>)
    ensures Contains(items, book) ==> r == Err(AlreadyInList)
    ensures !Contains(items, book) && position.Some? && position.value < 0 ==> r == Err(AddFailed)
    ensures !Contains(items, book) && position.Some? && position.value >= 0 ==> r.Ok?
    ensures r.Ok? ==> |r.value| == |items| + 1 && r.value[|items|].book == book
    ensures r.Ok? ==> forall i :: 0 <= i < |items| ==> r.value[i].book == items[i].book
    // append: no existing order changes, and the new one is above them all
    ensures r.Ok? && position.None? ==> r.value[..|items|] == items
    ensures r.Ok? && position.None? ==> forall i :: 0 <= i < |items| ==> items[i].order < r.value[|items|].order
    ensures r.Ok? && position.None? && |items| == 0 ==> r.value[0].order == 1
    ensures r.Ok? && position.None? && |items| > 0 ==>
      exists i :: 0 <= i < |items| && items[i].order + 1 == r.value[|items|].order
    // positional insert: orders at or above p move up, the rest stay, the new item takes p
    ensures r.Ok? && position.Some? ==> r.value[|items|].order == position.value
    ensures r.Ok? && position.Some? ==> forall i :: 0 <= i < |items| && items[i].order >= position.value ==>
      r.value[i].order == items[i].order + 1
    ensures r.Ok? && position.Some? ==> forall i :: 0 <= i < |items| && items[i].order < position.value ==>
      r.value[i] == items[i]
  {
    if Contains(items, book) then Err(AlreadyInList)
    else
      var shifted := if position.Some? then ShiftUp(items, position.value) else items;
      var order := if position.Some? then position.value else NextOrder(items);
      if !Storable(order) then Err(AddFailed)
      else Ok(shifted + [Item(book, order)])
  }

  /** `add_book_to_list` as the add view calls it: with the integer `book_id`
      where a book row is expected. The duplicate filter accepts a key, so a
      listed book is still refused; otherwise creating the row rejects the key
      with a `ValueError`, which is not the integrity error the service catches.
      The transaction rolls back and the error escapes to the view. */
  function AddBookById(items: seq<Item>, book: BookId, position: Option<int>): (r: Result<seq<Item>, ListError>)
    ensures r.Err?
    ensures r == Err(AlreadyInList) <==> Contains(items, book)
    ensures r == Err(AddCrashed) <==> !Contains(items, book)
  {
    if Contains(items, book) then Err(AlreadyInList) else Err(AddCrashed)
  }

  /** Through the add view a new book is never added, where the service given
      the book's row adds it whenever the store accepts the orders. */
  lemma AddByIdNeverAdds(items: seq<Item>, book: BookId, position: Option<int>)
    requires !Contains(items, book) && (position.None? || position.value >= 0)
    requires forall i :: 0 <= i < |items| ==> Storable(items[i].order)
    ensures AddBookById(items, book, position) == Err(AddCrashed)
    ensures AddBook(items, book, position).Ok?
  {
    if position.None? && |items| > 0 {
      assert items[0].order < NextOrder(items);
    }
  }

  /** The first index holding `book`. */
  function IndexOf(items: seq<Item>, book: BookId): (i: nat)
    requires Contains(items, book)
    ensures i < |items| && items[i].book == book
    ensures forall j :: 0 <= j < i ==> items[j].book != book
  {
    if items[0].book == book then 0
    else
      assert Contains(items[1..], book) by {
        var j :| 0 <= j < |items| && items[j].book == book;
        assert items[1..][j - 1].book == book;
      }
      1 + IndexOf(items[1..], book)
  }

  /** Removes `book` from the list and closes the gap it leaves: every item
      ordered after it moves down by one. A book with no row fails with
      `NotInList`; a book with two rows makes the single-row lookup fail. */
  function RemoveBook(items: seq<Item>, book: BookId): (r: Result<seq<Item>, ListError>)
    ensures !Contains(items, book) ==> r == Err(NotInList)
    ensures UniqueBooks(items) && Contains(items, book) ==> r.Ok?
    ensures r.Ok? <==>
      (Contains(items, book) && !exists i, j :: 0 <= i < j < |items| && items[i].book == book && items[j].book == book)
    ensures r == Err(RemoveFailed) <==>
      exists i, j :: 0 <= i < j < |items| && items[i].book == book && items[j].book == book
    ensures r.Ok? ==> Contains(items, book) && !Contains(r.value, book) && |r.value| == |items| - 1
    ensures r.Ok? ==>
      var i := IndexOf(items, book);
      var k := items[i].order;
      forall j :: 0 <= j < |items| && j != i ==>
        var j' := if j < i then j else j - 1;
        && r.value[j'].book == items[j].book
        && r.value[j'].order == (if items[j].order > k then items[j].order - 1 else items[j].order)
  {
    if !Contains(items, book) then Err(NotInList)
    else
      var i := IndexOf(items, book);
      if exists j :: i < j < |items| && items[j].book == book then Err(RemoveFailed)
      else
        var rest := items[..i] + items[i + 1..];
        var r := ShiftDown(rest, items[i].order);
        assert !Contains(r, book) by {
          forall j | 0 <= j < |r| ensures r[j].book != book {
            assert r[j].book == rest[j].book;
            if j >= i { assert rest[j] == items[j + 1]; }
          }
        }
        Ok(r)
  }

  /** One `UPDATE ... SET listing_order = order WHERE book_id = book`. */
  function AssignOrder(items: seq<Item>, book: BookId, order: int): (r: seq<Item>)
    ensures |r| == |items|
    ensures forall j :: 0 <= j < |items| ==> r[j].book == items[j].book
    ensures forall j :: 0 <= j < |items| ==> r[j].order == if items[j].book == book then order else items[j].order
  {
    seq(|items|, j requires 0 <= j < |items| =>
      if items[j].book == book then Item(book, order) else items[j])
  }

  /** The updates of the reorder loop, one per id, numbered from `next`. When an id
      occurs twice its last position wins. */
  function AssignAll(items: seq<Item>, ids: seq<BookId>, next: int): (r: seq<Item>)
    ensures |r| == |items|
    ensures forall j :: 0 <= j < |items| ==> r[j].book == items[j].book
    ensures forall j :: 0 <= j < |items| && items[j].book in ids ==>
      r[j].order == next + LastIndex(ids, items[j].book)
    ensures forall j :: 0 <= j < |items| && items[j].book !in ids ==> r[j] == items[j]
    decreases |ids|
  {
    if ids == [] then items
    else
      var step := AssignOrder(items, ids[0], next);
      var r := AssignAll(step, ids[1..], next + 1);
      assert forall j :: 0 <= j < |items| && items[j].book in ids[1..] ==>
        LastIndex(ids, items[j].book) == 1 + LastIndex(ids[1..], items[j].book)
      by {
        forall j | 0 <= j < |items| && items[j].book in ids[1..]
          ensures LastIndex(ids, items[j].book) == 1 + LastIndex(ids[1..], items[j].book)
        {
          var b := items[j].book;
          var a := LastIndex(ids, b);
          var c := LastIndex(ids[1..], b);
          assert ids[c + 1] == b;
        }
      }
      r
  }

  /** Reorders the list: the ids must be, as a set, the books of the list; then
      the item for `ids[i]` takes order `i + 1`. */
  function Reorder(items: seq<Item>, ids: seq<BookId>): (r: Result<seq<Item>, ListError>)
    ensures Elems(ids) != BookSet(items) <==> r == Err(IdsMismatch)
    ensures Elems(ids) == BookSet(items) ==> r.Ok?
    ensures r.Ok? ==> |r.value| == |items| && BookSet(r.value) == BookSet(items)
    ensures r.Ok? ==> forall j :: 0 <= j < |items| ==>
      && items[j].book in ids
      && r.value[j].book == items[j].book
      && r.value[j].order == LastIndex(ids, items[j].book) + 1
  {
    if Elems(ids) != BookSet(items) then Err(IdsMismatch)
    else
      var r := AssignAll(items, ids, 1);
      assert Books(r) == Books(items);
      forall j | 0 <= j < |items| ensures items[j].book in ids {
        assert items[j].book in BookSet(items);
      }
      Ok(r)
  }
}
