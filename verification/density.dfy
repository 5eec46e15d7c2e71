/** What each operation of the engine does to the density invariant and to the
    one-row-per-book rule. */
module ListInvariants {
  import opened Results
  import opened Seqs
  import opened ListItems
  import opened ListService

  /** Appending to a dense list gives the new book order `n + 1` and keeps the
      list dense. */
  lemma AppendKeepsDense(items: seq<Item>, book: BookId)
    requires Dense(items) && !Contains(items, book)
    ensures AddBook(items, book, None).Ok?
    ensures AddBook(items, book, None).value[|items|].order == |items| + 1
    ensures Dense(AddBook(items, book, None).value)
  {
    var n := |items|;
    DenseIff(items);
    var r := AddBook(items, book, None).value;
    if n > 0 {
      DenseHasTop(items);
      var t :| 0 <= t < n && items[t].order == n;
      var i :| 0 <= i < n && items[i].order + 1 == r[n].order;
      assert items[t].order < r[n].order;
    }
    assert r[n].order == n + 1;
    DenseIff(r);
  }

  /** Inserting at a position `1 <= p <= n + 1` of a dense list keeps it dense. */
  lemma InsertKeepsDense(items: seq<Item>, book: BookId, p: int)
    requires Dense(items) && !Contains(items, book)
    requires 1 <= p <= |items| + 1
    ensures AddBook(items, book, Some(p)).Ok?
    ensures Dense(AddBook(items, book, Some(p)).value)
  {
    DenseIff(items);
    var r := AddBook(items, book, Some(p)).value;
    var n := |items|;
    forall i, j | 0 <= i < j < |r| ensures r[i].order != r[j].order {
      if j == n {
        assert r[j].order == p;
      }
    }
    DenseIff(r);
  }

  /** Inserting past `n + 1` is not capped: the list is left with a gap, the
      order `n + 1` being held by no item. */
  lemma InsertPastEndLeavesGap(items: seq<Item>, book: BookId, p: int)
    requires Dense(items) && !Contains(items, book)
    requires p > |items| + 1
    ensures AddBook(items, book, Some(p)).Ok?
    ensures var r := AddBook(items, book, Some(p)).value;
      && !Dense(r)
      && forall i :: 0 <= i < |r| ==> r[i].order != |items| + 1
  {
    DenseIff(items);
    var r := AddBook(items, book, Some(p)).value;
    DenseIff(r);
  }

  /** Removing a book from a dense list with one row per book keeps it dense and
      keeps one row per book. */
  lemma RemoveKeepsDense(items: seq<Item>, book: BookId)
    requires Dense(items) && UniqueBooks(items) && Contains(items, book)
    ensures RemoveBook(items, book).Ok?
    ensures Dense(RemoveBook(items, book).value)
    ensures UniqueBooks(RemoveBook(items, book).value)
    ensures BookSet(RemoveBook(items, book).value) == BookSet(items) - {book}
  {
    var i := IndexOf(items, book);
    var r := RemoveUnfold(items, book);
    DeleteCompactKeepsDense(items, i);
    DeleteKeepsUniqueBooks(items, i);
  }

  /** Deleting the row at index `i` of a dense list and shifting down the orders
      above its own gives a dense list. */
  lemma DeleteCompactKeepsDense(items: seq<Item>, i: nat)
    requires Dense(items) && i < |items|
    ensures Dense(ShiftDown(items[..i] + items[i + 1..], items[i].order))
  {
    DenseIff(items);
    var rest := items[..i] + items[i + 1..];
    var k := items[i].order;
    var r := ShiftDown(rest, k);
    forall a | 0 <= a < |rest| ensures rest[a] == items[if a < i then a else a + 1] {}
    forall a | 0 <= a < |r| ensures 1 <= r[a].order <= |r| {
      var j := if a < i then a else a + 1;
      assert items[j].order != k;
    }
    forall a, b | 0 <= a < b < |r| ensures r[a].order != r[b].order {
      var ja := if a < i then a else a + 1;
      var jb := if b < i then b else b + 1;
      assert items[ja].order != items[jb].order && items[ja].order != k && items[jb].order != k;
    }
    DenseIff(r);
  }

  /** Deleting the row at index `i` of a list with one row per book keeps one row
      per book, and removes exactly that row's book. */
  lemma DeleteKeepsUniqueBooks(items: seq<Item>, i: nat)
    requires UniqueBooks(items) && i < |items|
    ensures var r := ShiftDown(items[..i] + items[i + 1..], items[i].order);
      UniqueBooks(r) && BookSet(r) == BookSet(items) - {items[i].book}
  {
    var rest := items[..i] + items[i + 1..];
    var r := ShiftDown(rest, items[i].order);
    forall a | 0 <= a < |rest| ensures rest[a] == items[if a < i then a else a + 1] {}
    forall a, b | 0 <= a < b < |r| ensures Books(r)[a] != Books(r)[b] {
      var ja := if a < i then a else a + 1;
      var jb := if b < i then b else b + 1;
      assert Books(items)[ja] != Books(items)[jb];
    }
    forall x ensures x in BookSet(r) <==> x in BookSet(items) - {items[i].book} {
      if x in BookSet(r) {
        var a :| 0 <= a < |r| && Books(r)[a] == x;
        var j := if a < i then a else a + 1;
        assert Books(items)[j] == x;
        assert Books(items)[j] != Books(items)[i];
      }
      if x in BookSet(items) - {items[i].book} {
        var j :| 0 <= j < |items| && Books(items)[j] == x;
        assert j != i;
        var a := if j < i then j else j - 1;
        assert Books(r)[a] == x;
      }
    }
  }

  /** On a list with one row per book, a successful remove is the deletion of the
      book's row followed by the downward shift. */
  lemma RemoveUnfold(items: seq<Item>, book: BookId) returns (r: seq<Item>)
    requires UniqueBooks(items) && Contains(items, book)
    ensures var i := IndexOf(items, book);
      && RemoveBook(items, book) == Ok(r)
      && r == ShiftDown(items[..i] + items[i + 1..], items[i].order)
  {
    var i := IndexOf(items, book);
    assert !exists j :: i < j < |items| && items[j].book == book by {
      forall j | i < j < |items| ensures items[j].book != book {
        assert Books(items)[i] != Books(items)[j];
      }
    }
    r := ShiftDown(items[..i] + items[i + 1..], items[i].order);
  }

  /** A reorder whose ids are a permutation of the list's books (no repeats, same
      set) succeeds, gives the item for `ids[i]` order `i + 1`, and leaves a dense
      list, whatever the orders were before. */
  lemma ReorderPermutationIsDense(items: seq<Item>, ids: seq<BookId>)
    requires UniqueBooks(items) && Distinct(ids) && Elems(ids) == BookSet(items)
    ensures Reorder(items, ids).Ok?
    ensures var r := Reorder(items, ids).value;
      && Dense(r)
      && UniqueBooks(r)
      && forall i, j :: 0 <= i < |ids| && 0 <= j < |r| && r[j].book == ids[i] ==> r[j].order == i + 1
  {
    var r := Reorder(items, ids).value;
    ElemsCard(ids);
    ElemsCard(Books(items));
    assert |ids| == |items|;
    forall i, j | 0 <= i < |ids| && 0 <= j < |r| && r[j].book == ids[i] ensures r[j].order == i + 1 {
      assert LastIndex(ids, ids[i]) == i;
    }
    forall a, b | 0 <= a < b < |r| ensures r[a].order != r[b].order && r[a].book != r[b].book {
      assert Books(items)[a] != Books(items)[b];
    }
    assert UniqueBooks(r) by {
      forall a, b | 0 <= a < b < |r| ensures Books(r)[a] != Books(r)[b] {}
    }
    DenseIff(r);
  }

  /** Without the uniqueness check on the request, the service alone accepts a
      repeated id, and the list it leaves is never dense: the last id's book
      takes order `|ids|`, past the end of the list. */
  lemma RepeatedIdsBreakDensity(items: seq<Item>, ids: seq<BookId>)
    requires UniqueBooks(items) && Elems(ids) == BookSet(items) && !Distinct(ids)
    ensures Reorder(items, ids).Ok?
    ensures var r := Reorder(items, ids).value;
      && !Dense(r)
      && exists j :: 0 <= j < |r| && r[j].order == |ids| > |items|
  {
    var r := Reorder(items, ids).value;
    ElemsCard(ids);
    ElemsCard(Books(items));
    var b := ids[|ids| - 1];
    assert b in BookSet(items);
    var j :| 0 <= j < |items| && Books(items)[j] == b;
    assert LastIndex(ids, b) == |ids| - 1;
    assert r[j].order == |ids|;
    DenseIff(r);
  }

  /** The smallest such case: `[1, 1, 2]` on a two-book list gives orders 2
      and 3. */
  lemma RepeatedIdsExample()
    ensures var items := [Item(1, 1), Item(2, 2)];
      && Dense(items)
      && Reorder(items, [1, 1, 2]) == Ok([Item(1, 2), Item(2, 3)])
  {
    var items := [Item(1, 1), Item(2, 2)];
    DenseIff(items);
    assert Elems([1, 1, 2]) == {1, 2} == BookSet(items);
    var r := Reorder(items, [1, 1, 2]).value;
    assert r[0].order == LastIndex([1, 1, 2], 1) + 1 == 2;
    assert r[1].order == LastIndex([1, 1, 2], 2) + 1 == 3;
    assert r == [Item(1, 2), Item(2, 3)];
  }

  /** Adding keeps one row per book. */
  lemma AddKeepsUniqueBooks(items: seq<Item>, book: BookId, position: Option<int>)
    requires UniqueBooks(items)
    ensures AddBook(items, book, position).Ok? ==> UniqueBooks(AddBook(items, book, position).value)
    ensures AddBook(items, book, position).Ok? ==> BookSet(AddBook(items, book, position).value) == BookSet(items) + {book}
  {
    var res := AddBook(items, book, position);
    if res.Ok? {
      var r := res.value;
      var n := |items|;
      forall a, b | 0 <= a < b < |r| ensures Books(r)[a] != Books(r)[b] {
        if b == n {
          assert !Contains(items, book);
        } else {
          assert Books(items)[a] != Books(items)[b];
        }
      }
      forall x ensures x in BookSet(r) <==> x in BookSet(items) + {book} {
        if x in BookSet(r) {
          var a :| 0 <= a < |r| && Books(r)[a] == x;
          if a < n { assert Books(items)[a] == x; }
        }
        if x in BookSet(items) {
          var j :| 0 <= j < n && Books(items)[j] == x;
          assert Books(r)[j] == x;
        }
        assert Books(r)[n] == book;
      }
    }
  }

  /** Removing a book right after adding it gives back the list exactly, whether
      it was appended or inserted at a non-negative position. */
  lemma RemoveUndoesAdd(items: seq<Item>, book: BookId, position: Option<int>)
    requires !Contains(items, book)
    requires position.None? || position.value >= 0
    requires forall i :: 0 <= i < |items| ==> Storable(items[i].order)
    ensures AddBook(items, book, position).Ok?
    ensures RemoveBook(AddBook(items, book, position).value, book) == Ok(items)
  {
    var added := AddBook(items, book, position);
    assert added.Ok? by {
      if position.None? {
        assert Storable(NextOrder(items)) by {
          if |items| > 0 { assert items[0].order < NextOrder(items); }
        }
      }
    }
    var a := added.value;
    var n := |items|;
    assert Contains(a, book) by { assert a[n].book == book; }
    assert IndexOf(a, book) == n;
    var r := RemoveBook(a, book);
    assert r.Ok?;
    var k := a[n].order;
    assert a[..n] + a[n + 1..] == a[..n];
    assert r.value == ShiftDown(a[..n], k);
    forall j | 0 <= j < n ensures r.value[j] == items[j] {
      if position.Some? && items[j].order >= position.value {
        assert a[j].order == items[j].order + 1 > k;
      }
    }
    assert r.value == items;
  }
}
