/** A list as a sequence of service calls: each call either commits its change
    or fails before changing the list (or, for add, rolls its changes back). */
module ListSessions {
  import opened Results
  import opened Seqs
  import opened ListItems
  import opened ListService
  import opened ListInvariants

  datatype Op =
    | Add(book: BookId, position: Option<int>)
    | Remove(book: BookId)
    | Reordering(ids: seq<BookId>)

  function Call(items: seq<Item>, op: Op): Result<seq<Item>, ListError> {
    match op
    case Add(book, position) => AddBook(items, book, position)
    case Remove(book) => RemoveBook(items, book)
    case Reordering(ids) => Reorder(items, ids)
  }

  /** The list after one call: the new list, or the old one if the call failed. */
  function Step(items: seq<Item>, op: Op): (r: seq<Item>)
    ensures Call(items, op).Err? ==> r == items
    ensures Call(items, op).Ok? ==> r == Call(items, op).value
  {
    match Call(items, op)
    case Ok(after) => after
    case Err(_) => items
  }

  function Run(items: seq<Item>, ops: seq<Op>): seq<Item>
    decreases |ops|
  {
    if ops == [] then items else Run(Step(items, ops[0]), ops[1..])
  }

  /** The call is one the request checks let through, with an insert position
      no further than one past the end. */
  predicate WellPlaced(items: seq<Item>, op: Op) {
    match op
    case Add(_, position) => position.None? || 1 <= position.value <= |items| + 1
    case Remove(_) => true
    case Reordering(ids) => Distinct(ids)
  }

  predicate AllWellPlaced(items: seq<Item>, ops: seq<Op>)
    decreases |ops|
  {
    ops == [] || (WellPlaced(items, ops[0]) && AllWellPlaced(Step(items, ops[0]), ops[1..]))
  }

  /** One well-placed call keeps a dense list with one row per book dense with
      one row per book, whether it succeeds or fails. */
  lemma StepKeepsInvariant(items: seq<Item>, op: Op)
    requires Dense(items) && UniqueBooks(items) && WellPlaced(items, op)
    ensures Dense(Step(items, op)) && UniqueBooks(Step(items, op))
  {
    match op
    case Add(book, position) =>
      AddKeepsUniqueBooks(items, book, position);
      if !Contains(items, book) {
        if position.None? {
          AppendKeepsDense(items, book);
        } else {
          InsertKeepsDense(items, book, position.value);
        }
      }
    case Remove(book) =>
      if Contains(items, book) {
        RemoveKeepsDense(items, book);
      }
    case Reordering(ids) =>
      if Elems(ids) == BookSet(items) {
        ReorderPermutationIsDense(items, ids);
      }
  }

  /** The density invariant over any run of well-placed calls. */
  lemma {:induction false} RunKeepsInvariant(items: seq<Item>, ops: seq<Op>)
    requires Dense(items) && UniqueBooks(items) && AllWellPlaced(items, ops)
    ensures Dense(Run(items, ops)) && UniqueBooks(Run(items, ops))
    decreases |ops|
  {
    if ops != [] {
      StepKeepsInvariant(items, ops[0]);
      RunKeepsInvariant(Step(items, ops[0]), ops[1..]);
    }
  }

  /** Books A, B, C (ids 10, 20, 30) at orders 1, 2, 3. */
  const ABC: seq<Item> := [Item(10, 1), Item(20, 2), Item(30, 3)]

  /** Inserting D (id 40) at 2 gives A:1, B:3, C:4, D:2. */
  lemma InsertExample()
    ensures AddBook(ABC, 40, Some(2)) == Ok([Item(10, 1), Item(20, 3), Item(30, 4), Item(40, 2)])
  {
    assert !Contains(ABC, 40);
    var r := AddBook(ABC, 40, Some(2)).value;
    assert r[0] == ABC[0];
    assert r[1] == Item(ABC[1].book, ABC[1].order + 1);
    assert r[2] == Item(ABC[2].book, ABC[2].order + 1);
    assert r[3] == Item(40, 2);
    assert r == [Item(10, 1), Item(20, 3), Item(30, 4), Item(40, 2)];
  }

  /** Removing B gives A:1, C:2. */
  lemma RemoveExample()
    ensures RemoveBook(ABC, 20) == Ok([Item(10, 1), Item(30, 2)])
  {
    assert Contains(ABC, 20) by { assert ABC[1].book == 20; }
    assert IndexOf(ABC, 20) == 1;
    assert UniqueBooks(ABC) by { assert Books(ABC) == [10, 20, 30]; }
    var r := RemoveBook(ABC, 20).value;
    assert |r| == 2;
    assert r[0].book == 10 && r[0].order == 1;
    assert r[1].book == 30 && r[1].order == 2;
    assert r == [Item(10, 1), Item(30, 2)];
  }

  /** Reordering with [C, A] fails; with [C, A, B] it gives C:1, A:2, B:3. */
  lemma ReorderExamples()
    ensures Reorder(ABC, [30, 10]) == Err(IdsMismatch)
    ensures Reorder(ABC, [30, 10, 20]) == Ok([Item(10, 2), Item(20, 3), Item(30, 1)])
  {
    assert Books(ABC) == [10, 20, 30];
    assert 20 in BookSet(ABC) && 20 !in Elems([30, 10]);
    assert Elems([30, 10, 20]) == BookSet(ABC);
    assert LastIndex([30, 10, 20], 10) == 1;
    assert LastIndex([30, 10, 20], 20) == 2;
    assert LastIndex([30, 10, 20], 30) == 0;
    var r := Reorder(ABC, [30, 10, 20]).value;
    assert r[0].book == 10 && r[0].order == 2;
    assert r[1].book == 20 && r[1].order == 3;
    assert r[2].book == 30 && r[2].order == 1;
    assert r == [Item(10, 2), Item(20, 3), Item(30, 1)];
  }
}
