/** The request checks in front of the list engine: the add, remove and reorder
    request bodies, and what a request that passes them guarantees the engine. */
module ListRequests {
  import opened Results
  import opened Seqs
  import opened ListItems
  import opened ListService
  import opened ListInvariants

  /** A JSON value of the request body. `Int` is anything an integer field
      reads as an integer; `NonInt` is any other scalar. */
  datatype Value = Null | Int(v: int) | NonInt | List(elems: seq<Value>)

  /** The field-level errors of the form framework, and the one the reorder
      form adds. */
  datatype RequestError =
    | Required
    | NotNull
    | NotAnInteger
    | BelowMinimum(min: int)
    | NotAList
    | EmptyList
    | ItemErrors(items: seq<ItemError>)
    | Invalid(message: string)

  datatype ItemError = ItemError(index: nat, error: RequestError)

  /** An error on a named field of the request. */
  datatype Problem = Problem(field: string, error: RequestError)

  /** An integer field. An absent optional field reads as `None`. */
  function IntegerField(input: Option<Value>, required: bool, minValue: Option<int>): (r: Result<Option<int>, RequestError>)
    ensures r.Ok? && r.value.Some? <==>
      input.Some? && input.value.Int? && (minValue.None? || input.value.v >= minValue.value)
    ensures r.Ok? && r.value.Some? ==> r.value.value == input.value.v
    ensures r.Ok? && r.value.None? <==> input.None? && !required
  {
    match input
    case None => if required then Err(Required) else Ok(None)
    case Some(Null) => Err(NotNull)
    case Some(Int(v)) =>
      if minValue.Some? && v < minValue.value then Err(BelowMinimum(minValue.value)) else Ok(Some(v))
    case Some(_) => Err(NotAnInteger)
  }

  function Problems(field: string, r: Result<Option<int>, RequestError>): seq<Problem> {
    if r.Err? then [Problem(field, r.error)] else []
  }

  /** What an add request carries to the service. */
  datatype AddRequest = AddRequest(bookId: BookId, position: Option<int>)

  /** The add request: a required integer `book_id` and an optional integer
      `listing_order` of at least 1. Errors of both fields are reported together. */
  function ValidateAdd(bookId: Option<Value>, listingOrder: Option<Value>): (r: Result<AddRequest, seq<Problem>>)
    ensures r.Ok? <==>
      && bookId.Some? && bookId.value.Int?
      && (listingOrder.None? || (listingOrder.value.Int? && listingOrder.value.v >= 1))
    ensures r.Ok? ==> r.value.bookId == bookId.value.v
    ensures r.Ok? ==> (r.value.position.None? <==> listingOrder.None?)
    ensures r.Ok? && r.value.position.Some? ==> r.value.position.value == listingOrder.value.v >= 1
    ensures r.Err? ==> |r.error| > 0
  {
    var b := IntegerField(bookId, true, None);
    var o := IntegerField(listingOrder, false, Some(1));
    if b.Err? || o.Err? then Err(Problems("book_id", b) + Problems("listing_order", o))
    else Ok(AddRequest(b.value.value, o.value))
  }

  /** The remove request: a required integer `book_id`. */
  function ValidateRemove(bookId: Option<Value>): (r: Result<BookId, seq<Problem>>)
    ensures r.Ok? <==> bookId.Some? && bookId.value.Int?
    ensures r.Ok? ==> r.value == bookId.value.v
  {
    var b := IntegerField(bookId, true, None);
    if b.Err? then Err(Problems("book_id", b)) else Ok(b.value.value)
  }

  /** The integer children of a list field, or the errors of the failing ones,
      each with its index (counted from `offset`). */
  function IntegerItems(elems: seq<Value>, offset: nat): (r: Result<seq<int>, seq<ItemError>>)
    ensures r.Ok? <==> forall i :: 0 <= i < |elems| ==> elems[i].Int?
    ensures r.Ok? ==> |r.value| == |elems| && forall i :: 0 <= i < |elems| ==> r.value[i] == elems[i].v
    ensures r.Err? ==> |r.error| > 0
    decreases |elems|
  {
    if elems == [] then Ok([])
    else
      var head := IntegerField(Some(elems[0]), true, None);
      var rest := IntegerItems(elems[1..], offset + 1);
      if head.Ok? && rest.Ok? then Ok([head.value.value] + rest.value)
      else
        var errs := if head.Err? then [ItemError(offset, head.error)] else [];
        Err(errs + (if rest.Err? then rest.error else []))
  }

  const NotUniqueMessage := "Book IDs must be unique."

  /** The reorder request: `book_ids` is a required, non-empty list of integers
      with no repeated id, returned as given. */
  function ValidateReorder(bookIds: Option<Value>): (r: Result<seq<BookId>, seq<Problem>>)
    ensures r.Ok? <==>
      && bookIds.Some? && bookIds.value.List? && |bookIds.value.elems| > 0
      && (forall i :: 0 <= i < |bookIds.value.elems| ==> bookIds.value.elems[i].Int?)
      && (forall i, j :: 0 <= i < j < |bookIds.value.elems| ==> bookIds.value.elems[i].v != bookIds.value.elems[j].v)
    ensures r.Ok? ==> |r.value| == |bookIds.value.elems| > 0 && Distinct(r.value)
    ensures r.Ok? ==> forall i :: 0 <= i < |r.value| ==> r.value[i] == bookIds.value.elems[i].v
    ensures r.Err? ==> |r.error| == 1 && r.error[0].field == "book_ids"
    ensures bookIds.None? ==> r.error[0].error == Required
    ensures bookIds == Some(Null) ==> r.error[0].error == NotNull
    ensures bookIds.Some? && !bookIds.value.List? && !bookIds.value.Null? ==> r.error[0].error == NotAList
    ensures bookIds == Some(List([])) ==> r.error[0].error == EmptyList
    ensures bookIds.Some? && bookIds.value.List? && (exists i :: 0 <= i < |bookIds.value.elems| && !bookIds.value.elems[i].Int?) ==>
      r.Err? && r.error[0].error.ItemErrors?
    ensures (&& bookIds.Some? && bookIds.value.List? && |bookIds.value.elems| > 0
             && (forall i :: 0 <= i < |bookIds.value.elems| ==> bookIds.value.elems[i].Int?)
             && exists i, j :: 0 <= i < j < |bookIds.value.elems| && bookIds.value.elems[i].v == bookIds.value.elems[j].v)
      ==> r == Err([Problem("book_ids", Invalid(NotUniqueMessage))])
  {
    match bookIds
    case None => Err([Problem("book_ids", Required)])
    case Some(Null) => Err([Problem("book_ids", NotNull)])
    case Some(List(elems)) =>
      if |elems| == 0 then Err([Problem("book_ids", EmptyList)])
      else
        (match IntegerItems(elems, 0)
         case Err(errs) => Err([Problem("book_ids", ItemErrors(errs))])
         case Ok(ids) =>
           ElemsCard(ids);
           if |Elems(ids)| != |ids| then Err([Problem("book_ids", Invalid(NotUniqueMessage))])
           else Ok(ids))
    case Some(_) => Err([Problem("book_ids", NotAList)])
  }

  /** A position that passed the add request never trips the store's check on
      the order column. */
  lemma AcceptedPositionIsStorable(bookId: Option<Value>, listingOrder: Option<Value>, items: seq<Item>)
    requires ValidateAdd(bookId, listingOrder).Ok?
    ensures var req := ValidateAdd(bookId, listingOrder).value;
      req.position.Some? ==> AddBook(items, req.bookId, req.position) != Err(AddFailed)
  {
  }

  /** A reorder request that passed its checks and the service's set check is a
      permutation of the list: the result is dense, one row per book, and
      `book_ids[i]` is at order `i + 1`. */
  lemma AcceptedReorderIsDense(bookIds: Option<Value>, items: seq<Item>)
    requires ValidateReorder(bookIds).Ok?
    requires UniqueBooks(items)
    requires Reorder(items, ValidateReorder(bookIds).value).Ok?
    ensures var ids := ValidateReorder(bookIds).value;
      var r := Reorder(items, ids).value;
      && |ids| == |items|
      && Dense(r) && UniqueBooks(r)
      && forall i, j :: 0 <= i < |ids| && 0 <= j < |r| && r[j].book == ids[i] ==> r[j].order == i + 1
  {
    var ids := ValidateReorder(bookIds).value;
    ReorderPermutationIsDense(items, ids);
    ElemsCard(ids);
    ElemsCard(Books(items));
  }
}
