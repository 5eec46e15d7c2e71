# Reading-list ordering engine of bookshelf_api, in Dafny

bookshelf_api is a Django REST service for books, users and reading lists. This
project models the engine that keeps the books of a reading list in order, and
the request validators in front of it:

- **Items** (`items.dfy`, module `ListItems`): a reading list is a sequence of
  rows `Item(book, order)`. Here `order` stands for the `listing_order` column.
  The intended invariant has two parts. `Dense` says the orders are exactly
  `1..n`, and `UniqueBooks` says each book has one row. `DenseIff` shows that
  `Dense` is the same as "every order is in range and no two orders are equal".
- **Service** (`service.dfy`, module `ListService`): adding a book appends it or
  inserts it at a position. Removing a book closes the gap it leaves. Reordering
  takes a full sequence of book ids. Each operation returns the new list or a
  `ListError`. On every modelled error the list is unchanged. Add writes inside
  a transaction that rolls back on failure. Remove and reorder raise their errors
  before they write anything.
  `AddBook` is the service as it behaves when given the book's row. The add view
  actually passes the integer id instead; `AddBookById` models that call (see
  "## Findings").
- **Density** (`density.dfy`, module `ListInvariants`): which calls keep a dense
  list dense, and which inputs break it.
- **Pagination** (`pagination.dfy`, module `ListPagination`): the read view sorts
  the items by order and cuts them into pages, following the rules of Django's
  `Paginator`.
- **Requests** (`requests.dfy`, module `ListRequests`): the add, remove and
  reorder request checks, and what a request that passes them guarantees the
  service.
- **Sessions** (`sessions.dfy`, module `ListSessions`): any sequence of
  well-placed calls keeps the invariant. A call is well placed when it is a
  remove, a reorder without repeated ids, or an add whose position is absent or
  in `1..n+1`. Also holds a few worked examples.
- **Form fields** (`fields.dfy`, module `FormFields`): the string field of the
  form framework that runs before a form's own validator. It trims the value and
  refuses a blank one. Then it collects the errors of the field's checks:
  uniqueness against stored values, maximum and minimum length, and null
  characters.
- **Book upload** (`bookupload.dfy`, module `BookUpload`): the validators for
  title, pages, published date, cover image and genre, and the title and genre
  fields that run two of them.
- **Registration** (`registration.dfy`, module `Registration`): the validators
  for username, email and password, and the username and password fields that
  run them.
- **Support modules:**
  - `Results`: `Option` and `Result`.
  - `Seqs`: element sets, distinctness, cardinality and last occurrence.
  - `Text`: character classes and the whitespace strip of Python's `str.strip`.

The database, the clock and the image decoder are parameters:

- the list's rows are passed in and returned;
- the stored book titles and the stored usernames are each a `set<string>`;
- today's date is a `Date`;
- the decoder's verdict is a `Decoded` value.

Behaviour that comes from the database is written out explicitly:

- The order column only holds non-negative integers. A negative insert position
  is an integrity error, which rolls the whole insert back (`AddFailed`).
- Removing a book looks up exactly one row. If the book has two rows, the lookup
  fails and the service reports an internal error (`RemoveFailed`).
- Reordering runs one update per id in sequence. If an id appears twice, its
  last position wins.

## Model

| member | source | states |
|---|---|---|
| ListService.AddBook | bookshelf_api/reading_lists/services.py:20-39 | a book already in the list is refused; with no position the new item goes after the current maximum (order 1 on an empty list) and no other item changes; with position p, every item at p or later moves up one, the rest are untouched, and the new item takes p; a negative p fails the store's check and nothing changes |
| ListService.AddBookById | bookshelf_api/reading_lists/views.py:89-91 | the add view passes the integer id: a listed book is still refused as a duplicate, and any other book fails with an error the service does not catch, so no book is ever added |
| ListService.AddByIdNeverAdds | bookshelf_api/reading_lists/views.py:89-91 | whenever the service given the book's row would add a new book, the call the view makes fails instead |
| ListService.NextOrder | bookshelf_api/reading_lists/services.py:33-34 | the append order is greater than every existing order, is one past some existing order, and is 1 for an empty list |
| ListService.RemoveBook | bookshelf_api/reading_lists/services.py:41-53 | a book with no row is `NotInList`; a book with two or more rows is `RemoveFailed` ("Internal server error") exactly; the call succeeds exactly when the book has exactly one row, so a book with exactly one row is removed; the book is then gone, every other item keeps its book, and the items ordered after it move down one |
| ListService.AssignAll | bookshelf_api/reading_lists/services.py:62-64 | the sequential updates of the reorder loop give each listed book its position counted from the start number, the last position winning for a repeated id; unlisted books are untouched |
| ListService.Reorder | bookshelf_api/reading_lists/services.py:55-64 | the call fails with `IdsMismatch` exactly when the ids, as a set, differ from the list's books, and succeeds otherwise; on success the set of books is unchanged and each book's order is one more than its last index in the ids |
| ListService.Message | bookshelf_api/reading_lists/services.py:23-80 | each error the model raises carries its text ("Book already in list.", "Failed to add book to list due to an unexpected error.", "Book not in list.", "Internal server error", "Provided book IDs do not match the list.", "Page not found."); the paginator fault and the uncaught add error carry none |
| ListService.MessagesDistinct | bookshelf_api/reading_lists/services.py:23-80 | no two caught errors share a text, so the text identifies the error |
| ListItems.DenseIff | bookshelf_api/reading_lists/models.py:13-16 | a list's orders being exactly `1..n` is equivalent to every order lying in `1..n` with no two orders equal |
| ListInvariants.AppendKeepsDense | bookshelf_api/reading_lists/services.py:32-35 | appending a new book to a dense list succeeds, gives it order n+1, and keeps the list dense |
| ListInvariants.InsertKeepsDense | bookshelf_api/reading_lists/services.py:26-31 | inserting a new book at a position in `1..n+1` of a dense list succeeds and keeps it dense |
| ListInvariants.InsertPastEndLeavesGap | bookshelf_api/reading_lists/services.py:26-31 | inserting at a position beyond n+1 is accepted, but the result is not dense: no item has order n+1 |
| ListInvariants.RemoveKeepsDense | bookshelf_api/reading_lists/services.py:41-47 | removing a present book from a dense list with one row per book succeeds; the result is dense, still has one row per book, and holds exactly the other books |
| ListInvariants.DeleteCompactKeepsDense | bookshelf_api/reading_lists/services.py:45-47 | deleting any row of a dense list and moving every later order down one gives a dense list |
| ListInvariants.DeleteKeepsUniqueBooks | bookshelf_api/reading_lists/services.py:45-47 | the delete-and-compact step keeps one row per book, and the removed book is the only one that disappears |
| ListInvariants.ReorderPermutationIsDense | bookshelf_api/reading_lists/services.py:58-64 | reordering by a repeat-free sequence of exactly the list's books succeeds; the result is dense with one row per book, and `ids[i]` has order i+1 |
| ListInvariants.RepeatedIdsBreakDensity | bookshelf_api/reading_lists/services.py:60-64 | on a one-row-per-book list, every id sequence that repeats an id but passes the set check is accepted and leaves a list that is not dense: the last id's book gets order `len(ids)`, past the end of the list |
| ListInvariants.RepeatedIdsExample | bookshelf_api/reading_lists/services.py:60-64 | ids `[1, 1, 2]` on a dense two-book list give orders 2 and 3 |
| ListInvariants.AddKeepsUniqueBooks | bookshelf_api/reading_lists/services.py:22-35 | a successful add keeps one row per book and adds exactly the new book |
| ListInvariants.RemoveUndoesAdd | bookshelf_api/reading_lists/services.py:20-53 | when the store accepts all orders and the position, adding an absent book and then removing it gives back exactly the original list |
| ListPagination.SortByOrder | bookshelf_api/reading_lists/services.py:75 | the read view's items are sorted by order and are a permutation of the rows |
| ListPagination.NumPages | bookshelf_api/reading_lists/services.py:76 | the page count is at least 1 and is exactly 1 for an empty list; the pages cover every item, and the last page is not empty when there are items |
| ListPagination.NumPagesIsCeiling | bookshelf_api/reading_lists/services.py:76 | for a non-empty list, the page count is the ceiling of count divided by size |
| ListPagination.Paginate | bookshelf_api/reading_lists/services.py:73-81 | a page is returned exactly when the size is positive and the number is in `1..NumPages`; a number below 1, any negative size, or a number above the page count is "Page not found."; a zero size faults; a found page is the slice of the sorted items from `(page-1)*size`, holding `min(size, remaining)` items, with the count, the number, the page count, and whether a next or previous page exists |
| ListPagination.EmptyListFirstPage | bookshelf_api/reading_lists/services.py:76-80 | an empty list has page 1, with no items and no next or previous page, and page 2 is "Page not found." |
| ListPagination.SortedDenseIsIdentity | bookshelf_api/reading_lists/services.py:75 | a dense list, once sorted, has order i+1 at index i |
| ListPagination.DensePageOrders | bookshelf_api/reading_lists/services.py:73-81 | on a dense list, item k of page p has order `(p-1)*size + k + 1` |
| ListPagination.EveryItemOnAPage | bookshelf_api/reading_lists/services.py:73-81 | every item of the sorted list is found on its page, at its offset |
| ListRequests.IntegerField | bookshelf_api/reading_lists/serializers.py:33-34 | an integer field yields a value exactly when an integer at or above the minimum is given; an absent field yields nothing exactly when it is optional |
| ListRequests.ValidateAdd | bookshelf_api/reading_lists/serializers.py:32-34 | an add request is accepted exactly when `book_id` is an integer and `listing_order` is absent or an integer of at least 1; the accepted values are the given ones |
| ListRequests.ValidateRemove | bookshelf_api/reading_lists/serializers.py:37-38 | a remove request is accepted exactly when `book_id` is an integer, and carries that integer |
| ListRequests.IntegerItems | bookshelf_api/reading_lists/serializers.py:42 | a list of values becomes integers exactly when every child is an integer, keeping order and values |
| ListRequests.ValidateReorder | bookshelf_api/reading_lists/serializers.py:41-47 | a reorder request is accepted exactly when `book_ids` is a non-empty list of integers with no repeats, and the ids come back in the order given; a missing, null, non-list or empty value and a non-integer child each get their field error, and a list of integers with a repeat gets "Book IDs must be unique." |
| ListRequests.AcceptedPositionIsStorable | bookshelf_api/reading_lists/serializers.py:34 | a position that passes the add request never trips the store's check on the order column |
| ListRequests.AcceptedReorderIsDense | bookshelf_api/reading_lists/serializers.py:41-47 | ids that pass the reorder request and the service's set check reorder a one-row-per-book list into a dense one, with `book_ids[i]` at order i+1 |
| ListSessions.StepKeepsInvariant | bookshelf_api/reading_lists/services.py:20-64 | one well-placed call keeps a dense, one-row-per-book list that way, whether the call succeeds or fails; well placed means a remove, a reorder without repeated ids (the request check), or an add at no position or a position in `1..n+1` (narrower than the request check, which admits any position from 1) |
| ListSessions.RunKeepsInvariant | bookshelf_api/reading_lists/services.py:20-64 | any sequence of well-placed calls keeps the list dense with one row per book; insert positions are limited to `1..n+1`, which the request check does not enforce |
| ListSessions.InsertExample | bookshelf_api/reading_lists/services.py:26-31 | inserting D at position 2 of A, B, C gives A:1, D:2, B:3, C:4 |
| ListSessions.RemoveExample | bookshelf_api/reading_lists/services.py:44-47 | removing B from A, B, C gives A:1, C:2 |
| ListSessions.ReorderExamples | bookshelf_api/reading_lists/services.py:58-64 | reordering A, B, C by ids missing B is refused; reordering by C, A, B gives C:1, A:2, B:3 |
| Text.Strip | bookshelf_api/books/serializers.py:42 | the result is a slice of the input where everything before and after it is whitespace, and a non-empty result neither starts nor ends with whitespace |
| Text.StripUnique | bookshelf_api/books/serializers.py:42 | any slice with only whitespace outside it and no whitespace at its ends is the strip: the strip is determined by the input |
| Text.StripIdempotent | bookshelf_api/books/serializers.py:42 | stripping twice is stripping once |
| Text.StripEmptyIff | bookshelf_api/books/serializers.py:42-43 | the stripped value is empty exactly when the input is all whitespace |
| FormFields.FieldChecks | bookshelf_api/users/serializers.py:9-17 | a string field's checks report, together, a stored value of a unique column, a value over the maximum or under the minimum length, and a null character; they report nothing exactly when none of these holds |
| FormFields.CharField | bookshelf_api/users/serializers.py:9-17 | a blank value is refused; otherwise the trimmed value's check errors are reported if there are any; only a value that passes them reaches the form's own validator, whose result is passed on |
| BookUpload.ValidateTitle | bookshelf_api/books/serializers.py:41-47 | a blank title is refused; the stripped title is refused when it is already stored, and returned otherwise |
| BookUpload.UploadTitle | bookshelf_api/books/serializers.py:33-47 | the title field accepts exactly a trimmed title that is not blank, not stored, at most 255 characters and free of null characters, and returns it trimmed; a stored title is refused by the field's unique check, so the validator's own refusals never surface |
| BookUpload.TitleTakenAfterStore | bookshelf_api/books/serializers.py:45-46 | once an accepted title is stored, the same input is refused as taken |
| BookUpload.AcceptedTitleIsStable | bookshelf_api/books/serializers.py:41-47 | an accepted title neither starts nor ends with whitespace, and validating it again returns it unchanged |
| BookUpload.ValidatePages | bookshelf_api/books/serializers.py:49-52 | a page count is accepted, unchanged, exactly when it is at least 1 |
| BookUpload.ValidatePublishedDate | bookshelf_api/books/serializers.py:54-57 | a date is accepted, unchanged, exactly when it is not after today |
| BookUpload.PublishedDateStaysValid | bookshelf_api/books/serializers.py:54-57 | a date accepted today is accepted on every later day |
| BookUpload.ValidateCoverImage | bookshelf_api/books/serializers.py:59-99 | within the validator, a file over 5 MiB is refused before the validator decodes it; otherwise the image is accepted exactly when it decodes to one of JPEG, PNG, GIF, WEBP, BMP, TIFF, with the decoder's reason or the detected format in the error |
| BookUpload.CoverSizeBoundary | bookshelf_api/books/serializers.py:60-62 | exactly 5242880 bytes passes the size check, and 5242881 does not |
| BookUpload.ValidateGenre | bookshelf_api/books/serializers.py:101-107 | a genre is accepted exactly when its stripped form is non-empty and at most 100 characters, and the stripped form is returned |
| BookUpload.UploadGenre | bookshelf_api/books/serializers.py:27 | the genre field accepts exactly a trimmed genre that is not blank, at most 100 characters and free of null characters; an over-long genre is refused by the field's length check, so the messages of `validate_genre` (lines 101-107) never surface |
| BookUpload.GenreIdempotent | bookshelf_api/books/serializers.py:101-107 | validating an accepted genre again gives the same result |
| Registration.ValidateUsername | bookshelf_api/users/serializers.py:19-23 | a username is accepted exactly when its stripped form is non-empty and only letters and whitespace; the stripped form is returned, and it starts and ends with a letter |
| Registration.ScanEmailBodyIff | bookshelf_api/users/serializers.py:26 | scanning for the first `@` and the last dot decides the email pattern exactly |
| Registration.ValidateEmail | bookshelf_api/users/serializers.py:25-28 | an email is accepted, unchanged, exactly when it matches the anchored pattern |
| Registration.FirstMissing | bookshelf_api/users/serializers.py:32-39 | the first character class the password lacks, with every earlier class present; none exactly when all are present |
| Registration.ValidatePassword | bookshelf_api/users/serializers.py:30-40 | the stripped password is accepted exactly when it has an uppercase letter, a lowercase letter, a special character and a digit; otherwise the error names the first missing class in that order |
| Registration.SpecialExcludesLettersDigitsSpaces | bookshelf_api/users/serializers.py:36 | no letter, digit or whitespace character is in the special-character class |
| Registration.RegisterUsername | bookshelf_api/users/serializers.py:16-23 | a username is registered exactly when, after trimming, it is not blank, not already taken, 4 to 150 characters long, and only letters and whitespace; it is then the trimmed input, starting and ending with a letter |
| Registration.RegisterPassword | bookshelf_api/users/serializers.py:9-40 | a password is accepted exactly when, after trimming, it is not blank, at least 8 characters long, has no null character, and has an uppercase letter, a lowercase letter, a special character and a digit; it is then the trimmed input; a null character is always reported |
| Registration.NullPasswordRefused | bookshelf_api/users/serializers.py:9 | `Abcdef1!` followed by a null character meets every class but is refused by the field with the null-character error alone |

## Left out

- HTTP views, URL routing, authentication and settings are not modelled. The model starts where a view calls the service or the form. The one exception is the add view's call, which `AddBookById` models.
- Reading-list creation and renaming, list ownership, and the book and user services, including slug generation and the password hashing behind registration, are not modelled.
- ListService.AddBook: models the service as if it were given the book's row, so whether the book exists is not modelled. The add view does not look the book up; see "## Findings". The remove view does look it up, and an unknown book there is answered before the service runs; that lookup is not modelled either.
- Concurrent requests are not modelled: each call runs alone.
- ListService.RemoveBook: the removal is two statements, each committed on its own. The delete is not inside a transaction, and commits before the update that moves the later orders down. A store failure between the two would leave a gap in the orders; that failure is not modelled.
- ListService.AddBook: the order column is modelled as an unbounded non-negative integer. The database's 32-bit upper bound on that column is not modelled.
- The integer fields of the request bodies do not parse strings. A value reads either as an integer or as something else (`Int` or `NonInt`), so the coercion rules for strings, floats and booleans are not modelled.
- ListService.Reorder: store failures during the update loop are not modelled. They are the only way to reach "Failed to reorder list due to an unexpected error" (bookshelf_api/reading_lists/services.py:69-71); such a failure rolls the loop back inside its transaction, so the list would be left unchanged.
- ListPagination.Paginate: follows Django releases whose page check refuses every page number above the page count. Releases that still let page 1 through when it exceeds the page count would, with a negative size, fail on page 1 on the negative slice bound instead of reporting "Page not found.".
- ListPagination.SortByOrder: the order among items with equal orders is not specified. The query sorts only on the order column, so the database is free to order ties any way.
- Text: character classes are ASCII, except that whitespace also covers the four separator characters U+001C to U+001F. Python's Unicode-wide `str.isspace`, `\s` and `\w` are approximated by these classes.
- FormFields.CharField: the string field's surrogate-character check is not modelled. A Dafny `char` is a Unicode scalar value, which is never a surrogate, so the check has nothing to refuse.
- Registration.ValidateEmail: only the form's own email validator is modelled. The email field's pipeline is not: its Django email validator is a separate, larger pattern with domain rules, and its uniqueness check against stored emails is left out with it.
- BookUpload.ValidatePages: models the form's own page check on the integer it receives. The integer field the form derives from the positive-integer `pages` column (bookshelf_api/books/models.py:23) is not modelled: it has minimum 0 and maximum 2147483647 and refuses a negative or larger value with its own error before the check runs. So "Pages cannot be less than 1" is only ever the answer for 0.
- BookUpload.ValidateCoverImage: models the cover validator on the file it receives. The form's image field (books/serializers.py:26) is not modelled. That field already opens and verifies the upload with the image library before the validator runs. So an over-size file is decoded anyway, and an unreadable file is usually refused by the field's own invalid-image error before the validator's "Invalid image file" branch is reached. Image decoding is abstracted to the decoder's verdict, a format name or an error reason. The file-position bookkeeping has no effect on the result and is not modelled.

## Findings

| source | as written | input that shows it | evidently intended | confidence | as-written member | corrected member |
|---|---|---|---|---|---|---|
| bookshelf_api/reading_lists/views.py:89-91 | the add view passes the integer `book_id` to `add_book_to_list`, which creates the row with `book=<int>` (services.py:31, 35); a foreign key accepts only a `Books` instance there, so the create raises `ValueError`, which escapes the `IntegrityError` handler at services.py:37 and is answered "Internal server error" | `POST {"book_id": 5}` for a book 5 not yet in the list | look the book up first, as the remove view does at views.py:116 (the add view's `Books.DoesNotExist` handler at views.py:97 expects that lookup), and pass the row | high, not executed | ListService.AddBookById, ListService.AddByIdNeverAdds | ListService.AddBook |
