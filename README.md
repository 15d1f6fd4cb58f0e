# Biblioteca: a verified model of the reading-platform backend

This project models the rules at the heart of a small Django REST backend for a
reading platform. Authors publish books made of pages. Readers keep one reading
state per book: favourite, pending-to-read, last page read and a rating.

The model replaces the ORM with one in-memory store. The class `Models.Db` holds
every table as a sequence in insertion order. Auto-increment keys are issued in
ascending order and never reused, so table order is also id order. The store's
invariant `Db.Valid()` states that for all five tables (profiles, books, pages,
reading states and Django accounts), together with at most one reading state per
(user, book) pair. A request's token becomes an optional caller id (`Caller`).
An HTTP error is `Err(status)`, where the statuses are 401, 403, 404 and 400.

The modules follow the source's apps:

- `Books` (libro) covers the derived fields of a book view. These are the
  1-based position of the last page read, the "finished" flag, the total page
  count and the average rating. It also covers book visibility (public or
  owner), the views the six list and detail handlers return, the ownership guard
  and the partial update of a book. The list handlers' loops are methods proved
  against specification functions (`Views`, `VisibleBooks`, `FlaggedViews`).
- `ReadingStates` (acciones_usuario) lists, reads, creates, partially updates
  and deletes reading states.
- `Pages` (pagina) covers the page-ownership guard and the page CRUD
  operations. Deleting a page sets the last-page reference of every reading
  state that pointed at it to null.
- `Users` (usuario) covers login, the partial profile update, and the
  once-only superuser creation. That creation splits the full name the way
  Python's `str.split()` and `" ".join` do.
- `Ordering` is the descending sort behind `order_by("-updated_at")` and
  `order_by("-created_at")`.

Timestamps are abstract natural-number keys. `Db.clock` supplies the value a
save stamps into a reading state's `updated`.

## Model

| member | source | states |
|---|---|---|
| Base.KeyIndex | libro/routes.py:53 | the first position whose key is the given id, or None exactly when no row has that key; the book, page, state and user lookups all go through it |
| Models.FindBook | libro/routes.py:53 | `get_object_or_404(Libro, id=...)`: the book with that id, or None exactly when no book has it |
| Models.PairIndex | libro/routes.py:89 | `.first()` of the caller's records for a book: the lowest position holding that (user, book), or None when there is none |
| Models.FindState | acciones_usuario/routes.py:58-62 | the caller's record for the book, or None exactly when no record has that (user, book) |
| Ordering.SortDesc | acciones_usuario/routes.py:26 | `order_by("-updated_at")` and `order_by("-created_at")`; stated by SortDescSorted and SortDescMembers |
| Ordering.SortDescSorted | acciones_usuario/routes.py:22-27 | the descending sort orders by non-increasing key and is a permutation of its input |
| Ordering.SortDescMembers | libro/routes.py:195-199 | the sorted list holds exactly the elements of its input |
| Books.PageIdsOf | libro/routes.py:35 | the ids of the book's pages in table order; its members and order are stated by PageIdsOfMembers and PageIdsAscending |
| Books.PageCount | libro/routes.py:93 | the number of the book's pages; FinishedIffHighestPage and ViewOfFields state its use |
| Books.Visible | libro/routes.py:78 | the privacy test of the list and detail handlers: the book is public or the caller is its owner (also lines 259-260 and 495) |
| Books.PositiveRatings | libro/routes.py:22-25 | the ratings above 0 of the book's records; stated by PositiveRatingsFacts |
| Books.PageIdsOfMembers | libro/routes.py:35 | the book's page ids are exactly the ids of its pages |
| Books.PageIdsAscending | libro/routes.py:35 | in a valid store the book's page ids are strictly ascending, as `order_by('id')` gives them |
| Books.IndexOf | libro/routes.py:37-41 | `list.index`: the first position of the id, or None exactly when it is absent (the ValueError case) |
| Books.PageNumber | libro/routes.py:30-41 | the page position is absent without a page id and absent exactly when the id is not one of the book's pages; when present, p lies in 1..total and the id at index p-1 is the given id |
| Books.Finished | libro/routes.py:94 | "finished" holds iff the book has pages, a position is known and the position is at least the page count |
| Books.FinishedIffHighestPage | libro/routes.py:92-94 | "finished" holds iff the last page read is one of the book's pages with the highest id |
| Books.AverageRating | libro/routes.py:20-27 | `calcular_calificacion_promedio`: the mean of the ratings above 0; its meaning is stated by AverageRatingBounds and UnratedRecordKeepsAverage |
| Books.PositiveRatingsFacts | libro/routes.py:22-25 | only ratings above 0 are kept, and none are kept iff the book is unrated |
| Books.AverageRatingBounds | libro/routes.py:20-27 | the average is absent iff no rating above 0 exists; otherwise it is their mean and lies between the smallest and the largest such rating |
| Books.PositiveRatingsAppend | libro/routes.py:22-25 | the positive ratings of two tables together are those of the first followed by those of the second |
| Books.UnratedRecordKeepsAverage | libro/routes.py:22-25 | adding a rating of 0 (or a record of another book) leaves the average unchanged |
| Books.BareView | libro/routes.py:80-87 | the view with every per-reader field None and the book's average; stated by ViewOfFields |
| Books.StateView | libro/routes.py:88-96 | the view built from the caller's record; stated by ViewOfFields and ViewFinishedIffHighestPage |
| Books.ViewOf | libro/routes.py:80-96 | one book's view for a caller; its fields are stated by ViewOfFields |
| Books.ViewOfFields | libro/routes.py:80-96 | the per-reader fields are all None without a caller or without a record for (caller, book); otherwise they come from that record, and the position lies within the page count |
| Books.ViewFinishedIffHighestPage | libro/routes.py:88-96 | in a view, "finished" is true iff the caller's record's last page is the book's highest-id page |
| Books.Views | libro/routes.py:101-123 | the views of a list of books, one per book; stated by ViewsPerBook and ViewsSnoc |
| Books.ViewsPerBook | libro/routes.py:101-123 | the result holds exactly one view per listed book, in the same order |
| Books.VisibleBooks | libro/routes.py:68-78 | the books the caller may see, in table order; stated by VisibleBooksMembers |
| Books.VisibleBooksMembers | libro/routes.py:68-78 | the listed books are exactly the public books and the caller's own books, in ascending id order |
| Books.ListBooks | libro/routes.py:61-124 | the loop's result is the views of the books visible to the caller, in table order |
| Books.ListedBooksExactlyVisible | libro/routes.py:71-78 | `list_libros` lists every book that is public or the caller's and no other, in ascending id order; an anonymous caller sees only public books |
| Books.BuildViews | libro/routes.py:141-184 | the shared append loop yields the view of every book of the queryset, in order |
| Books.ListBooksAuthenticated | libro/routes.py:127-185 | 401 without a caller; otherwise the caller's views of all public books in id order |
| Books.OwnedBooks | libro/routes.py:197 | exactly the caller's books, public or private |
| Books.MyBooks | libro/routes.py:188-247 | 401 without a caller; otherwise the views of the caller's books, newest first |
| Books.Flagged | libro/routes.py:484-489 | exactly the caller's reading states with the favourite (or pending) flag set |
| Books.EntryFor | libro/routes.py:493-500 | a record yields an entry iff its book exists and is public or the caller's, and the entry is built from that record |
| Books.FlaggedViews | libro/routes.py:491-525 | the entries of a list of records, one per record whose book is visible; stated by FlaggedViewsMembers |
| Books.FlaggedViewsMembers | libro/routes.py:491-525 | every entry comes from one of the records, and every record whose book is visible contributes its entry |
| Books.BuildFlaggedViews | libro/routes.py:491-525 | the loop with its inline visibility test yields the entries of the records, in order |
| Books.ListFlagged | libro/routes.py:476-577 | 401 without a caller; otherwise the entries of the caller's flagged records, most recently updated first |
| Books.FlaggedListFromCallerRecords | libro/routes.py:487-495 | every favourite or pending entry comes from a record of the caller with that flag, for a book that is public or the caller's |
| Books.GetBook | libro/routes.py:250-305 | 404 iff no such book; 403 iff the book is private and the caller is not its owner; success iff the book exists and is public or the caller's, and then it is the caller's view of it |
| Books.ListBooksAsRouted | libro/routes.py:61-66 | as routed, with no authentication on the route: only public books, with every per-reader field None, whoever calls |
| Books.GetBookAsRouted | libro/routes.py:250-261 | as routed: 404 iff no such book; 403 iff the book is private, whoever calls, its owner included; success iff the book exists and is public, with no per-reader fields |
| Books.OwnerLockedOutAsRouted | libro/routes.py:250-261 | the owner of a private book gets 403 from get_libro as routed and does not see the book in list_libros, where the caller-aware handlers return it |
| Books.RequireOwnership | libro/routes.py:44-58 | 401 without a caller, then 404 iff the book is missing, 403 iff the book exists and the caller is not its owner; it lets the call through iff the caller owns the book |
| Books.ApplyBookPatch | libro/routes.py:390-403 | each field sent replaces the stored one; every other field, the id, the owner and the creation time are kept |
| Books.UpdateBook | libro/routes.py:378-403 | on a guard failure the status is returned and nothing changes; otherwise only that book changes, field by field as sent |
| ReadingStates.OwnedStates | acciones_usuario/routes.py:25 | exactly the caller's records |
| ReadingStates.ListMyStates | acciones_usuario/routes.py:15-43 | 401 iff no caller; success iff there is a caller, with exactly the caller's records, most recently updated first |
| ReadingStates.GetStateByBook | acciones_usuario/routes.py:48-75 | 401 without a caller; 404 iff the book or the caller's record for it is missing; success iff both exist, with that record, the only one for the pair in a valid store |
| ReadingStates.DefaultStateIn | acciones_usuario/schemas.py:6-11 | the schema defaults: not a favourite, no page read, not pending, rating 0; stated by DefaultRecordKeepsAverage |
| ReadingStates.DefaultRecordKeepsAverage | acciones_usuario/schemas.py:6-11 | a record created from the defaults is not a favourite, not pending, has no page and leaves every book's average unchanged |
| ReadingStates.AppendNewPairKeepsUnique | acciones_usuario/routes.py:89-99 | inserting only when the pair has no record keeps at most one record per (user, book) |
| ReadingStates.CreateState | acciones_usuario/routes.py:78-114 | 401, then 404 for an unknown book, then 400 for an existing record, with the table, the id counter and the clock unchanged in each case; otherwise exactly one record built from the payload is appended |
| ReadingStates.ApplyStatePatch | acciones_usuario/routes.py:132-140 | each field sent (not None) replaces the stored one; every other field is kept |
| ReadingStates.UpdateStateByBook | acciones_usuario/routes.py:116-155 | 401; 404 iff the book or the record is missing, with neither the table nor the clock changed; success iff both exist, and then only that record changes, field by field as sent, and is stamped as updated |
| ReadingStates.ReplaceKeepsOrderAndUnique | acciones_usuario/routes.py:142 | saving a record under the same id, user and book keeps the table ordered with unique pairs |
| ReadingStates.RemoveKeepsOrderAndUnique | acciones_usuario/routes.py:171 | removing a record keeps the table ordered with unique pairs |
| ReadingStates.DeleteState | acciones_usuario/routes.py:158-172 | 401; 404 iff the id is unknown; 403 iff the record is another user's, removing nothing; success iff the record exists and is the caller's, and then exactly that record is removed |
| Pages.OwnerOf | pagina/routes.py:37-38 | present exactly when some book row has the id; then it is that row's owner, and in an id-ordered table the owner of every row with the id |
| Pages.FindPage | pagina/routes.py:31 | the page with that id, or None exactly when there is none |
| Pages.RequireBookOwnership | pagina/routes.py:16-42 | 401 without a caller; with a page id, 404 iff the page is missing, 403 iff the page exists and the caller does not own its current book, and through otherwise; else with a book id, 404 iff the book is missing, 403 iff it exists and is another user's, and through iff the caller owns it; with neither id, through |
| Pages.ListPages | pagina/routes.py:45-60 | all pages, and only those, in ascending id order |
| Pages.CreatePage | pagina/routes.py:78-106 | 401; 404 iff the book is unknown; 403 iff the book exists and is another user's; succeeds iff the caller owns the book; on success exactly one page with the payload's fields is appended, otherwise neither the table nor the id counter changes |
| Pages.UpdatePage | pagina/routes.py:109-128 | guarded by the ownership of the page's current book only; on success all four fields, the book included, are replaced and nothing else changes |
| Pages.ClearLastPage | acciones_usuario/models.py:8 | `SET_NULL`: afterwards no record points at the page, those that did now point nowhere, and nothing else changes |
| Pages.RemoveKeepsPagesAscending | pagina/routes.py:135 | removing a page keeps the page table in id order |
| Pages.DeletePage | pagina/routes.py:131-136 | on a guard failure nothing changes; otherwise exactly that page is removed and the records pointing at it lose their last page |
| Users.FindByCredentials | usuario/routes.py:48 | a user with exactly that e-mail and password, or None iff there is none |
| Users.Login | usuario/routes.py:45-69 | succeeds iff some user has exactly that e-mail and password; the token carries that user's id and e-mail; otherwise 401 |
| Users.WithField | usuario/routes.py:85 | `setattr` changes exactly the named field |
| Users.ApplyUserPatch | usuario/routes.py:83-85 | each field present in the payload takes the sent value; every other field and the id are kept |
| Users.UpdateUser | usuario/routes.py:78-96 | 401 without a caller; 404 iff the user is unknown; success iff there is a caller and the user exists, and then only that user changes, in exactly the fields sent, whoever the caller is |
| Users.IsSpace | usuario/routes.py:131 | the whitespace characters at which Python's `str.split()` breaks a string |
| Users.WordLen | usuario/routes.py:131 | the length of the leading run of non-whitespace characters |
| Users.Words | usuario/routes.py:131 | `split()` yields non-empty words free of whitespace |
| Users.NoWordsIffAllSpace | usuario/routes.py:131 | `split()` is empty iff the string is all whitespace |
| Users.WordsOfWordThen | usuario/routes.py:131 | splitting a word followed by whitespace yields that word, then the words of the rest |
| Users.WordsOfJoin | usuario/routes.py:132 | splitting the words joined with single spaces gives the same words back |
| Users.JoinSpace | usuario/routes.py:132 | `" ".join`: the words separated by single spaces; WordsOfJoin states that splitting it gives the words back |
| Users.SplitName | usuario/routes.py:131-132 | failure iff the name is non-empty and all whitespace; ("", "") for an empty name; otherwise the first word, and the remaining words joined by single spaces, which split back into those words |
| Users.HasSuperuser | usuario/routes.py:117 | `User.objects.filter(is_superuser=True).exists()`: some account has the superuser flag |
| Users.UsernameTaken | usuario/routes.py:127-133 | some account already has the username, which makes `create_user` raise and the handler report failure |
| Users.CreateSuperuser | usuario/routes.py:107-155 | 403 with nothing created once any superuser exists; failure with nothing created when the name is all whitespace, the e-mail is empty or the e-mail is already a username; otherwise exactly one account is added, with username = e-mail, the split name, and the superuser and staff flags set |

## Left out

- The Django ORM, HTTP routing and response bodies. Tables are sequences, and `get_object_or_404` and `HttpResponse` become `Err` statuses.
- Token signing and expiry (usuario/auth.py). A request carries an optional caller id instead.
- Rounding the average to two decimals (libro/routes.py:27). The average is the exact mean as a real number.
- Cover images and their upload (`imagen_portada`, including its update in update_libro), the display joins (author and genre names, cover url) and timestamp values. Timestamps are only ordering keys.
- The derived-field blocks of create_libro and update_libro (libro/routes.py:344-350, 416-422). They call a helper that is not defined and compare a page reference with an int. Books.UpdateBook therefore returns the saved book rather than a view.
- The int-versus-reference drift of `ultima_pagina_leida` between the schemas and the model. The last page is an optional page id, and the schema's default of 0 is modelled as "no page".
- The check-then-insert race in create_accion_usuario. The model is sequential.
- Boot-time setup and debug printing (biblioteca_original/apps.py, the `print` calls in crear_superusuario), the routing table and the genre endpoints.
- Password hashing inside Django's `create_user`. The password is stored as given.
- Users.CreateSuperuser: the e-mail is stored as sent. Django's `normalize_email` (lower-casing the domain) and `normalize_username` (Unicode NFKC) are not modelled, so two e-mails that differ only there count as different usernames.
- Database constraints that the modelled handlers do not test. These are:
  - foreign keys: a reading state or page pointing at a missing book is not excluded;
  - `on_delete` of books and users;
  - the unique e-mail of `usuario`, whose violation in update_usuario is an unhandled database error.
- Handlers outside the modelled core: create_libro, delete_libro, the page list by book, get_pagina, get_current_user, create_usuario, delete_usuario and logout.
- Books.EntryFor: a reading state whose book row is missing yields no entry. In the source a foreign key guarantees the row exists.
- Pages.RequireBookOwnership: with a book id and no page id, an unknown book gives 404 before the 403 test, because the code calls `get_object_or_404` there.

## Findings

| source | as written | input that shows it | evidently intended | confidence | as-written member | corrected member |
|---|---|---|---|---|---|---|
| libro/routes.py:61-66 | `list_libros` reads the caller from `request.auth`, but the route declares no `auth=` and the API (biblioteca_original/urls.py:11) has no default, so `request.auth` is never set and every caller is anonymous | the owner of a private book lists the books with a valid token: the book is missing and no per-reader field is filled | list the caller's private books and fill the per-reader fields for an authenticated caller | high; not executed | Books.ListBooksAsRouted, Books.OwnerLockedOutAsRouted | Books.ListBooks |
| libro/routes.py:250-261 | `get_libro` has the same missing `auth=`, so its privacy test always sees no user | the owner of a private book asks for it with a valid token and gets 403 | the owner gets the book, with the per-reader fields of their record | high; not executed | Books.GetBookAsRouted, Books.OwnerLockedOutAsRouted | Books.GetBook |
