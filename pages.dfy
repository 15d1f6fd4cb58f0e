/** The page table: listing, and creation, replacement and deletion guarded by
    ownership of the page's book. Deleting a page nulls the last-page reference
    of every reading state that pointed at it. */
module Pages {
  import opened Base
  import opened Models

  /** The id of the owner of the book (`libro.usuario_id`): present exactly when
      some row has the book's id, it is that row's owner, and in a valid store
      every row with the id has that owner. */
  function OwnerOf(books: seq<Book>, bookId: Id): (r: Option<Id>)
    ensures r.Some? <==> exists i :: 0 <= i < |books| && books[i].id == bookId
    ensures r.Some? ==> exists i :: 0 <= i < |books| && books[i].id == bookId && books[i].owner == r.value
    ensures r.Some? && BooksAscending(books) ==>
      forall i :: 0 <= i < |books| && books[i].id == bookId ==> books[i].owner == r.value
  {
    match FindBook(books, bookId)
    case None => None
    case Some(b) => Some(b.owner)
  }

  function FindPage(pages: seq<Page>, id: Id): (r: Option<Page>)
    ensures r.Some? ==> r.value in pages && r.value.id == id
    ensures r.None? <==> forall i :: 0 <= i < |pages| ==> pages[i].id != id
  {
    match PageIndex(pages, id)
    case None => None
    case Some(k) => Some(pages[k])
  }

  /** require_book_ownership: None lets the wrapped handler run. Checked in order:
      401 without a caller; with a page id, 404 for an unknown page and 403 unless
      the caller owns the page's current book; otherwise with a book id, 404 for
      an unknown book and 403 unless the caller owns it; with neither id, no check. */
  function RequireBookOwnership(books: seq<Book>, pages: seq<Page>, caller: Caller,
                                pageId: Option<Id>, bookId: Option<Id>): (r: Option<Status>)
    ensures caller.None? ==> r == Some(Unauthenticated)
    ensures caller.Some? && pageId.Some? ==>
      && (r == Some(NotFound) <==> FindPage(pages, pageId.value).None?)
      && (r == Some(Forbidden) <==> FindPage(pages, pageId.value).Some? &&
                                    OwnerOf(books, FindPage(pages, pageId.value).value.book) != caller)
      && (r.None? <==> FindPage(pages, pageId.value).Some? &&
                       OwnerOf(books, FindPage(pages, pageId.value).value.book) == caller)
    ensures caller.Some? && pageId.None? && bookId.Some? ==>
      && (r == Some(NotFound) <==> FindBook(books, bookId.value).None?)
      && (r == Some(Forbidden) <==> FindBook(books, bookId.value).Some? &&
                                    FindBook(books, bookId.value).value.owner != caller.value)
      && (r.None? <==> OwnerOf(books, bookId.value) == caller)
    ensures caller.Some? && pageId.None? && bookId.None? ==> r.None?
    ensures r.Some? ==> r.value != BadRequest
  {
    if caller.None? then Some(Unauthenticated)
    else if pageId.Some? then
      match FindPage(pages, pageId.value)
      case None => Some(NotFound)
      case Some(p) => if OwnerOf(books, p.book) != caller then Some(Forbidden) else None
    else if bookId.Some? then
      match FindBook(books, bookId.value)
      case None => Some(NotFound)
      case Some(b) => if b.owner != caller.value then Some(Forbidden) else None
    else None
  }

  /** list_paginas: every page, in ascending id order. */
  function ListPages(pages: seq<Page>): (r: seq<Page>)
    requires PagesAscending(pages)
    ensures multiset(r) == multiset(pages)
    ensures forall i, j :: 0 <= i < j < |r| ==> r[i].id < r[j].id
  {
    pages
  }

  /** The payload of create_pagina and update_pagina. */
  datatype PageIn = PageIn(content: string, kind: string, title: Option<string>, book: Id)

  /** create_pagina: 401 without a caller, 404 for an unknown book, 403 unless the
      caller owns the book (nothing added in these cases); otherwise appends exactly
      one page carrying the payload's fields under a fresh id. */
  method CreatePage(db: Db, caller: Caller, payload: PageIn) returns (r: Response<Page>)
    requires db.Valid()
    modifies db`pages, db`nextPageId
    ensures db.Valid()
    ensures caller.None? ==> r == Err(Unauthenticated)
    ensures caller.Some? ==> (r == Err(NotFound) <==> FindBook(db.books, payload.book).None?)
    ensures caller.Some? ==>
      (r == Err(Forbidden) <==> FindBook(db.books, payload.book).Some? &&
                                FindBook(db.books, payload.book).value.owner != caller.value)
    ensures r.Ok? <==> caller.Some? && OwnerOf(db.books, payload.book) == caller
    ensures r.Err? ==> db.pages == old(db.pages) && db.nextPageId == old(db.nextPageId)
    ensures r.Ok? ==>
      && r.value == Page(old(db.nextPageId), payload.content, payload.kind, payload.title, payload.book)
      && db.pages == old(db.pages) + [r.value]
  {
    if caller.None? {
      return Err(Unauthenticated);
    }
    var book := FindBook(db.books, payload.book);
    if book.None? {
      return Err(NotFound);
    }
    if book.value.owner != caller.value {
      return Err(Forbidden);
    }
    var p := Page(db.nextPageId, payload.content, payload.kind, payload.title, payload.book);
    db.pages := db.pages + [p];
    db.nextPageId := db.nextPageId + 1;
    r := Ok(p);
  }

  /** update_pagina behind require_book_ownership: the guard looks only at the
      page's current book; on success all four fields are replaced, including the
      book, whose ownership is not checked. Nothing else changes. */
  method UpdatePage(db: Db, caller: Caller, pageId: Id, payload: PageIn) returns (r: Response<Page>)
    requires db.Valid()
    modifies db`pages
    ensures db.Valid()
    ensures r.Ok? <==> RequireBookOwnership(db.books, old(db.pages), caller, Some(pageId), None).None?
    ensures r.Err? ==>
      Some(r.status) == RequireBookOwnership(db.books, old(db.pages), caller, Some(pageId), None) &&
      db.pages == old(db.pages)
    ensures r.Ok? ==>
      var i := PageIndex(old(db.pages), pageId).value;
      && r.value == Page(pageId, payload.content, payload.kind, payload.title, payload.book)
      && db.pages == old(db.pages)[i := r.value]
  {
    var guard := RequireBookOwnership(db.books, db.pages, caller, Some(pageId), None);
    if guard.Some? {
      return Err(guard.value);
    }
    var i := PageIndex(db.pages, pageId).value;
    var p := db.pages[i];
    p := p.(content := payload.content);
    p := p.(kind := payload.kind);
    p := p.(title := payload.title);
    p := p.(book := payload.book);
    db.pages := db.pages[i := p];
    r := Ok(p);
  }

  /** The database's `on_delete=SET_NULL` of the last-page reference: every reading
      state that pointed at the page now points nowhere; nothing else changes (a
      bulk update, so no update time is stamped). */
  function ClearLastPage(states: seq<ReadingState>, pageId: Id): (r: seq<ReadingState>)
    ensures |r| == |states|
    ensures forall k :: 0 <= k < |r| ==> r[k] == states[k].(lastPage := r[k].lastPage)
    ensures forall k :: 0 <= k < |r| ==>
      r[k].lastPage == if states[k].lastPage == Some(pageId) then None else states[k].lastPage
    ensures forall k :: 0 <= k < |r| ==> r[k].lastPage != Some(pageId)
  {
    if states == [] then []
    else
      var s := states[0];
      var t := if s.lastPage == Some(pageId) then s.(lastPage := None) else s;
      [t] + ClearLastPage(states[1..], pageId)
  }

  /** Removing one page keeps the table in id order. */
  lemma RemoveKeepsPagesAscending(pages: seq<Page>, i: nat)
    requires i < |pages| && PagesAscending(pages)
    ensures PagesAscending(pages[..i] + pages[i + 1..])
  {
    var rest := pages[..i] + pages[i + 1..];
    assert forall k :: 0 <= k < |rest| ==> rest[k] == if k < i then pages[k] else pages[k + 1];
  }

  /** delete_pagina behind require_book_ownership: on a guard failure nothing
      changes; otherwise exactly that page is removed and the reading states that
      referenced it lose their last-page reference. */
  method DeletePage(db: Db, caller: Caller, pageId: Id) returns (r: Response<()>)
    requires db.Valid()
    modifies db`pages, db`states
    ensures db.Valid()
    ensures r.Ok? <==> RequireBookOwnership(db.books, old(db.pages), caller, Some(pageId), None).None?
    ensures r.Err? ==>
      Some(r.status) == RequireBookOwnership(db.books, old(db.pages), caller, Some(pageId), None) &&
      db.pages == old(db.pages) && db.states == old(db.states)
    ensures r.Ok? ==>
      var i := PageIndex(old(db.pages), pageId).value;
      && db.pages == old(db.pages)[..i] + old(db.pages)[i + 1..]
      && db.states == ClearLastPage(old(db.states), pageId)
  {
    var guard := RequireBookOwnership(db.books, db.pages, caller, Some(pageId), None);
    if guard.Some? {
      return Err(guard.value);
    }
    var i := PageIndex(db.pages, pageId).value;
    RemoveKeepsPagesAscending(db.pages, i);
    db.pages := db.pages[..i] + db.pages[i + 1..];
    db.states := ClearLastPage(db.states, pageId);
    r := Ok(());
  }
}
