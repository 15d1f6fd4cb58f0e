/** The book read model: page-number resolution, the "finished" flag, the average
    rating, visibility of books to a caller, the book views the list and detail
    handlers return, and the owner-only partial update of a book. */
module Books {
  import opened Base
  import opened Models
  import opened Ordering

  // ---------------------------------------------------------------------------
  // Pages of a book and the position of a page

  /** True when some page of the book has the given id. */
  predicate HasPage(pages: seq<Page>, book: Id, id: Id)
  {
    exists i :: 0 <= i < |pages| && pages[i].book == book && pages[i].id == id
  }

  lemma HasPageInTail(pages: seq<Page>, book: Id, id: Id)
    requires pages != [] && HasPage(pages[1..], book, id)
    ensures HasPage(pages, book, id)
  {
    var i :| 0 <= i < |pages[1..]| && pages[1..][i].book == book && pages[1..][i].id == id;
    assert pages[i + 1] == pages[1..][i];
  }

  /** The ids of the book's pages in table order (`filter(libro_id=...)`). */
  function PageIdsOf(pages: seq<Page>, book: Id): seq<Id>
  {
    if pages == [] then []
    else
      var rest := PageIdsOf(pages[1..], book);
      if pages[0].book == book then [pages[0].id] + rest else rest
  }

  /** Every page of the book contributes its id, and every id listed is the id of
      one of the book's pages. */
  lemma {:induction false} PageIdsOfMembers(pages: seq<Page>, book: Id)
    ensures |PageIdsOf(pages, book)| <= |pages|
    ensures forall i :: 0 <= i < |pages| && pages[i].book == book ==> pages[i].id in PageIdsOf(pages, book)
    ensures forall k :: 0 <= k < |PageIdsOf(pages, book)| ==> HasPage(pages, book, PageIdsOf(pages, book)[k])
  {
    if pages != [] {
      var rest := PageIdsOf(pages[1..], book);
      PageIdsOfMembers(pages[1..], book);
      forall k | 0 <= k < |rest| ensures HasPage(pages, book, rest[k]) {
        HasPageInTail(pages, book, rest[k]);
      }
      forall i | 1 <= i < |pages| && pages[i].book == book ensures pages[i].id in PageIdsOf(pages, book) {
        assert pages[i] == pages[1..][i - 1];
      }
    }
  }

  /** In a valid store the book's page ids come out in ascending order
      (`order_by('id')`). */
  lemma {:induction false} PageIdsAscending(pages: seq<Page>, book: Id)
    requires PagesAscending(pages)
    ensures AscendingBy(PageIdsOf(pages, book), (x: int) => x)
  {
    if pages != [] {
      var rest := PageIdsOf(pages[1..], book);
      PageIdsAscending(pages[1..], book);
      PageIdsOfMembers(pages[1..], book);
      if pages[0].book == book {
        var r := [pages[0].id] + rest;
        forall i, j | 0 <= i < j < |r| ensures r[i] < r[j] {
          assert r[j] == rest[j - 1];
          if i == 0 {
            assert HasPage(pages[1..], book, rest[j - 1]);
            var m :| 0 <= m < |pages[1..]| && pages[1..][m].book == book && pages[1..][m].id == rest[j - 1];
            assert pages[1..][m] == pages[m + 1];
          } else {
            assert r[i] == rest[i - 1];
          }
        }
      }
    }
  }

  /** The number of pages of the book (`filter(libro_id=...).count()`). */
  function PageCount(pages: seq<Page>, book: Id): nat
  {
    |PageIdsOf(pages, book)|
  }

  /** The index of the first occurrence of x in xs (Python's `list.index`), or
      None where `list.index` raises ValueError. */
  function IndexOf(xs: seq<Id>, x: Id): (r: Option<nat>)
    ensures r.None? <==> x !in xs
    ensures r.Some? ==> r.value < |xs| && xs[r.value] == x && x !in xs[..r.value]
  {
    if xs == [] then None
    else if xs[0] == x then Some(0)
    else match IndexOf(xs[1..], x)
      case None => None
      case Some(k) =>
        assert xs[..k + 1] == [xs[0]] + xs[1..][..k];
        Some(k + 1)
  }

  /** The 1-based position of a page among the book's pages
      (obtener_numero_pagina_por_id): absent when no page id is given or the
      page is not one of the book's, never an error. */
  function PageNumber(pages: seq<Page>, book: Id, pageId: Option<Id>): (r: Option<nat>)
    ensures pageId.None? ==> r.None?
    ensures pageId.Some? ==> (r.None? <==> pageId.value !in PageIdsOf(pages, book))
    ensures r.Some? ==>
      && pageId.Some?
      && 1 <= r.value <= PageCount(pages, book)
      && PageIdsOf(pages, book)[r.value - 1] == pageId.value
  {
    if pageId.None? then None
    else match IndexOf(PageIdsOf(pages, book), pageId.value)
      case None => None
      case Some(k) => Some(k + 1)
  }

  /** The "finished" flag (esta_terminado): true exactly when the book has pages,
      the last-read position is known and it has reached the page count. */
  function Finished(number: Option<nat>, total: nat): (r: bool)
    ensures r <==> total > 0 && number.Some? && number.value >= total
  {
    if total > 0 && number.Some? && number.value != 0 then number.value >= total else false
  }

  /** Since a resolved position never exceeds the page count, a reader has
      finished a book exactly when the last page read is the book's page with the
      highest id. */
  lemma {:induction false} FinishedIffHighestPage(pages: seq<Page>, book: Id, pageId: Option<Id>)
    requires PagesAscending(pages)
    ensures Finished(PageNumber(pages, book, pageId), PageCount(pages, book)) <==>
      && pageId.Some?
      && pageId.value in PageIdsOf(pages, book)
      && forall x :: x in PageIdsOf(pages, book) ==> x <= pageId.value
  {
    var ids := PageIdsOf(pages, book);
    PageIdsAscending(pages, book);
    var n := PageNumber(pages, book, pageId);
    if n.Some? {
      var p := n.value;
      assert ids[p - 1] == pageId.value;
      if p >= |ids| {
        forall x | x in ids ensures x <= pageId.value {
          var k :| 0 <= k < |ids| && ids[k] == x;
          assert k <= p - 1;
        }
      } else {
        assert ids[p - 1] < ids[|ids| - 1];
        assert ids[|ids| - 1] in ids;
      }
    }
  }

  // ---------------------------------------------------------------------------
  // Average rating

  /** True when no record of the book carries a strictly positive rating. */
  predicate Unrated(states: seq<ReadingState>, book: Id)
  {
    forall i :: 0 <= i < |states| && states[i].book == book ==> states[i].rating <= 0
  }

  /** The strictly positive ratings given to the book (`calificacion__gt=0`). */
  function PositiveRatings(states: seq<ReadingState>, book: Id): seq<int>
  {
    if states == [] then []
    else
      var rest := PositiveRatings(states[1..], book);
      if states[0].book == book && states[0].rating > 0 then [states[0].rating] + rest else rest
  }

  /** Every rating kept is positive, and none is kept exactly when the book is unrated. */
  lemma {:induction false} PositiveRatingsFacts(states: seq<ReadingState>, book: Id)
    ensures forall k :: 0 <= k < |PositiveRatings(states, book)| ==> PositiveRatings(states, book)[k] > 0
    ensures PositiveRatings(states, book) == [] <==> Unrated(states, book)
  {
    if states != [] {
      PositiveRatingsFacts(states[1..], book);
      assert forall i :: 1 <= i < |states| ==> states[1..][i - 1] == states[i];
    }
  }

  function Sum(xs: seq<int>): int
  {
    if xs == [] then 0 else xs[0] + Sum(xs[1..])
  }

  function MinOf(xs: seq<int>): (m: int)
    requires xs != []
    ensures m in xs && forall k :: 0 <= k < |xs| ==> m <= xs[k]
  {
    if |xs| == 1 then xs[0]
    else var m := MinOf(xs[1..]); if xs[0] <= m then xs[0] else m
  }

  function MaxOf(xs: seq<int>): (m: int)
    requires xs != []
    ensures m in xs && forall k :: 0 <= k < |xs| ==> xs[k] <= m
  {
    if |xs| == 1 then xs[0]
    else var m := MaxOf(xs[1..]); if xs[0] >= m then xs[0] else m
  }

  lemma {:induction false} SumBounds(xs: seq<int>, lo: int, hi: int)
    requires forall k :: 0 <= k < |xs| ==> lo <= xs[k] <= hi
    ensures lo * |xs| <= Sum(xs) <= hi * |xs|
  {
    if xs != [] {
      SumBounds(xs[1..], lo, hi);
    }
  }

  lemma MeanBounds(s: int, n: int, lo: int, hi: int)
    requires n > 0 && lo * n <= s <= hi * n
    ensures lo as real <= s as real / n as real <= hi as real
  {
    assert (lo as real) * (n as real) <= s as real;
    assert s as real <= (hi as real) * (n as real);
  }

  /** The average of the strictly positive ratings of the book
      (calcular_calificacion_promedio), absent when there are none. */
  function AverageRating(states: seq<ReadingState>, book: Id): Option<real>
  {
    var pos := PositiveRatings(states, book);
    if pos == [] then None else Some(Sum(pos) as real / |pos| as real)
  }

  /** The average is absent exactly when no reader has rated the book, and
      otherwise is the mean of the positive ratings, between the smallest and the
      largest rating given. */
  lemma AverageRatingBounds(states: seq<ReadingState>, book: Id)
    ensures AverageRating(states, book).None? <==> Unrated(states, book)
    ensures AverageRating(states, book).Some? ==>
      var pos := PositiveRatings(states, book);
      && pos != []
      && AverageRating(states, book).value == Sum(pos) as real / |pos| as real
      && MinOf(pos) as real <= AverageRating(states, book).value <= MaxOf(pos) as real
  {
    var pos := PositiveRatings(states, book);
    PositiveRatingsFacts(states, book);
    if pos != [] {
      SumBounds(pos, MinOf(pos), MaxOf(pos));
      MeanBounds(Sum(pos), |pos|, MinOf(pos), MaxOf(pos));
    }
  }

  lemma {:induction false} PositiveRatingsAppend(a: seq<ReadingState>, b: seq<ReadingState>, book: Id)
    ensures PositiveRatings(a + b, book) == PositiveRatings(a, book) + PositiveRatings(b, book)
  {
    if a != [] {
      assert (a + b)[1..] == a[1..] + b;
      PositiveRatingsAppend(a[1..], b, book);
    } else {
      assert a + b == b;
    }
  }

  /** A record with rating 0 (unrated), or a record of another book, leaves the
      book's average unchanged. */
  lemma UnratedRecordKeepsAverage(states: seq<ReadingState>, s: ReadingState, book: Id)
    requires s.rating <= 0 || s.book != book
    ensures AverageRating(states + [s], book) == AverageRating(states, book)
  {
    PositiveRatingsAppend(states, [s], book);
    assert PositiveRatings([s], book) == [];
    assert PositiveRatings(states, book) + [] == PositiveRatings(states, book);
  }

  // ---------------------------------------------------------------------------
  // Visibility and book views

  /** A book is shown to a caller when it is public or the caller owns it. */
  predicate Visible(b: Book, caller: Caller)
  {
    b.isPublic || (caller.Some? && b.owner == caller.value)
  }

  /** A book as the handlers return it, with the caller's reading fields; the
      display joins (author and genre names, cover url, timestamps) are left out. */
  datatype BookView = BookView(
    book: Book,
    lastPage: Option<nat>,
    lastPageId: Option<Id>,
    finished: Option<bool>,
    totalPages: Option<nat>,
    favorite: Option<bool>,
    pending: Option<bool>,
    average: Option<real>)

  /** The view of a book for a reader whose reading state is s. */
  function StateView(pages: seq<Page>, states: seq<ReadingState>, b: Book, s: ReadingState): BookView
  {
    var number := PageNumber(pages, b.id, s.lastPage);
    var total := PageCount(pages, b.id);
    BookView(b, number, s.lastPage, Some(Finished(number, total)), Some(total),
             Some(s.favorite), Some(s.pending), AverageRating(states, b.id))
  }

  /** The view of a book for an anonymous caller or one without a reading state. */
  function BareView(states: seq<ReadingState>, b: Book): BookView
  {
    BookView(b, None, None, None, None, None, None, AverageRating(states, b.id))
  }

  /** The view of a book for a caller: the book with its average rating, and the
      per-reader fields of the caller's reading state for it when there is one. */
  function ViewOf(pages: seq<Page>, states: seq<ReadingState>, b: Book, caller: Caller): BookView
  {
    if caller.None? then BareView(states, b)
    else match FindState(states, caller.value, b.id)
      case None => BareView(states, b)
      case Some(s) => StateView(pages, states, b, s)
  }

  /** The per-reader fields of a view are all absent when there is no caller or
      the caller has no reading state for the book, and otherwise come from that
      state; the page position lies within the book's page count. */
  lemma ViewOfFields(pages: seq<Page>, states: seq<ReadingState>, b: Book, caller: Caller)
    ensures var v := ViewOf(pages, states, b, caller);
      && v.book == b && v.average == AverageRating(states, b.id)
      && ((caller.None? || FindState(states, caller.value, b.id).None?) <==> v.totalPages.None?)
      && (v.totalPages.None? ==>
            v.lastPage.None? && v.lastPageId.None? && v.finished.None? && v.favorite.None? && v.pending.None?)
      && (v.totalPages.Some? ==>
            var s := FindState(states, caller.value, b.id).value;
            && v.lastPageId == s.lastPage
            && v.favorite == Some(s.favorite)
            && v.pending == Some(s.pending)
            && v.totalPages == Some(PageCount(pages, b.id))
            && v.finished.Some?
            && (v.lastPage.Some? ==> 1 <= v.lastPage.value <= v.totalPages.value))
  {
  }

  /** In a view, "finished" is true exactly when the caller has a reading state
      for the book whose last page is the book's page with the highest id. */
  lemma ViewFinishedIffHighestPage(pages: seq<Page>, states: seq<ReadingState>, b: Book, caller: Caller)
    requires PagesAscending(pages)
    ensures ViewOf(pages, states, b, caller).finished == Some(true) <==>
      && caller.Some?
      && FindState(states, caller.value, b.id).Some?
      && var last := FindState(states, caller.value, b.id).value.lastPage;
      && last.Some?
      && last.value in PageIdsOf(pages, b.id)
      && forall x :: x in PageIdsOf(pages, b.id) ==> x <= last.value
  {
    if caller.Some? && FindState(states, caller.value, b.id).Some? {
      FinishedIffHighestPage(pages, b.id, FindState(states, caller.value, b.id).value.lastPage);
    }
  }

  /** The views of the given books, one per book and in the same order. */
  function Views(pages: seq<Page>, states: seq<ReadingState>, bs: seq<Book>, caller: Caller): seq<BookView>
  {
    if bs == [] then []
    else Views(pages, states, bs[..|bs| - 1], caller) + [ViewOf(pages, states, bs[|bs| - 1], caller)]
  }

  lemma {:induction false} ViewsLength(pages: seq<Page>, states: seq<ReadingState>, bs: seq<Book>, caller: Caller)
    ensures |Views(pages, states, bs, caller)| == |bs|
  {
    if bs != [] {
      ViewsLength(pages, states, bs[..|bs| - 1], caller);
    }
  }

  lemma {:induction false} ViewsAt(pages: seq<Page>, states: seq<ReadingState>, bs: seq<Book>, caller: Caller, k: nat)
    requires k < |bs|
    ensures |Views(pages, states, bs, caller)| == |bs|
    ensures Views(pages, states, bs, caller)[k] == ViewOf(pages, states, bs[k], caller)
  {
    var init := bs[..|bs| - 1];
    ViewsLength(pages, states, init, caller);
    if k < |init| {
      ViewsAt(pages, states, init, caller, k);
      assert bs[k] == init[k];
    }
  }

  /** A list of views holds exactly one view per book, at the book's position. */
  lemma ViewsPerBook(pages: seq<Page>, states: seq<ReadingState>, bs: seq<Book>, caller: Caller)
    ensures |Views(pages, states, bs, caller)| == |bs|
    ensures forall k :: 0 <= k < |bs| ==> Views(pages, states, bs, caller)[k] == ViewOf(pages, states, bs[k], caller)
  {
    ViewsLength(pages, states, bs, caller);
    forall k | 0 <= k < |bs| ensures Views(pages, states, bs, caller)[k] == ViewOf(pages, states, bs[k], caller) {
      ViewsAt(pages, states, bs, caller, k);
    }
  }

  lemma ViewsSnoc(pages: seq<Page>, states: seq<ReadingState>, bs: seq<Book>, b: Book, caller: Caller)
    ensures Views(pages, states, bs + [b], caller) == Views(pages, states, bs, caller) + [ViewOf(pages, states, b, caller)]
  {
    assert (bs + [b])[..|bs|] == bs;
  }

  /** The books visible to the caller, in table order. */
  function VisibleBooks(books: seq<Book>, caller: Caller): seq<Book>
  {
    if books == [] then []
    else
      var init := VisibleBooks(books[..|books| - 1], caller);
      var b := books[|books| - 1];
      if Visible(b, caller) then init + [b] else init
  }

  /** The visible books are exactly the books the caller may see, and they keep
      the ascending id order of the table. */
  lemma {:induction false} VisibleBooksMembers(books: seq<Book>, caller: Caller)
    ensures forall b :: b in VisibleBooks(books, caller) <==> b in books && Visible(b, caller)
    ensures BooksAscending(books) ==> BooksAscending(VisibleBooks(books, caller))
  {
    if books != [] {
      var init := books[..|books| - 1];
      var b := books[|books| - 1];
      VisibleBooksMembers(init, caller);
      assert books == init + [b];
      if Visible(b, caller) && BooksAscending(books) {
        var r := VisibleBooks(init, caller);
        forall k | 0 <= k < |r| ensures r[k].id < b.id {
          assert r[k] in init;
        }
      }
    }
  }

  lemma VisibleBooksSnoc(books: seq<Book>, b: Book, caller: Caller)
    ensures VisibleBooks(books + [b], caller) ==
      if Visible(b, caller) then VisibleBooks(books, caller) + [b] else VisibleBooks(books, caller)
  {
    assert (books + [b])[..|books|] == books;
  }

  /** The caller's own books, in table order. */
  function OwnedBooks(books: seq<Book>, user: Id): (r: seq<Book>)
    ensures forall b :: b in r <==> b in books && b.owner == user
  {
    if books == [] then []
    else
      var init := OwnedBooks(books[..|books| - 1], user);
      var b := books[|books| - 1];
      assert books == books[..|books| - 1] + [b];
      if b.owner == user then init + [b] else init
  }

  // ---------------------------------------------------------------------------
  // Handlers

  /** list_libros: the views of the books that are public or owned by the caller,
      in ascending id order; an anonymous caller sees only public books. */
  method ListBooks(db: Db, caller: Caller) returns (r: seq<BookView>)
    ensures r == Views(db.pages, db.states, VisibleBooks(db.books, caller), caller)
  {
    var books, pages, states := db.books, db.pages, db.states;
    var result := [];
    for i := 0 to |books|
      invariant result == Views(pages, states, VisibleBooks(books[..i], caller), caller)
    {
      var b := books[i];
      assert books[..i + 1] == books[..i] + [b];
      VisibleBooksSnoc(books[..i], b, caller);
      if Visible(b, caller) {
        ViewsSnoc(pages, states, VisibleBooks(books[..i], caller), b, caller);
        result := result + [ViewOf(pages, states, b, caller)];
      }
    }
    assert books[..|books|] == books;
    r := result;
  }

  /** The loop the list handlers share: the view of each book of the queryset,
      appended in order. */
  method BuildViews(pages: seq<Page>, states: seq<ReadingState>, books: seq<Book>, caller: Caller)
    returns (result: seq<BookView>)
    ensures result == Views(pages, states, books, caller)
  {
    result := [];
    for i := 0 to |books|
      invariant result == Views(pages, states, books[..i], caller)
    {
      assert books[..i + 1] == books[..i] + [books[i]];
      ViewsSnoc(pages, states, books[..i], books[i], caller);
      result := result + [ViewOf(pages, states, books[i], caller)];
    }
    assert books[..|books|] == books;
  }

  /** What list_libros returns: one view per book that is public or the caller's,
      every such book listed, in ascending id order in a valid store, and only
      public books for an anonymous caller. */
  lemma ListedBooksExactlyVisible(pages: seq<Page>, states: seq<ReadingState>, books: seq<Book>, caller: Caller)
    ensures var vs := Views(pages, states, VisibleBooks(books, caller), caller);
      && (forall k :: 0 <= k < |vs| ==> vs[k].book in books && Visible(vs[k].book, caller))
      && (forall b :: b in books && Visible(b, caller) ==> exists k :: 0 <= k < |vs| && vs[k].book == b)
      && (BooksAscending(books) ==> forall i, j :: 0 <= i < j < |vs| ==> vs[i].book.id < vs[j].book.id)
      && (caller.None? ==> forall k :: 0 <= k < |vs| ==> vs[k].book.isPublic)
  {
    var bs := VisibleBooks(books, caller);
    var vs := Views(pages, states, bs, caller);
    VisibleBooksMembers(books, caller);
    ViewsPerBook(pages, states, bs, caller);
    forall k | 0 <= k < |vs| ensures vs[k].book == bs[k] {
      ViewOfFields(pages, states, bs[k], caller);
    }
    forall b | b in books && Visible(b, caller) ensures exists k :: 0 <= k < |vs| && vs[k].book == b {
      var k :| 0 <= k < |bs| && bs[k] == b;
      assert vs[k].book == b;
    }
  }

  /** list_libros_autenticado: the views, for the caller, of every public book in
      ascending id order; 401 without a caller. */
  method ListBooksAuthenticated(db: Db, caller: Caller) returns (r: Response<seq<BookView>>)
    ensures caller.None? <==> r == Err(Unauthenticated)
    ensures caller.Some? ==> r == Ok(Views(db.pages, db.states, VisibleBooks(db.books, None), caller))
  {
    if caller.None? {
      return Err(Unauthenticated);
    }
    var books := VisibleBooks(db.books, None);
    var result := BuildViews(db.pages, db.states, books, caller);
    r := Ok(result);
  }

  /** mis_libros: the views of the caller's own books, public or private, newest
      first; 401 without a caller. */
  method MyBooks(db: Db, caller: Caller) returns (r: Response<seq<BookView>>)
    ensures caller.None? <==> r == Err(Unauthenticated)
    ensures caller.Some? ==>
      r == Ok(Views(db.pages, db.states, SortDesc(OwnedBooks(db.books, caller.value), BookCreated), caller))
  {
    if caller.None? {
      return Err(Unauthenticated);
    }
    var books := SortDesc(OwnedBooks(db.books, caller.value), BookCreated);
    var result := BuildViews(db.pages, db.states, books, caller);
    r := Ok(result);
  }

  /** The two reader lists: favourites and pending-to-read. */
  datatype Flag = Favorite | Pending

  predicate HasFlag(s: ReadingState, flag: Flag)
  {
    match flag
    case Favorite => s.favorite
    case Pending => s.pending
  }

  /** The user's reading states with the flag set (`filter(usuario_id=..., es_favorito=True)`
      or `pendiente_leer=True`), in table order. */
  function Flagged(states: seq<ReadingState>, user: Id, flag: Flag): (r: seq<ReadingState>)
    ensures forall s :: s in r <==> s in states && s.user == user && HasFlag(s, flag)
  {
    if states == [] then []
    else
      var init := Flagged(states[..|states| - 1], user, flag);
      var s := states[|states| - 1];
      assert states == states[..|states| - 1] + [s];
      if s.user == user && HasFlag(s, flag) then init + [s] else init
  }

  /** The list entry for one reading state: the view of its book when the book
      is public or the user's, nothing otherwise (nor when the book row is missing). */
  function EntryFor(pages: seq<Page>, states: seq<ReadingState>, books: seq<Book>,
                    a: ReadingState, user: Id): (e: Option<BookView>)
    ensures e.Some? <==> FindBook(books, a.book).Some? && Visible(FindBook(books, a.book).value, Some(user))
    ensures e.Some? ==>
      && FindBook(books, a.book) == Some(e.value.book)
      && Visible(e.value.book, Some(user))
      && e.value == StateView(pages, states, e.value.book, a)
  {
    match FindBook(books, a.book)
    case None => None
    case Some(b) => if Visible(b, Some(user)) then Some(StateView(pages, states, b, a)) else None
  }

  /** The entries built from the given reading states, in their order. */
  function FlaggedViews(pages: seq<Page>, states: seq<ReadingState>, books: seq<Book>,
                        records: seq<ReadingState>, user: Id): seq<BookView>
  {
    if records == [] then []
    else
      var init := FlaggedViews(pages, states, books, records[..|records| - 1], user);
      match EntryFor(pages, states, books, records[|records| - 1], user)
      case None => init
      case Some(v) => init + [v]
  }

  /** Every entry comes from one of the given reading states, and every reading
      state with an entry contributes it. */
  lemma {:induction false} FlaggedViewsMembers(pages: seq<Page>, states: seq<ReadingState>, books: seq<Book>,
                                               records: seq<ReadingState>, user: Id)
    ensures forall v :: v in FlaggedViews(pages, states, books, records, user) ==>
      (exists a :: a in records && EntryFor(pages, states, books, a, user) == Some(v))
    ensures forall a :: a in records && EntryFor(pages, states, books, a, user).Some? ==>
      EntryFor(pages, states, books, a, user).value in FlaggedViews(pages, states, books, records, user)
  {
    if records != [] {
      var init := records[..|records| - 1];
      var a := records[|records| - 1];
      FlaggedViewsMembers(pages, states, books, init, user);
      assert records == init + [a];
    }
  }

  lemma FlaggedViewsSnoc(pages: seq<Page>, states: seq<ReadingState>, books: seq<Book>,
                         records: seq<ReadingState>, a: ReadingState, user: Id)
    ensures FlaggedViews(pages, states, books, records + [a], user) ==
      FlaggedViews(pages, states, books, records, user) +
      (match EntryFor(pages, states, books, a, user) case None => [] case Some(v) => [v])
  {
    assert (records + [a])[..|records|] == records;
  }

  /** The loop of list_favoritos and list_pendientes: for each reading state, the
      view of its book when the book is public or the user's. */
  method BuildFlaggedViews(pages: seq<Page>, states: seq<ReadingState>, books: seq<Book>,
                           records: seq<ReadingState>, user: Id) returns (result: seq<BookView>)
    ensures result == FlaggedViews(pages, states, books, records, user)
  {
    result := [];
    for i := 0 to |records|
      invariant result == FlaggedViews(pages, states, books, records[..i], user)
    {
      var a := records[i];
      assert records[..i + 1] == records[..i] + [a];
      FlaggedViewsSnoc(pages, states, books, records[..i], a, user);
      var found := FindBook(books, a.book);
      if found.Some? && (found.value.isPublic || found.value.owner == user) {
        result := result + [StateView(pages, states, found.value, a)];
      }
    }
    assert records[..|records|] == records;
  }

  /** list_favoritos and list_pendientes: for each of the caller's reading states
      with the flag set, newest update first, the view of its book when the book
      is public or the caller's; 401 without a caller. */
  method ListFlagged(db: Db, caller: Caller, flag: Flag) returns (r: Response<seq<BookView>>)
    ensures caller.None? <==> r == Err(Unauthenticated)
    ensures caller.Some? ==>
      r == Ok(FlaggedViews(db.pages, db.states, db.books,
                           SortDesc(Flagged(db.states, caller.value, flag), StateUpdated), caller.value))
  {
    if caller.None? {
      return Err(Unauthenticated);
    }
    var user := caller.value;
    var records := SortDesc(Flagged(db.states, user, flag), StateUpdated);
    var result := BuildFlaggedViews(db.pages, db.states, db.books, records, user);
    r := Ok(result);
  }

  /** Every entry of the favourites or pending list comes from one of the caller's
      own reading states with that flag set, for a book the caller may see. */
  lemma FlaggedListFromCallerRecords(pages: seq<Page>, states: seq<ReadingState>, books: seq<Book>,
                                     user: Id, flag: Flag)
    ensures forall v :: v in FlaggedViews(pages, states, books, SortDesc(Flagged(states, user, flag), StateUpdated), user) ==>
      (exists s :: s in states && s.user == user && HasFlag(s, flag) &&
         s.book == v.book.id && Visible(v.book, Some(user)) && v == StateView(pages, states, v.book, s))
  {
    var records := SortDesc(Flagged(states, user, flag), StateUpdated);
    SortDescSorted(Flagged(states, user, flag), StateUpdated);
    FlaggedViewsMembers(pages, states, books, records, user);
    forall v | v in FlaggedViews(pages, states, books, records, user)
      ensures exists s :: (s in states && s.user == user && HasFlag(s, flag) &&
        s.book == v.book.id && Visible(v.book, Some(user)) && v == StateView(pages, states, v.book, s))
    {
      var a :| a in records && EntryFor(pages, states, books, a, user) == Some(v);
      assert a in multiset(records);
      assert a in Flagged(states, user, flag);
    }
  }

  /** get_libro: 404 for an unknown id, 403 for a private book unless the caller
      is its owner, and otherwise the book's view for the caller. */
  function GetBook(pages: seq<Page>, states: seq<ReadingState>, books: seq<Book>,
                   bookId: Id, caller: Caller): (r: Response<BookView>)
    ensures r == Err(NotFound) <==> forall i :: 0 <= i < |books| ==> books[i].id != bookId
    ensures r == Err(Forbidden) <==>
      FindBook(books, bookId).Some? && !FindBook(books, bookId).value.isPublic &&
      caller != Some(FindBook(books, bookId).value.owner)
    ensures r.Ok? <==> FindBook(books, bookId).Some? && Visible(FindBook(books, bookId).value, caller)
    ensures r.Ok? ==>
      && FindBook(books, bookId).Some?
      && Visible(FindBook(books, bookId).value, caller)
      && r.value == ViewOf(pages, states, FindBook(books, bookId).value, caller)
  {
    match FindBook(books, bookId)
    case None => Err(NotFound)
    case Some(b) =>
      if !b.isPublic && (caller.None? || b.owner != caller.value) then Err(Forbidden)
      else Ok(ViewOf(pages, states, b, caller))
  }

  // ---------------------------------------------------------------------------
  // list_libros and get_libro as they are routed: neither route declares an
  // authentication class and the API has no default one, so `request.auth` is
  // never set and both handlers always see an anonymous caller, whatever token
  // the request carries. ListBooks and GetBook above are the caller-aware
  // behaviour the handlers' bodies are written for.

  /** list_libros as routed: the public books only, with no per-reader fields,
      for every caller. */
  method ListBooksAsRouted(db: Db, caller: Caller) returns (r: seq<BookView>)
    ensures r == Views(db.pages, db.states, VisibleBooks(db.books, None), None)
    ensures forall k :: 0 <= k < |r| ==> r[k].book.isPublic && r[k].totalPages.None?
  {
    r := ListBooks(db, None);
    var bs := VisibleBooks(db.books, None);
    ListedBooksExactlyVisible(db.pages, db.states, db.books, None);
    ViewsLength(db.pages, db.states, bs, None);
    forall k | 0 <= k < |r| ensures r[k].totalPages.None? {
      ViewsAt(db.pages, db.states, bs, None, k);
      ViewOfFields(db.pages, db.states, bs[k], None);
    }
  }

  /** get_libro as routed: 404 for an unknown id, 403 for every private book
      whoever asks, its owner included, and otherwise the view with no
      per-reader fields. */
  function GetBookAsRouted(pages: seq<Page>, states: seq<ReadingState>, books: seq<Book>,
                           bookId: Id, caller: Caller): (r: Response<BookView>)
    ensures r == Err(NotFound) <==> forall i :: 0 <= i < |books| ==> books[i].id != bookId
    ensures r == Err(Forbidden) <==> FindBook(books, bookId).Some? && !FindBook(books, bookId).value.isPublic
    ensures r.Ok? <==> FindBook(books, bookId).Some? && FindBook(books, bookId).value.isPublic
    ensures r.Ok? ==> r.value.book.isPublic && r.value.totalPages.None? && r.value.favorite.None?
  {
    var r := GetBook(pages, states, books, bookId, None);
    if r.Ok? then
      ViewOfFields(pages, states, FindBook(books, bookId).value, None);
      r
    else r
  }

  /** The owner of a private book is shut out of it as routed: get_libro answers
      403 and list_libros leaves the book out, where the caller-aware handlers
      return it. */
  lemma OwnerLockedOutAsRouted(pages: seq<Page>, states: seq<ReadingState>, books: seq<Book>, b: Book)
    requires BooksAscending(books) && b in books && !b.isPublic
    ensures GetBookAsRouted(pages, states, books, b.id, Some(b.owner)) == Err(Forbidden)
    ensures GetBook(pages, states, books, b.id, Some(b.owner)) == Ok(ViewOf(pages, states, b, Some(b.owner)))
    ensures b !in VisibleBooks(books, None)
    ensures b in VisibleBooks(books, Some(b.owner))
  {
    var f := FindBook(books, b.id);
    var j :| 0 <= j < |books| && books[j] == b;
    assert f.Some? by {
      assert books[j].id == b.id;
    }
    var i :| 0 <= i < |books| && books[i] == f.value;
    assert i == j;
    VisibleBooksMembers(books, None);
    VisibleBooksMembers(books, Some(b.owner));
  }

  /** require_ownership: None lets the wrapped handler run; otherwise the error
      response, checked in order 401 (no caller), 404 (no such book), 403 (the
      caller is not the owner). */
  function RequireOwnership(books: seq<Book>, caller: Caller, bookId: Id): (r: Option<Status>)
    ensures caller.None? ==> r == Some(Unauthenticated)
    ensures caller.Some? ==> (r == Some(NotFound) <==> FindBook(books, bookId).None?)
    ensures r == Some(Forbidden) <==>
      caller.Some? && FindBook(books, bookId).Some? && FindBook(books, bookId).value.owner != caller.value
    ensures r.None? <==>
      caller.Some? && FindBook(books, bookId).Some? && FindBook(books, bookId).value.owner == caller.value
    ensures r.Some? ==> r.value != BadRequest
  {
    if caller.None? then Some(Unauthenticated)
    else match FindBook(books, bookId)
      case None => Some(NotFound)
      case Some(b) => if b.owner != caller.value then Some(Forbidden) else None
  }

  /** The fields of update_libro; None means "not sent". */
  datatype BookPatch = BookPatch(
    name: Option<string>,
    version: Option<int>,
    coverColor: Option<string>,
    genre: Option<Id>,
    isPublic: Option<bool>)

  /** The field assignments of update_libro: each field sent replaces the stored
      one, every other field is kept. */
  method ApplyBookPatch(b: Book, patch: BookPatch) returns (c: Book)
    ensures c.id == b.id && c.owner == b.owner && c.created == b.created
    ensures c.name == (if patch.name.Some? then patch.name.value else b.name)
    ensures c.version == (if patch.version.Some? then patch.version.value else b.version)
    ensures c.coverColor == (if patch.coverColor.Some? then patch.coverColor.value else b.coverColor)
    ensures c.genre == (if patch.genre.Some? then patch.genre else b.genre)
    ensures c.isPublic == (if patch.isPublic.Some? then patch.isPublic.value else b.isPublic)
  {
    c := b;
    if patch.name.Some? {
      c := c.(name := patch.name.value);
    }
    if patch.version.Some? {
      c := c.(version := patch.version.value);
    }
    if patch.coverColor.Some? {
      c := c.(coverColor := patch.coverColor.value);
    }
    if patch.genre.Some? {
      c := c.(genre := patch.genre);
    }
    if patch.isPublic.Some? {
      c := c.(isPublic := patch.isPublic.value);
    }
  }

  /** update_libro behind require_ownership: on a guard failure nothing changes;
      otherwise the book is replaced by its patched copy and every other book is
      unchanged. */
  method UpdateBook(db: Db, caller: Caller, bookId: Id, patch: BookPatch) returns (r: Response<Book>)
    requires db.Valid()
    modifies db`books
    ensures db.Valid()
    ensures r.Ok? <==> RequireOwnership(old(db.books), caller, bookId).None?
    ensures r.Err? ==> Some(r.status) == RequireOwnership(old(db.books), caller, bookId) && db.books == old(db.books)
    ensures r.Ok? ==>
      var i := BookIndex(old(db.books), bookId).value;
      var b := old(db.books)[i];
      && db.books == old(db.books)[i := r.value]
      && r.value.id == b.id && r.value.owner == b.owner && r.value.created == b.created
      && r.value.name == (if patch.name.Some? then patch.name.value else b.name)
      && r.value.version == (if patch.version.Some? then patch.version.value else b.version)
      && r.value.coverColor == (if patch.coverColor.Some? then patch.coverColor.value else b.coverColor)
      && r.value.genre == (if patch.genre.Some? then patch.genre else b.genre)
      && r.value.isPublic == (if patch.isPublic.Some? then patch.isPublic.value else b.isPublic)
  {
    var guard := RequireOwnership(db.books, caller, bookId);
    if guard.Some? {
      return Err(guard.value);
    }
    var i := BookIndex(db.books, bookId).value;
    var b := ApplyBookPatch(db.books[i], patch);
    db.books := db.books[i := b];
    r := Ok(b);
  }
}
