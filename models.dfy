/** The rows of the platform's tables and the in-memory store that holds them.
    Every model extends a common base with an auto-increment id and creation and
    update timestamps; only the timestamps used for ordering are kept, as
    abstract keys. */
module Models {
  import opened Base

  /** A registered reader or author (the `usuario` table). */
  datatype User = User(id: Id, fullName: string, email: string, password: string)

  /** A book: owner, visibility flag and catalogue fields; `created` orders
      "my books" newest first. */
  datatype Book = Book(
    id: Id,
    name: string,
    version: int,
    genre: Option<Id>,
    coverColor: string,
    owner: Id,
    isPublic: bool,
    created: nat)

  /** A page of a book; its position in the book is its rank by ascending id. */
  datatype Page = Page(id: Id, content: string, kind: string, title: Option<string>, book: Id)

  /** A reader's state for one book: favourite and pending flags, the last page
      read (a reference that becomes null when the page is deleted) and a rating,
      0 meaning "not rated". `updated` orders the reader's lists newest first. */
  datatype ReadingState = ReadingState(
    id: Id,
    user: Id,
    book: Id,
    favorite: bool,
    lastPage: Option<Id>,
    pending: bool,
    rating: int,
    updated: nat)

  /** An account of the framework's own user table, where superusers live. */
  datatype AuthUser = AuthUser(
    id: Id,
    username: string,
    email: string,
    password: string,
    firstName: string,
    lastName: string,
    isSuperuser: bool,
    isStaff: bool)

  /** The primary keys of the tables. */
  function BookId(b: Book): int { b.id }
  function UserId(u: User): int { u.id }
  function AuthUserId(a: AuthUser): int { a.id }
  function PageId(p: Page): int { p.id }
  function StateId(s: ReadingState): int { s.id }

  predicate BooksAscending(books: seq<Book>)
  {
    AscendingBy(books, BookId)
  }

  predicate PagesAscending(pages: seq<Page>)
  {
    AscendingBy(pages, PageId)
  }

  predicate StatesAscending(states: seq<ReadingState>)
  {
    AscendingBy(states, StateId)
  }

  /** At most one reading state per (user, book) pair. */
  predicate UniquePairs(states: seq<ReadingState>)
  {
    forall i, j :: 0 <= i < j < |states| ==>
      states[i].user != states[j].user || states[i].book != states[j].book
  }

  /** Sort key of "my books": creation time. */
  function BookCreated(b: Book): int { b.created }

  /** Sort key of the reader's lists: last update time. */
  function StateUpdated(s: ReadingState): int { s.updated }

  /** Position of the book with the given id (`Libro.objects.get(id=...)`). */
  function BookIndex(books: seq<Book>, id: Id): Option<nat>
  {
    KeyIndex(books, BookId, id)
  }

  function FindBook(books: seq<Book>, id: Id): (r: Option<Book>)
    ensures r.Some? ==> r.value in books && r.value.id == id
    ensures r.None? <==> forall i :: 0 <= i < |books| ==> books[i].id != id
  {
    match BookIndex(books, id)
    case None => None
    case Some(k) => Some(books[k])
  }

  /** Position of the page with the given id. */
  function PageIndex(pages: seq<Page>, id: Id): Option<nat>
  {
    KeyIndex(pages, PageId, id)
  }

  /** Position of the reading state with the given id. */
  function StateIndex(states: seq<ReadingState>, id: Id): Option<nat>
  {
    KeyIndex(states, StateId, id)
  }

  /** Position of the first reading state of the user for the book
      (`filter(usuario_id=..., libro_id=...).first()`, which orders by id). */
  function PairIndex(states: seq<ReadingState>, user: Id, book: Id): (r: Option<nat>)
    ensures r.Some? ==> r.value < |states| && states[r.value].user == user && states[r.value].book == book
    ensures r.Some? ==> forall i :: 0 <= i < r.value ==> states[i].user != user || states[i].book != book
    ensures r.None? <==> forall i :: 0 <= i < |states| ==> states[i].user != user || states[i].book != book
  {
    if states == [] then None
    else if states[0].user == user && states[0].book == book then Some(0)
    else match PairIndex(states[1..], user, book)
      case None => None
      case Some(k) => Some(k + 1)
  }

  function FindState(states: seq<ReadingState>, user: Id, book: Id): (r: Option<ReadingState>)
    ensures r.Some? ==> r.value in states && r.value.user == user && r.value.book == book
    ensures r.None? <==> forall i :: 0 <= i < |states| ==> states[i].user != user || states[i].book != book
  {
    match PairIndex(states, user, book)
    case None => None
    case Some(k) => Some(states[k])
  }

  /** The database: one table per model, kept in insertion order, and the next
      auto-increment key of each table that the modelled handlers insert into. */
  class Db {
    var users: seq<User>
    var books: seq<Book>
    var pages: seq<Page>
    var states: seq<ReadingState>
    var authUsers: seq<AuthUser>
    var nextPageId: Id
    var nextStateId: Id
    var nextAuthUserId: Id
    /** The value the next save of a reading state stamps into `updated`. */
    var clock: nat

    /** Keys are issued in ascending order and never reused, so each table in
        insertion order is also in id order; a (user, book) pair has at most one
        reading state; every stamp lies in the past. */
    ghost predicate Valid()
      reads this
    {
      && AscendingBy(users, UserId)
      && BooksAscending(books)
      && PagesAscending(pages)
      && StatesAscending(states)
      && (forall i :: 0 <= i < |pages| ==> pages[i].id < nextPageId)
      && (forall i :: 0 <= i < |states| ==> states[i].id < nextStateId && states[i].updated < clock)
      && AscendingBy(authUsers, AuthUserId)
      && (forall i :: 0 <= i < |authUsers| ==> authUsers[i].id < nextAuthUserId)
      && UniquePairs(states)
    }

    /** A store holding the given users and books and nothing else. */
    constructor (users0: seq<User>, books0: seq<Book>)
      requires AscendingBy(users0, UserId) && BooksAscending(books0)
      ensures Valid()
      ensures users == users0 && books == books0
      ensures pages == [] && states == [] && authUsers == []
    {
      users, books := users0, books0;
      pages, states, authUsers := [], [], [];
      nextPageId, nextStateId, nextAuthUserId := 1, 1, 1;
      clock := 0;
    }
  }
}
