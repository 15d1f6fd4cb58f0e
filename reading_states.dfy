/** The reading-state table: one record per (user, book) with favourite and
    pending flags, the last page read and a rating; listed, read, created,
    partially updated and deleted by the record's own user. */
module ReadingStates {
  import opened Base
  import opened Models
  import opened Ordering
  import Books

  /** The user's reading states (`filter(usuario_id=...)`), in table order. */
  function OwnedStates(states: seq<ReadingState>, user: Id): (r: seq<ReadingState>)
    ensures forall s :: s in r <==> s in states && s.user == user
  {
    if states == [] then []
    else
      var init := OwnedStates(states[..|states| - 1], user);
      var s := states[|states| - 1];
      assert states == states[..|states| - 1] + [s];
      if s.user == user then init + [s] else init
  }

  /** list_acciones_usuario: 401 without a caller; otherwise exactly the caller's
      records, most recently updated first. */
  function ListMyStates(states: seq<ReadingState>, caller: Caller): (r: Response<seq<ReadingState>>)
    ensures caller.None? <==> r == Err(Unauthenticated)
    ensures r.Ok? <==> caller.Some?
    ensures r.Ok? ==> SortedDesc(r.value, StateUpdated)
    ensures r.Ok? ==> forall s :: s in r.value <==> s in states && s.user == caller.value
    ensures r.Ok? ==> multiset(r.value) == multiset(OwnedStates(states, caller.value))
  {
    if caller.None? then Err(Unauthenticated)
    else
      var mine := OwnedStates(states, caller.value);
      var sorted := SortDesc(mine, StateUpdated);
      SortDescSorted(mine, StateUpdated);
      assert forall s :: s in sorted <==> s in mine by {
        forall s ensures s in sorted <==> s in mine {
          assert s in sorted <==> s in multiset(sorted);
        }
      }
      Ok(sorted)
  }

  /** get_accion_by_libro: 401 without a caller, 404 when the book or the caller's
      record for it is missing, and otherwise that record, which in a valid store
      is the only one of the caller for the book. */
  function GetStateByBook(books: seq<Book>, states: seq<ReadingState>, caller: Caller, bookId: Id): (r: Response<ReadingState>)
    ensures caller.None? ==> r == Err(Unauthenticated)
    ensures caller.Some? ==>
      (r == Err(NotFound) <==> FindBook(books, bookId).None? || FindState(states, caller.value, bookId).None?)
    ensures r.Ok? <==> caller.Some? && FindBook(books, bookId).Some? && FindState(states, caller.value, bookId).Some?
    ensures r.Ok? ==> caller.Some? && r.value in states && r.value.user == caller.value && r.value.book == bookId
    ensures r.Ok? && UniquePairs(states) ==>
      forall i :: 0 <= i < |states| && states[i].user == caller.value && states[i].book == bookId ==> states[i] == r.value
  {
    if caller.None? then Err(Unauthenticated)
    else if FindBook(books, bookId).None? then Err(NotFound)
    else match PairIndex(states, caller.value, bookId)
      case None => Err(NotFound)
      case Some(k) => Ok(states[k])
  }

  /** The payload of create_accion_usuario. */
  datatype StateIn = StateIn(book: Id, favorite: bool, lastPage: Option<Id>, pending: bool, rating: int)

  /** The payload when only the book is sent: not a favourite, not pending, no
      page read, not rated. */
  function DefaultStateIn(book: Id): StateIn
  {
    StateIn(book, false, None, false, 0)
  }

  /** A record created from the defaults carries no rating, so it leaves the
      average rating of every book unchanged. */
  lemma DefaultRecordKeepsAverage(states: seq<ReadingState>, id: Id, user: Id, book: Id, stamp: nat, other: Id)
    ensures var p := DefaultStateIn(book);
      var s := ReadingState(id, user, p.book, p.favorite, p.lastPage, p.pending, p.rating, stamp);
      && !s.favorite && !s.pending && s.lastPage.None?
      && Books.AverageRating(states + [s], other) == Books.AverageRating(states, other)
  {
    var p := DefaultStateIn(book);
    Books.UnratedRecordKeepsAverage(states, ReadingState(id, user, p.book, p.favorite, p.lastPage, p.pending, p.rating, stamp), other);
  }

  /** Appending a record for a pair that has none keeps the pairs unique. */
  lemma AppendNewPairKeepsUnique(states: seq<ReadingState>, s: ReadingState)
    requires UniquePairs(states)
    requires forall i :: 0 <= i < |states| ==> states[i].user != s.user || states[i].book != s.book
    ensures UniquePairs(states + [s])
  {
  }

  /** create_accion_usuario: 401 without a caller, then 404 for an unknown book,
      then 400 when the caller already has a record for the book, leaving the
      table unchanged in each case; otherwise appends one record built from the
      payload, so at most one record per (user, book) is kept. */
  method CreateState(db: Db, caller: Caller, payload: StateIn) returns (r: Response<ReadingState>)
    requires db.Valid()
    modifies db`states, db`nextStateId, db`clock
    ensures db.Valid()
    ensures caller.None? ==> r == Err(Unauthenticated)
    ensures caller.Some? && FindBook(db.books, payload.book).None? ==> r == Err(NotFound)
    ensures (caller.Some? && FindBook(db.books, payload.book).Some? &&
             FindState(old(db.states), caller.value, payload.book).Some?) ==> r == Err(BadRequest)
    ensures r.Ok? <==> caller.Some? && FindBook(db.books, payload.book).Some? &&
                       FindState(old(db.states), caller.value, payload.book).None?
    ensures r.Err? ==>
      db.states == old(db.states) && db.nextStateId == old(db.nextStateId) && db.clock == old(db.clock)
    ensures r.Ok? ==>
      && db.states == old(db.states) + [r.value]
      && r.value == ReadingState(old(db.nextStateId), caller.value, payload.book, payload.favorite,
                                 payload.lastPage, payload.pending, payload.rating, old(db.clock))
  {
    if caller.None? {
      return Err(Unauthenticated);
    }
    var user := caller.value;
    if FindBook(db.books, payload.book).None? {
      return Err(NotFound);
    }
    if FindState(db.states, user, payload.book).Some? {
      return Err(BadRequest);
    }
    var s := ReadingState(db.nextStateId, user, payload.book, payload.favorite,
                          payload.lastPage, payload.pending, payload.rating, db.clock);
    AppendNewPairKeepsUnique(db.states, s);
    db.states := db.states + [s];
    db.nextStateId := db.nextStateId + 1;
    db.clock := db.clock + 1;
    r := Ok(s);
  }

  /** The fields of update_accion_by_libro; None means "not sent". */
  datatype StatePatch = StatePatch(
    favorite: Option<bool>,
    lastPage: Option<Id>,
    pending: Option<bool>,
    rating: Option<int>)

  /** The field assignments of update_accion_by_libro: each field sent replaces
      the stored one; the record's identity and every field not sent are kept. */
  method ApplyStatePatch(s: ReadingState, patch: StatePatch) returns (t: ReadingState)
    ensures t.id == s.id && t.user == s.user && t.book == s.book && t.updated == s.updated
    ensures t.favorite == (if patch.favorite.Some? then patch.favorite.value else s.favorite)
    ensures t.lastPage == (if patch.lastPage.Some? then patch.lastPage else s.lastPage)
    ensures t.pending == (if patch.pending.Some? then patch.pending.value else s.pending)
    ensures t.rating == (if patch.rating.Some? then patch.rating.value else s.rating)
  {
    t := s;
    if patch.favorite.Some? {
      t := t.(favorite := patch.favorite.value);
    }
    if patch.lastPage.Some? {
      t := t.(lastPage := patch.lastPage);
    }
    if patch.pending.Some? {
      t := t.(pending := patch.pending.value);
    }
    if patch.rating.Some? {
      t := t.(rating := patch.rating.value);
    }
  }

  /** update_accion_by_libro: 401 without a caller, 404 when the book or the
      caller's record for it is missing (nothing changes); otherwise each field
      sent replaces the stored one, the save stamps the update time, and every
      other field and every other record are unchanged. */
  method UpdateStateByBook(db: Db, caller: Caller, bookId: Id, patch: StatePatch) returns (r: Response<ReadingState>)
    requires db.Valid()
    modifies db`states, db`clock
    ensures db.Valid()
    ensures caller.None? ==> r == Err(Unauthenticated)
    ensures caller.Some? ==>
      (r == Err(NotFound) <==> FindBook(db.books, bookId).None? || FindState(old(db.states), caller.value, bookId).None?)
    ensures r.Ok? <==> caller.Some? && FindBook(db.books, bookId).Some? && FindState(old(db.states), caller.value, bookId).Some?
    ensures r.Err? ==> db.states == old(db.states) && db.clock == old(db.clock)
    ensures r.Ok? ==>
      var i := PairIndex(old(db.states), caller.value, bookId).value;
      var s := old(db.states)[i];
      && db.states == old(db.states)[i := r.value]
      && r.value.id == s.id && r.value.user == s.user && r.value.book == s.book
      && r.value.favorite == (if patch.favorite.Some? then patch.favorite.value else s.favorite)
      && r.value.lastPage == (if patch.lastPage.Some? then patch.lastPage else s.lastPage)
      && r.value.pending == (if patch.pending.Some? then patch.pending.value else s.pending)
      && r.value.rating == (if patch.rating.Some? then patch.rating.value else s.rating)
      && r.value.updated == old(db.clock)
  {
    if caller.None? {
      return Err(Unauthenticated);
    }
    if FindBook(db.books, bookId).None? {
      return Err(NotFound);
    }
    var found := PairIndex(db.states, caller.value, bookId);
    if found.None? {
      return Err(NotFound);
    }
    var i := found.value;
    var s := ApplyStatePatch(db.states[i], patch);
    s := s.(updated := db.clock);
    ReplaceKeepsOrderAndUnique(db.states, i, s);
    db.states := db.states[i := s];
    db.clock := db.clock + 1;
    r := Ok(s);
  }

  /** Rewriting a record without changing its id, user or book keeps the table in
      id order with unique pairs. */
  lemma ReplaceKeepsOrderAndUnique(states: seq<ReadingState>, i: nat, s: ReadingState)
    requires i < |states|
    requires StatesAscending(states) && UniquePairs(states)
    requires s.id == states[i].id && s.user == states[i].user && s.book == states[i].book
    ensures StatesAscending(states[i := s]) && UniquePairs(states[i := s])
  {
  }

  /** Removing one record keeps the table in id order with unique pairs. */
  lemma RemoveKeepsOrderAndUnique(states: seq<ReadingState>, i: nat)
    requires i < |states|
    requires StatesAscending(states) && UniquePairs(states)
    ensures StatesAscending(states[..i] + states[i + 1..])
    ensures UniquePairs(states[..i] + states[i + 1..])
  {
    var rest := states[..i] + states[i + 1..];
    assert forall k :: 0 <= k < |rest| ==> rest[k] == if k < i then states[k] else states[k + 1];
  }

  /** delete_accion_usuario: 401 without a caller, 404 for an unknown record, 403
      when the record belongs to another user (nothing removed in any of these);
      otherwise removes exactly that record. */
  method DeleteState(db: Db, caller: Caller, stateId: Id) returns (r: Response<()>)
    requires db.Valid()
    modifies db`states
    ensures db.Valid()
    ensures caller.None? ==> r == Err(Unauthenticated)
    ensures caller.Some? ==> (r == Err(NotFound) <==> StateIndex(old(db.states), stateId).None?)
    ensures caller.Some? && StateIndex(old(db.states), stateId).Some? ==>
      (r == Err(Forbidden) <==> old(db.states)[StateIndex(old(db.states), stateId).value].user != caller.value)
    ensures r.Ok? <==>
      && caller.Some?
      && StateIndex(old(db.states), stateId).Some?
      && old(db.states)[StateIndex(old(db.states), stateId).value].user == caller.value
    ensures r.Err? ==> db.states == old(db.states)
    ensures r.Ok? ==>
      var i := StateIndex(old(db.states), stateId).value;
      && old(db.states)[i].user == caller.value
      && db.states == old(db.states)[..i] + old(db.states)[i + 1..]
  {
    if caller.None? {
      return Err(Unauthenticated);
    }
    var found := StateIndex(db.states, stateId);
    if found.None? {
      return Err(NotFound);
    }
    var i := found.value;
    if db.states[i].user != caller.value {
      return Err(Forbidden);
    }
    RemoveKeepsOrderAndUnique(db.states, i);
    db.states := db.states[..i] + db.states[i + 1..];
    r := Ok(());
  }
}
