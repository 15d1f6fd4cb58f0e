/** User operations: login by e-mail and password, the partial profile update, and
    the creation of the first superuser with its name split into first and last
    name the way Python's `str.split()` and `" ".join` do it. */
module Users {
  import opened Base
  import opened Models

  // ---------------------------------------------------------------------------
  // Login

  /** What the signed token carries. */
  datatype Token = Token(uid: Id, email: string)

  datatype LoginOk = LoginOk(user: User, token: Token)

  /** The first user with exactly this e-mail and password. */
  function FindByCredentials(users: seq<User>, email: string, password: string): (r: Option<User>)
    ensures r.Some? ==> r.value in users && r.value.email == email && r.value.password == password
    ensures r.None? <==> forall i :: 0 <= i < |users| ==> users[i].email != email || users[i].password != password
  {
    if users == [] then None
    else if users[0].email == email && users[0].password == password then Some(users[0])
    else FindByCredentials(users[1..], email, password)
  }

  /** login: succeeds exactly when some user has this e-mail and this password,
      and then issues a token carrying that user's id and e-mail; 401 otherwise. */
  function Login(users: seq<User>, email: string, password: string): (r: Response<LoginOk>)
    ensures r.Ok? <==> exists u :: u in users && u.email == email && u.password == password
    ensures r.Ok? ==>
      && r.value.user in users
      && r.value.user.email == email && r.value.user.password == password
      && r.value.token == Token(r.value.user.id, email)
    ensures r.Err? ==> r.status == Unauthenticated
  {
    match FindByCredentials(users, email, password)
    case None => Err(Unauthenticated)
    case Some(u) => Ok(LoginOk(u, Token(u.id, u.email)))
  }

  // ---------------------------------------------------------------------------
  // Profile update

  /** The fields a profile update may set. */
  datatype UserField = FullName | Email | Password

  function FieldOf(u: User, f: UserField): string
  {
    match f
    case FullName => u.fullName
    case Email => u.email
    case Password => u.password
  }

  /** `setattr(usuario, field, value)`. */
  function WithField(u: User, f: UserField, value: string): (v: User)
    ensures v.id == u.id
    ensures forall g :: FieldOf(v, g) == if g == f then value else FieldOf(u, g)
  {
    match f
    case FullName => u.(fullName := value)
    case Email => u.(email := value)
    case Password => u.(password := value)
  }

  /** The loop of update_usuario over the fields the payload sets (a dictionary,
      so each field at most once): each field present takes the sent value, every
      other field keeps its value. */
  method ApplyUserPatch(u: User, patch: map<UserField, string>) returns (v: User)
    ensures v.id == u.id
    ensures forall f :: FieldOf(v, f) == if f in patch then patch[f] else FieldOf(u, f)
  {
    v := u;
    var todo := patch.Keys;
    while todo != {}
      invariant todo <= patch.Keys
      invariant v.id == u.id
      invariant forall f :: FieldOf(v, f) == if f in patch && f !in todo then patch[f] else FieldOf(u, f)
      decreases |todo|
    {
      var f :| f in todo;
      v := WithField(v, f, patch[f]);
      todo := todo - {f};
    }
  }


  /** Position of the user with the given id. */
  function UserIndex(users: seq<User>, id: Id): Option<nat>
  {
    KeyIndex(users, UserId, id)
  }

  /** update_usuario: 401 without a caller (the route's token check), 404 for an
      unknown user; otherwise the user's fields present in the payload are set and
      nothing else changes. The caller is not compared with the user updated. */
  method UpdateUser(db: Db, caller: Caller, userId: Id, patch: map<UserField, string>) returns (r: Response<User>)
    requires db.Valid()
    modifies db`users
    ensures db.Valid()
    ensures caller.None? ==> r == Err(Unauthenticated)
    ensures caller.Some? ==> (r == Err(NotFound) <==> UserIndex(old(db.users), userId).None?)
    ensures r.Ok? <==> caller.Some? && UserIndex(old(db.users), userId).Some?
    ensures r.Err? ==> db.users == old(db.users)
    ensures r.Ok? ==>
      var i := UserIndex(old(db.users), userId).value;
      && db.users == old(db.users)[i := r.value]
      && r.value.id == userId
      && forall f :: FieldOf(r.value, f) == if f in patch then patch[f] else FieldOf(old(db.users)[i], f)
  {
    if caller.None? {
      return Err(Unauthenticated);
    }
    var found := UserIndex(db.users, userId);
    if found.None? {
      return Err(NotFound);
    }
    var i := found.value;
    var u := ApplyUserPatch(db.users[i], patch);
    db.users := db.users[i := u];
    r := Ok(u);
  }

  // ---------------------------------------------------------------------------
  // Name splitting

  /** The characters Python's `str.split()` treats as whitespace. */
  predicate IsSpace(c: char)
  {
    || '\t' <= c <= '\r'
    || '\U{1C}' <= c <= ' '
    || c == '\U{85}' || c == '\U{A0}' || c == '\U{1680}'
    || '\U{2000}' <= c <= '\U{200A}'
    || c == '\U{2028}' || c == '\U{2029}' || c == '\U{202F}' || c == '\U{205F}' || c == '\U{3000}'
  }

  /** A non-empty string without whitespace. */
  predicate IsWord(w: string)
  {
    w != [] && forall i :: 0 <= i < |w| ==> !IsSpace(w[i])
  }

  /** The length of the run of non-whitespace characters s starts with. */
  function WordLen(s: string): (n: nat)
    ensures n <= |s|
    ensures forall i :: 0 <= i < n ==> !IsSpace(s[i])
    ensures n < |s| ==> IsSpace(s[n])
  {
    if s == [] || IsSpace(s[0]) then 0 else 1 + WordLen(s[1..])
  }

  /** Python's `s.split()`: the maximal runs of non-whitespace characters. */
  function Words(s: string): (r: seq<string>)
    ensures forall k :: 0 <= k < |r| ==> IsWord(r[k])
    decreases |s|
  {
    if s == [] then []
    else if IsSpace(s[0]) then Words(s[1..])
    else
      var n := WordLen(s);
      [s[..n]] + Words(s[n..])
  }

  /** Python's `" ".join(ws)`. */
  function JoinSpace(ws: seq<string>): string
  {
    if ws == [] then ""
    else if |ws| == 1 then ws[0]
    else ws[0] + " " + JoinSpace(ws[1..])
  }

  /** A string has no words exactly when it is all whitespace. */
  lemma {:induction false} NoWordsIffAllSpace(s: string)
    ensures Words(s) == [] <==> forall i :: 0 <= i < |s| ==> IsSpace(s[i])
    decreases |s|
  {
    if s != [] {
      if IsSpace(s[0]) {
        NoWordsIffAllSpace(s[1..]);
        assert forall i :: 1 <= i < |s| ==> s[i] == s[1..][i - 1];
      }
    }
  }

  lemma {:induction false} WordLenOfWord(w: string, t: string)
    requires IsWord(w) && (t == [] || IsSpace(t[0]))
    ensures WordLen(w + t) == |w|
    decreases |w|
  {
    if |w| > 1 {
      assert (w + t)[1..] == w[1..] + t;
      WordLenOfWord(w[1..], t);
    } else {
      assert (w + t)[1..] == t;
    }
  }

  /** Splitting a word followed by whitespace (or by nothing) yields the word and
      then the words of the rest. */
  lemma WordsOfWordThen(w: string, t: string)
    requires IsWord(w) && (t == [] || IsSpace(t[0]))
    ensures Words(w + t) == [w] + Words(t)
  {
    WordLenOfWord(w, t);
    assert (w + t)[..|w|] == w;
    assert (w + t)[|w|..] == t;
  }

  /** Joining words with single spaces and splitting again gives the words back. */
  lemma {:induction false} WordsOfJoin(ws: seq<string>)
    requires forall k :: 0 <= k < |ws| ==> IsWord(ws[k])
    ensures Words(JoinSpace(ws)) == ws
  {
    if |ws| == 1 {
      WordsOfWordThen(ws[0], "");
      assert ws[0] + "" == ws[0];
    } else if |ws| > 1 {
      var t := " " + JoinSpace(ws[1..]);
      assert ws[0] + " " + JoinSpace(ws[1..]) == ws[0] + t;
      WordsOfWordThen(ws[0], t);
      assert t[1..] == JoinSpace(ws[1..]);
      WordsOfJoin(ws[1..]);
    }
  }

  /** The first and last name crear_superusuario derives from a full name: the
      first word, and the remaining words joined by single spaces ("" when there
      are none); both "" for an empty name. None when the name is not empty but
      all whitespace, where `split()[0]` raises. Splitting the last name again
      gives back the remaining words. */
  function SplitName(name: string): (r: Option<(string, string)>)
    ensures r.None? <==> name != [] && forall i :: 0 <= i < |name| ==> IsSpace(name[i])
    ensures name == [] ==> r == Some(("", ""))
    ensures r.Some? && name != [] ==>
      && IsWord(r.value.0)
      && Words(name) == [r.value.0] + Words(r.value.1)
      && r.value.1 == JoinSpace(Words(name)[1..])
  {
    NoWordsIffAllSpace(name);
    if name == [] then Some(("", ""))
    else
      var ws := Words(name);
      if ws == [] then None
      else
        var last := if |ws| > 1 then JoinSpace(ws[1..]) else "";
        WordsOfJoin(ws[1..]);
        Some((ws[0], last))
  }

  // ---------------------------------------------------------------------------
  // First superuser

  datatype SuperuserIn = SuperuserIn(fullName: string, email: string, password: string)

  /** 403 when a superuser exists; 200 with success and the account created; 200
      with success=False when the creation raised (nothing is created then). */
  datatype SuperuserOutcome = AlreadyExists | Created(account: AuthUser) | Failed

  predicate HasSuperuser(accounts: seq<AuthUser>)
  {
    exists i :: 0 <= i < |accounts| && accounts[i].isSuperuser
  }

  /** Some account already uses the name (usernames are unique). */
  predicate UsernameTaken(accounts: seq<AuthUser>, username: string)
  {
    exists i :: 0 <= i < |accounts| && accounts[i].username == username
  }

  /** crear_superusuario: refuses (403, nothing created) once any superuser
      exists; fails without creating anything when the name is non-empty but all
      whitespace, when the e-mail is empty (Django's create_user refuses an empty
      username) or when the e-mail is already some account's username; otherwise
      creates one account whose username is the e-mail, with the split name and
      the superuser and staff flags set. */
  method CreateSuperuser(db: Db, payload: SuperuserIn) returns (r: SuperuserOutcome)
    requires db.Valid()
    modifies db`authUsers, db`nextAuthUserId
    ensures db.Valid()
    ensures HasSuperuser(old(db.authUsers)) ==> r == AlreadyExists
    ensures (!HasSuperuser(old(db.authUsers)) &&
             (SplitName(payload.fullName).None? || payload.email == "" ||
              UsernameTaken(old(db.authUsers), payload.email))) ==>
      r == Failed
    ensures r.Created? <==>
      && !HasSuperuser(old(db.authUsers))
      && SplitName(payload.fullName).Some?
      && payload.email != ""
      && !UsernameTaken(old(db.authUsers), payload.email)
    ensures !r.Created? ==> db.authUsers == old(db.authUsers)
    ensures r.Created? ==>
      var names := SplitName(payload.fullName).value;
      && r.account == AuthUser(old(db.nextAuthUserId), payload.email, payload.email, payload.password,
                               names.0, names.1, true, true)
      && db.authUsers == old(db.authUsers) + [r.account]
      && HasSuperuser(db.authUsers)
  {
    if HasSuperuser(db.authUsers) {
      return AlreadyExists;
    }
    var names := SplitName(payload.fullName);
    if names.None? || payload.email == "" || UsernameTaken(db.authUsers, payload.email) {
      return Failed;
    }
    var u := AuthUser(db.nextAuthUserId, payload.email, payload.email, payload.password,
                      names.value.0, names.value.1, false, false);
    db.authUsers := db.authUsers + [u];
    db.nextAuthUserId := db.nextAuthUserId + 1;
    u := u.(isSuperuser := true, isStaff := true);
    db.authUsers := db.authUsers[|db.authUsers| - 1 := u];
    assert db.authUsers[|db.authUsers| - 1].isSuperuser;
    r := Created(u);
  }
}
