/** The account and cafe-table rules of the site's route handlers (main.py):
    registration, login, logout, adding and deleting a cafe, over an abstract
    store of user rows keyed by email, cafe rows keyed by id, and the login
    session. Password hashing is left uninterpreted: the store is given the
    hashing and checking functions it uses. */
module CafeSite {

  datatype Option<T> = None | Some(value: T)

  /** A row of the `users` table (main.py:47-51); `password` holds the hash. */
  datatype User = User(id: nat, email: string, password: string)

  /** What the add-cafe form submits (main.py:85-95). */
  datatype CafeFields = CafeFields(
    name: string, mapUrl: string, imgUrl: string, location: string,
    seats: string, hasToilet: bool, hasWifi: bool, hasSockets: bool,
    canTakeCalls: bool, coffeePrice: string)

  /** A row of the cafe table (main.py:32-44). */
  datatype Cafe = Cafe(id: nat, fields: CafeFields, ownerId: nat)

  datatype RegisterOutcome = Registered(userId: nat) | EmailTaken
  datatype LoginOutcome = LoggedIn(userId: nat) | WrongPassword | UnknownEmail
  /** `Unauthorized` is what `@login_required` answers without a session. */
  datatype CafeOutcome = CafeAdded(cafeId: nat) | CafeDeleted(cafeId: nat)
                       | DuplicateName | NoSuchCafe | Unauthorized

  class Store {
    /** The users table, keyed by email (email is unique, main.py:50). */
    var users: map<string, User>
    /** The cafe table, keyed by primary key. */
    var cafes: map<nat, Cafe>
    /** Id of the logged-in user, if any. */
    var session: Option<nat>
    /** The ids the database hands out next. */
    var nextUserId: nat
    var nextCafeId: nat
    /** `generate_password_hash` with a given salt, and `check_password_hash`. */
    const hash: (string, string) -> string
    const check: (string, string) -> bool

    /** Some user row has this id. */
    ghost predicate IsUserId(id: nat)
      reads this
    {
      exists e :: e in users && users[e].id == id
    }

    /** The table constraints and what the handlers keep true between requests. */
    ghost predicate Valid()
      reads this
    {
      && 1 <= nextUserId && 1 <= nextCafeId
      && (forall e :: e in users ==> users[e].email == e && 1 <= users[e].id < nextUserId)
      && (forall e, f :: e in users && f in users && users[e].id == users[f].id ==> e == f)
      && (forall i :: i in cafes ==> cafes[i].id == i && 1 <= i < nextCafeId)
      && (forall i :: i in cafes ==> IsUserId(cafes[i].ownerId))
      && (forall i, j :: i in cafes && j in cafes && cafes[i].fields.name == cafes[j].fields.name ==> i == j)
      && (session.Some? ==> IsUserId(session.value))
    }

    /** Some cafe row already carries this name (the unique constraint, main.py:34). */
    predicate NameTaken(name: string)
      reads this
    {
      exists i :: i in cafes && cafes[i].fields.name == name
    }

    /** Empty tables, nobody logged in (`db.create_all()` on a fresh database). */
    constructor (hash: (string, string) -> string, check: (string, string) -> bool)
      ensures Valid()
      ensures users == map[] && cafes == map[] && session == None
      ensures this.hash == hash && this.check == check
    {
      users := map[];
      cafes := map[];
      session := None;
      nextUserId := 1;
      nextCafeId := 1;
      this.hash := hash;
      this.check := check;
    }

    /** `register` (main.py:130-147): a known email is refused and nothing
        changes; otherwise one user row is added, holding the hash of the
        password made with `salt`, and that user is logged in. */
    method Register(email: string, password: string, salt: string) returns (r: RegisterOutcome)
      requires Valid()
      modifies this
      ensures Valid()
      ensures email in old(users) ==> r == EmailTaken && unchanged(this)
      ensures email !in old(users) ==>
        && r == Registered(old(nextUserId))
        && users == old(users)[email := User(old(nextUserId), email, hash(salt, password))]
        && |users| == |old(users)| + 1
        && session == Some(old(nextUserId))
        && cafes == old(cafes)
        && nextUserId == old(nextUserId) + 1 && nextCafeId == old(nextCafeId)
    {
      if email in users {
        return EmailTaken;
      }
      var id := nextUserId;
      ghost var before := users;
      users := users[email := User(id, email, hash(salt, password))];
      nextUserId := nextUserId + 1;
      session := Some(id);
      // every user id named before still belongs to the same row
      forall n: nat | exists e :: e in before && before[e].id == n
        ensures IsUserId(n)
      {
        var e :| e in before && before[e].id == n;
        assert e in users && users[e] == before[e];
      }
      assert users[email].id == id;
      return Registered(id);
    }

    /** `login` (main.py:150-165): an unknown email and a wrong password are
        two distinct refusals that change nothing; otherwise the user with that
        email is logged in. */
    method Login(email: string, password: string) returns (r: LoginOutcome)
      requires Valid()
      modifies this`session
      ensures Valid()
      ensures email !in users ==> r == UnknownEmail && session == old(session)
      ensures email in users && !check(users[email].password, password) ==>
                r == WrongPassword && session == old(session)
      ensures email in users && check(users[email].password, password) ==>
                r == LoggedIn(users[email].id) && session == Some(users[email].id)
    {
      if email !in users {
        return UnknownEmail;
      }
      var user := users[email];
      if !check(user.password, password) {
        return WrongPassword;
      }
      session := Some(user.id);
      return LoggedIn(user.id);
    }

    /** `logout` (main.py:168-172): nobody is logged in afterwards; `ok` is
        false when nobody was (`@login_required` refuses the request). */
    method Logout() returns (ok: bool)
      requires Valid()
      modifies this`session
      ensures Valid()
      ensures ok == old(session).Some?
      ensures session == None
    {
      ok := session.Some?;
      session := None;
    }

    /** `add_cafe` (main.py:80-101): refused without a session; refused, with
        nothing stored, when the name is already used by a cafe (the commit
        breaks the unique constraint); otherwise one cafe row is added holding
        every submitted field and owned by the logged-in user. */
    method AddCafe(fields: CafeFields) returns (r: CafeOutcome)
      requires Valid()
      modifies this`cafes, this`nextCafeId
      ensures Valid()
      ensures session.None? ==> r == Unauthorized && unchanged(this)
      ensures session.Some? && old(NameTaken(fields.name)) ==> r == DuplicateName && unchanged(this)
      ensures session.Some? && !old(NameTaken(fields.name)) ==>
        && r == CafeAdded(old(nextCafeId))
        && old(nextCafeId) !in old(cafes)
        && cafes == old(cafes)[old(nextCafeId) := Cafe(old(nextCafeId), fields, session.value)]
        && nextCafeId == old(nextCafeId) + 1
    {
      if session.None? {
        return Unauthorized;
      }
      if NameTaken(fields.name) {
        return DuplicateName;
      }
      var id := nextCafeId;
      cafes := cafes[id := Cafe(id, fields, session.value)];
      nextCafeId := nextCafeId + 1;
      return CafeAdded(id);
    }

    /** `delete_cafe` (main.py:175-181): refused without a session; refused,
        with nothing changed, when no cafe has that id (the lookup yields
        nothing to delete); otherwise exactly that cafe row is removed. Any
        logged-in user may delete any cafe: the handler does not compare the
        owner with the current user. */
    method DeleteCafe(id: nat) returns (r: CafeOutcome)
      requires Valid()
      modifies this`cafes
      ensures Valid()
      ensures session.None? ==> r == Unauthorized && cafes == old(cafes)
      ensures session.Some? && id !in old(cafes) ==> r == NoSuchCafe && cafes == old(cafes)
      ensures session.Some? && id in old(cafes) ==>
        r == CafeDeleted(id) && cafes == old(cafes) - {id}
    {
      if session.None? {
        return Unauthorized;
      }
      if id !in cafes {
        return NoSuchCafe;
      }
      cafes := cafes - {id};
      return CafeDeleted(id);
    }
  }

  /** The hashing functions agree: a password always checks against its own hash. */
  ghost predicate HashesAgree(s: Store)
  {
    forall salt, pw :: s.check(s.hash(salt, pw), pw)
  }

  /** A newly registered user can log in with the password they registered
      with, and a second registration with that email is refused. */
  method RegisterThenLogin(s: Store, email: string, password: string, salt: string)
    returns (reg: RegisterOutcome, again: RegisterOutcome, login: LoginOutcome)
    requires s.Valid() && HashesAgree(s)
    requires email !in s.users
    modifies s
    ensures s.Valid()
    ensures reg.Registered? && again == EmailTaken
    ensures login == LoggedIn(reg.userId) && s.session == Some(reg.userId)
  {
    reg := s.Register(email, password, salt);
    again := s.Register(email, password, salt);
    login := s.Login(email, password);
  }

  /** Adding a cafe and then deleting the id it was given leaves the cafe table
      as it was. */
  method AddThenDelete(s: Store, fields: CafeFields)
    returns (added: CafeOutcome, deleted: CafeOutcome)
    requires s.Valid() && s.session.Some? && !s.NameTaken(fields.name)
    modifies s
    ensures s.Valid()
    ensures added.CafeAdded? && deleted == CafeDeleted(added.cafeId)
    ensures s.cafes == old(s.cafes)
  {
    ghost var before := s.cafes;
    added := s.AddCafe(fields);
    var id := added.cafeId;
    ghost var row := Cafe(id, fields, s.session.value);
    assert id !in before && s.cafes == before[id := row];
    deleted := s.DeleteCafe(id);
    RemoveAdded(before, id, row);
  }

  lemma RemoveAdded<K, V>(m: map<K, V>, k: K, v: V)
    requires k !in m
    ensures m[k := v] - {k} == m
  {
  }
}
