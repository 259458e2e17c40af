/**
 * The `users` table: the `User` constructor (which stores the password's
 * bcrypt hash), insertion under the unique-email constraint, and
 * `User.authenticate`.
 *
 * bcrypt itself is not modelled: its `hash` and `verify` are parameters of
 * the operations that use them, and whatever is proved about a successful
 * login assumes only `verify(p, hash(p))` for the password in question.
 */
module Users {
  import opened Wrappers

  /** A committed row of `users`; `password` holds the hash. */
  datatype User = User(id: int, username: string, email: string, password: string)

  /** The columns a commit can find NULL. */
  datatype UserColumn = Username | Email

  datatype Error =
    | PasswordMissing             // bcrypt.hash(None) raises before any row exists
    | NotNull(column: UserColumn) // username or email left as None
    | DuplicateEmail              // the unique constraint on email
    | NoResultFound               // `.one()` found no user with that name
    | MultipleResultsFound        // `.one()` found more than one
    | WrongPassword               // "No user with this password"

  /** A `User` object that has been constructed but not committed. */
  datatype NewUser = NewUser(username: Option<string>, email: Option<string>, password: string)

  /** `User(**kwargs)`: copies username and email as given (absent keys are
      None) and keeps only the hash of the password; a missing password makes
      the hash call raise. Any other keyword, `role` included, is ignored. */
  function Construct(username: Option<string>, email: Option<string>, password: Option<string>,
                     hash: string -> string): (r: Result<NewUser, Error>)
    ensures r.Ok? <==> password.Some?
    ensures r.Ok? ==> r.value.username == username && r.value.email == email
    ensures r.Ok? ==> r.value.password == hash(password.value)
    ensures r.Err? ==> r.error == PasswordMissing
  {
    if password.None? then Err(PasswordMissing)
    else Ok(NewUser(username, email, hash(password.value)))
  }

  predicate UniqueIds(rows: seq<User>) {
    forall i, j :: 0 <= i < j < |rows| ==> rows[i].id != rows[j].id
  }

  /** The `unique=True` constraint on `email`. */
  predicate UniqueEmails(rows: seq<User>) {
    forall i, j :: 0 <= i < j < |rows| ==> rows[i].email != rows[j].email
  }

  predicate EmailTaken(rows: seq<User>, email: string) {
    exists k :: 0 <= k < |rows| && rows[k].email == email
  }

  /** The rows `query.filter(User.username == username)` yields, in table order. */
  function Named(rows: seq<User>, username: string): (r: seq<User>)
    ensures forall u :: u in r <==> u in rows && u.username == username
    ensures |r| <= |rows|
  {
    if rows == [] then []
    else
      var rest := Named(rows[1..], username);
      if rows[0].username == username then [rows[0]] + rest else rest
  }

  lemma {:induction false} NamedAppend(a: seq<User>, b: seq<User>, username: string)
    ensures Named(a + b, username) == Named(a, username) + Named(b, username)
  {
    if a == [] {
      assert a + b == b;
    } else {
      assert (a + b)[0] == a[0];
      assert (a + b)[1..] == a[1..] + b;
      NamedAppend(a[1..], b, username);
    }
  }

  /** The filter over one row: that row when it carries the name, else nothing. */
  lemma NamedOne(u: User, username: string)
    ensures Named([u], username) == if u.username == username then [u] else []
  {
    assert [u][1..] == [];
  }

  /** Row `k` is the only row that carries the name. */
  predicate OnlyNamed(rows: seq<User>, username: string, k: int) {
    && 0 <= k < |rows| && rows[k].username == username
    && forall j :: 0 <= j < |rows| && j != k ==> rows[j].username != username
  }

  /** The filter yields a single user exactly when one row, and no other,
      carries the name: what `.one()` demands. */
  lemma {:induction false} NamedSingle(rows: seq<User>, username: string)
    ensures |Named(rows, username)| == 1 <==> exists k :: OnlyNamed(rows, username, k)
  {
    if rows != [] {
      var rest := rows[1..];
      NamedSingle(rest, username);
      assert forall j :: 0 < j < |rows| ==> rows[j] == rest[j - 1];
      if rows[0].username == username {
        if |Named(rest, username)| == 0 {
          forall j | 0 < j < |rows| ensures rows[j].username != username {
            assert rows[j] in rest;
          }
          assert OnlyNamed(rows, username, 0);
        } else {
          var v := Named(rest, username)[0];
          assert v in rest && v.username == username;
          var i :| 0 <= i < |rest| && rest[i] == v;
          assert rows[i + 1] == v;
          forall k | 0 <= k < |rows| ensures !OnlyNamed(rows, username, k) {
            if k == 0 {
              assert rows[i + 1].username == username;
            } else {
              assert rows[0].username == username;
            }
          }
        }
      } else {
        forall k | OnlyNamed(rest, username, k) ensures OnlyNamed(rows, username, k + 1) {
        }
        forall k | OnlyNamed(rows, username, k) ensures OnlyNamed(rest, username, k - 1) {
          assert k != 0;
        }
      }
    }
  }

  /** No row carries the name, so the filter yields nothing. */
  lemma {:induction false} NamedNone(rows: seq<User>, username: string)
    requires forall v :: v in rows ==> v.username != username
    ensures Named(rows, username) == []
  {
    if rows != [] {
      NamedNone(rows[1..], username);
    }
  }

  /** `User.authenticate`: exactly one user must carry the name (`.one()`),
      and the password must verify against that user's stored hash. */
  function Authenticate(rows: seq<User>, username: string, password: string,
                        verify: (string, string) -> bool): (r: Result<User, Error>)
    ensures r.Ok? <==> |Named(rows, username)| == 1 && verify(password, Named(rows, username)[0].password)
    ensures r.Ok? ==> r.value in rows && r.value.username == username
    ensures r.Ok? ==> forall u :: u in rows && u.username == username ==> u == r.value
    ensures r.Ok? ==> verify(password, r.value.password)
    ensures r.Err? && |Named(rows, username)| == 1 ==> r.error == WrongPassword
  {
    var found := Named(rows, username);
    if |found| == 0 then Err(NoResultFound)
    else if |found| > 1 then Err(MultipleResultsFound)
    else if !verify(password, found[0].password) then Err(WrongPassword)
    else
      assert found == [found[0]];
      Ok(found[0])
  }

  /** A name no user had before, registered with a password that verifies
      against its own hash, logs in with that password. */
  lemma LoginAfterRegister(rows: seq<User>, u: User, password: string, verify: (string, string) -> bool)
    requires forall v :: v in rows ==> v.username != u.username
    requires verify(password, u.password)
    ensures Authenticate(rows + [u], u.username, password, verify) == Ok(u)
  {
    NamedAppend(rows, [u], u.username);
    NamedNone(rows, u.username);
    assert [u][1..] == [];
    assert Named([u], u.username) == [u];
  }

  /** Registering through the constructor and logging in: a new name, stored
      with whatever `hash` makes of the password, logs in with that password
      whenever `verify` accepts a password against its own hash. */
  lemma RegisterThenLogin(rows: seq<User>, id: int, username: string, email: string, password: string,
                          hash: string -> string, verify: (string, string) -> bool)
    requires forall v :: v in rows ==> v.username != username
    requires verify(password, hash(password))
    ensures Construct(Some(username), Some(email), Some(password), hash).Ok?
    ensures var u := User(id, username, email, Construct(Some(username), Some(email), Some(password), hash).value.password);
      Authenticate(rows + [u], username, password, verify) == Ok(u)
  {
    var n := Construct(Some(username), Some(email), Some(password), hash).value;
    LoginAfterRegister(rows, User(id, username, email, n.password), password, verify);
  }

  /** Two users sharing a name lock both out: `.one()` raises whatever the password. */
  lemma SharedNameCannotLogIn(rows: seq<User>, a: User, b: User, password: string,
                              verify: (string, string) -> bool)
    requires a in rows && b in rows && a != b && a.username == b.username
    ensures Authenticate(rows, a.username, password, verify) == Err(MultipleResultsFound)
  {
    var found := Named(rows, a.username);
    assert a in found && b in found;
    if |found| <= 1 {
      assert false;
    }
  }

  class UserTable {
    var rows: seq<User>
    var nextId: int

    ghost predicate Valid()
      reads this
    {
      && UniqueIds(rows)
      && UniqueEmails(rows)
      && forall k :: 0 <= k < |rows| ==> rows[k].id < nextId
    }

    constructor ()
      ensures Valid() && rows == [] && nextId == 1
    {
      rows := [];
      nextId := 1;
    }

    /** `session.add(user); session.commit()`: the new row gets the next id;
        a NULL username or email, or an email already present, rolls back. */
    method Add(u: NewUser) returns (r: Result<User, Error>)
      requires Valid()
      modifies this
      ensures Valid()
      ensures r.Ok? <==> u.username.Some? && u.email.Some? && !EmailTaken(old(rows), u.email.value)
      ensures r.Ok? ==> r.value == User(old(nextId), u.username.value, u.email.value, u.password)
      ensures r.Ok? ==> rows == old(rows) + [r.value]
      ensures r.Err? ==> rows == old(rows) && nextId == old(nextId)
      ensures r.Err? && u.username.Some? && u.email.Some? ==> r.error == DuplicateEmail
    {
      if u.username.None? {
        return Err(NotNull(Username));
      }
      if u.email.None? {
        return Err(NotNull(Email));
      }
      if EmailTaken(rows, u.email.value) {
        return Err(DuplicateEmail);
      }
      var user := User(nextId, u.username.value, u.email.value, u.password);
      rows := rows + [user];
      nextId := nextId + 1;
      r := Ok(user);
    }
  }
}
