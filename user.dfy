/** The User model (models/user.js) over an in-memory `users` table. The
    functions ending in `On` say what each operation does to a given table;
    the class runs the same queries the model sends and is proved to meet
    them. */
module UserModel {
  import opened Wrappers
  import opened Js
  import opened Text
  import opened Crypto
  import opened Database

  /** The columns of the `users` table. */
  const Columns: set<string> := {"username", "password", "firstname", "lastname", "email", "isadmin"}

  /** The column list every query but authenticate's selects or returns. */
  const PublicColumns: set<string> := {"username", "firstname", "lastname", "email", "isadmin"}

  /** The translation table `update` hands to `sqlForPartialUpdate`. */
  const JsToSql: map<string, string> := map["firstname" := "firstname", "lastname" := "lastname", "isadmin" := "isadmin"]

  const InvalidLogin: Error := Unauthorized(Some("Invalid username/password"))

  /** Every row has exactly the table's columns and `username` is the key. */
  predicate WellFormed(t: Table) {
    && (forall i :: 0 <= i < |t| ==> t[i].Keys == Columns)
    && KeyConstraint(t, "username")
  }

  /** `User.authenticate(username, password)` on table `t`: the row without
      its password when the user exists and the password matches its digest;
      one and the same UnauthorizedError for an unknown user and for a wrong
      password. */
  function AuthenticateOn(t: Table, hasher: Hasher, username: string, password: string): (r: Result<Obj>)
    requires WellFormed(t)
    ensures r.Ok? <==> exists i :: 0 <= i < |t| && Matches(t[i], "username", Str(username)) &&
                                   Get(t[i], "password").Str? && hasher.compare(password, Get(t[i], "password").s)
    ensures r.Ok? ==> r.value.Keys == PublicColumns && "password" !in r.value
    ensures Find(t, "username", Str(username)).None? ==> r == Err(InvalidLogin)
    ensures r.Err? ==> r.error == InvalidLogin || r.error == ServerError
  {
    match Find(t, "username", Str(username))
    case None => Err(InvalidLogin)
    case Some(i) =>
      assert forall j :: 0 <= j < |t| && Matches(t[j], "username", Str(username)) ==> j == i by {
        forall j | 0 <= j < |t| && Matches(t[j], "username", Str(username)) ensures j == i {
          KeyFindsThatRow(t, "username", Str(username), j);
        }
      }
      match Get(t[i], "password")
      case Str(h) =>
        DeleteIsPublic(t[i]);
        if hasher.compare(password, h) then Ok(Delete(t[i], "password")) else Err(InvalidLogin)
      // bcrypt.compare rejects a digest that is not a string
      case _ => Err(ServerError)
  }

  /** The row `register` inserts: the bcrypt digest in place of the password
      and every other field as supplied (undefined stored as NULL). */
  function NewRow(hasher: Hasher, username: string, password: string, firstname: Value, lastname: Value, email: Value, isadmin: Value): (row: Row)
    ensures row.Keys == Columns
    ensures row["username"] == Str(username) && row["password"] == Str(hasher.hash(password))
    ensures row["firstname"] == ToParam(firstname) && row["lastname"] == ToParam(lastname)
    ensures row["email"] == ToParam(email) && row["isadmin"] == ToParam(isadmin)
  {
    map["username" := Str(username), "password" := Str(hasher.hash(password)), "firstname" := ToParam(firstname),
        "lastname" := ToParam(lastname), "email" := ToParam(email), "isadmin" := ToParam(isadmin)]
  }

  /** `User.register(...)` on table `t`: the result and the table after. */
  function RegisterOn(t: Table, hasher: Hasher, username: string, password: string, firstname: Value, lastname: Value, email: Value, isadmin: Value): (r: (Result<Obj>, Table))
    requires WellFormed(t)
    ensures WellFormed(r.1)
    ensures r.0.Ok? <==> Find(t, "username", Str(username)).None?
    ensures r.0.Err? ==> r == (Err(BadRequest("Duplicate username: " + username)), t)
    ensures r.0.Ok? ==> r.0.value.Keys == PublicColumns && "password" !in r.0.value
    ensures r.0.Ok? ==>
      var row := NewRow(hasher, username, password, firstname, lastname, email, isadmin);
      r.1 == t + [row] && r.0.value == Project(row, PublicColumns)
  {
    if Find(t, "username", Str(username)).Some? then (Err(BadRequest("Duplicate username: " + username)), t)
    else
      var row := NewRow(hasher, username, password, firstname, lastname, email, isadmin);
      assert Insert(t, "username", row).Ok?;
      (Ok(Project(row, PublicColumns)), t + [row])
  }

  /** `User.findAll()` on table `t`: every user's public columns, ordered by
      username. */
  function FindAllOn(t: Table): (r: Table)
    ensures |r| == |t|
    ensures forall i :: 0 <= i < |r| ==> r[i].Keys == PublicColumns
    ensures SortedBy(r, "username")
    ensures multiset(r) == multiset(ProjectAll(t, PublicColumns))
  {
    var p := ProjectAll(t, PublicColumns);
    var r := OrderBy(p, "username");
    assert |r| == |multiset(r)| == |multiset(p)| == |t|;
    forall i | 0 <= i < |r| ensures r[i].Keys == PublicColumns {
      assert r[i] in multiset(p);
    }
    r
  }

  /** `User.get(username)` on table `t`. */
  function GetOn(t: Table, username: string): (r: Result<Obj>)
    ensures r.Ok? <==> Find(t, "username", Str(username)).Some?
    ensures r.Ok? ==> r.value.Keys == PublicColumns && r.value == Project(t[Find(t, "username", Str(username)).value], PublicColumns)
    ensures r.Err? ==> r.error == NotFound("No user: " + username)
  {
    match Find(t, "username", Str(username))
    case Some(i) => Ok(Project(t[i], PublicColumns))
    case None => Err(NotFound("No user: " + username))
  }

  /** The first statement of `update`: a truthy `data.password` is replaced
      by its digest; bcrypt rejects one that is not a string. */
  function HashPassword(hasher: Hasher, data: Props): (r: Result<Props>)
    ensures r.Ok? ==> |r.value| == |data| && forall i :: 0 <= i < |data| ==> r.value[i].0 == data[i].0
    ensures !Truthy(Lookup(data, "password")) ==> r == Ok(data)
    ensures Truthy(Lookup(data, "password")) && !Lookup(data, "password").Str? ==> r == Err(ServerError)
    ensures Lookup(data, "password").Str? && Truthy(Lookup(data, "password")) ==>
      r.Ok? && Lookup(r.value, "password") == Str(hasher.hash(Lookup(data, "password").s))
  {
    var pw := Lookup(data, "password");
    if !Truthy(pw) then Ok(data)
    else if pw.Str? then
      LookupPresent(data, "password");
      AssignLookup(data, "password", Str(hasher.hash(pw.s)), "password");
      Ok(Assign(data, "password", Str(hasher.hash(pw.s))))
    else Err(ServerError)
  }

  /** The UPDATE statement of `update`, run on table `t` with the already
      hashed data: a failed statement leaves the table as it was; a
      successful one returns the public columns of the user it found, or
      NotFound when there is none. */
  function UpdateQueryOn(t: Table, username: string, hashed: Props): (r: (Result<Obj>, Table))
    requires WellFormed(t)
    ensures WellFormed(r.1)
    ensures r.0.Err? ==> r.1 == t
    ensures r.0.Ok? ==> Find(t, "username", Str(username)).Some? && r.0.value.Keys == PublicColumns
  {
    match UpdateRows(t, Columns, "username", Str(username), hashed, PublicColumns)
    case Err(e) => (Err(e), t)
    case Ok((t', rows)) =>
      UpdateRowsOnUsers(t, username, hashed);
      if rows == [] then (Err(NotFound("No user: " + username)), t')
      else
        PublicHasNoPassword(rows[0]);
        (Ok(Delete(rows[0], "password")), t')
  }

  /** `User.update(username, data)` on table `t`: the result, the table
      after, and `data` after (the digest is written into it). */
  function UpdateOn(t: Table, hasher: Hasher, username: string, data: Props): (r: (Result<Obj>, Table, Props))
    requires WellFormed(t)
    ensures WellFormed(r.1)
    ensures r.0.Err? ==> r.1 == t
    ensures r.0.Ok? ==> Find(t, "username", Str(username)).Some? && r.0.value.Keys == PublicColumns
    ensures |r.2| == |data| && forall i :: 0 <= i < |data| ==> r.2[i].0 == data[i].0
    ensures HashPassword(hasher, data).Ok? ==> r.2 == HashPassword(hasher, data).value
    ensures HashPassword(hasher, data).Err? ==> r == (Err(HashPassword(hasher, data).error), t, data)
  {
    match HashPassword(hasher, data)
    case Err(e) => (Err(e), t, data)
    case Ok(hashed) =>
      var (res, t') := UpdateQueryOn(t, username, hashed);
      (res, t', hashed)
  }

  /** `User.remove(username)` on table `t`. */
  function RemoveOn(t: Table, username: string): (r: (Result<()>, Table))
    requires WellFormed(t)
    ensures WellFormed(r.1)
    ensures r.0.Ok? <==> Find(t, "username", Str(username)).Some?
    ensures r.0.Err? ==> r == (Err(NotFound("No user: " + username)), t)
    ensures forall i :: 0 <= i < |r.1| ==> !Matches(r.1[i], "username", Str(username))
    ensures forall row :: row in r.1 <==> row in t && !Matches(row, "username", Str(username))
  {
    if Find(t, "username", Str(username)).Some? then
      var d := DeleteWhere(t, "username", Str(username));
      DeleteKeepsKey(t, "username", "username", Str(username));
      assert forall i :: 0 <= i < |d| ==> d[i] in t;
      (Ok(()), d)
    else (Err(NotFound("No user: " + username)), t)
  }

  /** The `User` class bound to the database's `users` table. */
  class User {
    var users: Table
    const hasher: Hasher

    ghost predicate Valid()
      reads this
    {
      WellFormed(users)
    }

    constructor (hasher: Hasher, users: Table)
      requires WellFormed(users)
      ensures Valid() && this.hasher == hasher && this.users == users
    {
      this.hasher := hasher;
      this.users := users;
    }

    method Authenticate(username: string, password: string) returns (r: Result<Obj>)
      requires Valid()
      ensures r == AuthenticateOn(users, hasher, username, password)
    {
      SelectByKey(users, "username", Str(username));
      var result := ProjectAll(SelectWhere(users, "username", Str(username)), Columns);
      if |result| > 0 {
        var user := result[0];
        assert user == users[Find(users, "username", Str(username)).value];
        var stored := Js.Get(user, "password");
        if !stored.Str? {
          return Err(ServerError);
        }
        var isValid := hasher.compare(password, stored.s);
        if isValid {
          return Ok(Delete(user, "password"));
        }
      }
      return Err(InvalidLogin);
    }

    method Register(username: string, password: string, firstname: Value, lastname: Value, email: Value, isadmin: Value)
      returns (r: Result<Obj>)
      requires Valid()
      modifies this
      ensures Valid()
      ensures (r, users) == RegisterOn(old(users), hasher, username, password, firstname, lastname, email, isadmin)
    {
      ghost var spec := RegisterOn(users, hasher, username, password, firstname, lastname, email, isadmin);
      var duplicateCheck := SelectWhere(users, "username", Str(username));
      SelectByKey(users, "username", Str(username));
      if |duplicateCheck| > 0 {
        assert spec == (Err(BadRequest("Duplicate username: " + username)), users);
        return Err(BadRequest("Duplicate username: " + username));
      }
      var row := NewRow(hasher, username, password, firstname, lastname, email, isadmin);
      var inserted := Insert(users, "username", row);
      assert inserted == Ok(spec.1);
      users := inserted.value;
      return Ok(Project(row, PublicColumns));
    }

    method FindAll() returns (r: Table)
      requires Valid()
      ensures r == FindAllOn(users)
    {
      r := FindAllOn(users);
    }

    method Get(username: string) returns (r: Result<Obj>)
      requires Valid()
      ensures r == GetOn(users, username)
    {
      SelectByKey(users, "username", Str(username));
      var userRes := ProjectAll(SelectWhere(users, "username", Str(username)), PublicColumns);
      if |userRes| == 0 {
        return Err(NotFound("No user: " + username));
      }
      return Ok(userRes[0]);
    }

    method Update(username: string, data: JsObject) returns (r: Result<Obj>)
      requires Valid() && data.Valid()
      modifies this, data
      ensures Valid() && data.Valid()
      ensures (r, users, data.props) == UpdateOn(old(users), hasher, username, old(data.props))
    {
      var password := Lookup(data.props, "password");
      if Truthy(password) {
        if !password.Str? {
          return Err(ServerError);
        }
        data.props := Assign(data.props, "password", Str(hasher.hash(password.s)));
      }
      assert HashPassword(hasher, old(data.props)) == Ok(data.props);
      HashPasswordKeeps(hasher, old(data.props), "");
      r := UpdateQuery(username, data.props);
    }

    /** The UPDATE statement of `update`, compiled by the partial-update
        helper and sent with the username as its last parameter. */
    method UpdateQuery(username: string, hashed: Props) returns (r: Result<Obj>)
      requires Valid()
      modifies this
      ensures Valid()
      ensures (r, users) == UpdateQueryOn(old(users), username, hashed)
    {
      var pu := SqlForPartialUpdate(hashed, JsToSql);
      var usernameVarIdx := |pu.values| + 1;
      var q := UpdateStatement(pu.setCols, "username", usernameVarIdx, PublicColumns);
      var result := ExecUpdate(users, Columns, "username", q, pu.values + [Str(username)]);
      UpdateStatementMeetsUpdateQuery(users, username, hashed);
      if result.Err? {
        r := Err(result.error);
      } else {
        users := result.value.0;
        var rows := result.value.1;
        r := if |rows| == 0 then Err(NotFound("No user: " + username)) else Ok(Delete(rows[0], "password"));
      }
    }

    method Remove(username: string) returns (r: Result<()>)
      requires Valid()
      modifies this
      ensures Valid()
      ensures (r, users) == RemoveOn(old(users), username)
    {
      ghost var after := RemoveOn(users, username).1;
      var deleted := ProjectAll(SelectWhere(users, "username", Str(username)), {"username"});
      SelectByKey(users, "username", Str(username));
      if Find(users, "username", Str(username)).None? {
        DeleteNothing(users, "username", Str(username));
      }
      users := DeleteWhere(users, "username", Str(username));
      assert users == after;
      if |deleted| == 0 {
        return Err(NotFound("No user: " + username));
      }
      return Ok(());
    }
  }

  /** A successful partial update of the users table keeps it well formed,
      returns a row exactly when the user exists, and changes nothing when it
      does not. */
  lemma UpdateRowsOnUsers(t: Table, username: string, data: Props)
    requires WellFormed(t)
    requires UpdateRows(t, Columns, "username", Str(username), data, PublicColumns).Ok?
    ensures var (t', rows) := UpdateRows(t, Columns, "username", Str(username), data, PublicColumns).value;
      && WellFormed(t')
      && (rows == [] <==> Find(t, "username", Str(username)).None?)
      && (rows == [] ==> t' == t)
      && (rows != [] ==> rows[0].Keys == PublicColumns)
  {
    var t' := UpdateRows(t, Columns, "username", Str(username), data, PublicColumns).value.0;
    forall i | 0 <= i < |t'| ensures t'[i].Keys == Columns {
      OverwriteKeys(t[i], data);
    }
    match Find(t, "username", Str(username))
    case None => UpdateRowsNoMatch(t, Columns, "username", Str(username), data, PublicColumns);
    case Some(i) => UpdateRowsHit(t, Columns, "username", Str(username), data, PublicColumns, i);
  }

  /** The UPDATE that `update` builds from the hashed data (WHERE
      placeholder `values.length + 1`, parameters `[...values, username]`)
      has the effect `UpdateQueryOn` describes. */
  lemma UpdateStatementMeetsUpdateQuery(t: Table, username: string, hashed: Props)
    requires WellFormed(t)
    ensures var pu := SqlForPartialUpdate(hashed, JsToSql);
      var res := ExecUpdate(t, Columns, "username", UpdateStatement(pu.setCols, "username", |pu.values| + 1, PublicColumns), pu.values + [Str(username)]);
      && (res.Err? ==> UpdateQueryOn(t, username, hashed) == (Err(res.error), t))
      && (res.Ok? ==>
            UpdateQueryOn(t, username, hashed) ==
            (if res.value.1 == [] then Err(NotFound("No user: " + username)) else Ok(Delete(res.value.1[0], "password")), res.value.0))
  {
    PartialUpdateAligned(t, Columns, "username", hashed, JsToSql, Str(username), PublicColumns);
    RenamedByIdentity(hashed, JsToSql);
  }

  /** Hashing the password keeps the property names of `data` and every
      property other than the password. */
  lemma HashPasswordKeeps(hasher: Hasher, data: Props, k: string)
    requires HashPassword(hasher, data).Ok?
    ensures KeysOf(HashPassword(hasher, data).value) == KeysOf(data)
    ensures DistinctKeys(data) ==> DistinctKeys(HashPassword(hasher, data).value)
    ensures k != "password" ==> Lookup(HashPassword(hasher, data).value, k) == Lookup(data, k)
  {
    var h := HashPassword(hasher, data).value;
    assert forall i :: 0 <= i < |data| ==> h[i].0 == data[i].0;
    if Truthy(Lookup(data, "password")) && k != "password" {
      AssignOthers(data, "password", Str(hasher.hash(Lookup(data, "password").s)), k);
    }
  }

  /** A row of public columns has no password to delete. */
  lemma PublicHasNoPassword(row: Row)
    requires row.Keys == PublicColumns
    ensures Delete(row, "password") == row
  {
    assert "password" !in PublicColumns;
  }

  /** A stored row without its password is its public projection. */
  lemma DeleteIsPublic(row: Row)
    requires row.Keys == Columns
    ensures Delete(row, "password") == Project(row, PublicColumns)
  {
    assert Columns - {"password"} == PublicColumns;
  }

  /** The user at position `i`, given the password its digest matches, is
      authenticated, and comes back without the password. */
  lemma AuthenticateAt(t: Table, hasher: Hasher, username: string, password: string, i: nat)
    requires WellFormed(t)
    requires i < |t| && Get(t[i], "username") == Str(username)
    requires Get(t[i], "password").Str? && hasher.compare(password, Get(t[i], "password").s)
    ensures AuthenticateOn(t, hasher, username, password) == Ok(Delete(t[i], "password"))
  {
    KeyFindsThatRow(t, "username", Str(username), i);
  }

  /** The registered password authenticates the user it was registered for,
      and authentication then returns exactly what registration returned. */
  lemma RegisterThenAuthenticate(t: Table, hasher: Hasher, username: string, password: string,
                                 firstname: Value, lastname: Value, email: Value, isadmin: Value)
    requires WellFormed(t) && hasher.Sound()
    requires RegisterOn(t, hasher, username, password, firstname, lastname, email, isadmin).0.Ok?
    ensures var (r, t') := RegisterOn(t, hasher, username, password, firstname, lastname, email, isadmin);
      AuthenticateOn(t', hasher, username, password) == r
  {
    var row := NewRow(hasher, username, password, firstname, lastname, email, isadmin);
    var t' := t + [row];
    assert RegisterOn(t, hasher, username, password, firstname, lastname, email, isadmin) == (Ok(Project(row, PublicColumns)), t');
    assert t'[|t|] == row;
    assert hasher.compare(password, hasher.hash(password));
    AuthenticateAt(t', hasher, username, password, |t|);
    DeleteIsPublic(row);
  }

  /** A username that is taken cannot be registered again, whatever else is
      supplied: after a successful registration the same username is refused. */
  lemma RegisterRejectsDuplicate(t: Table, hasher: Hasher, username: string, password: string,
                                 firstname: Value, lastname: Value, email: Value, isadmin: Value,
                                 password2: string, firstname2: Value, lastname2: Value, email2: Value, isadmin2: Value)
    requires WellFormed(t)
    requires RegisterOn(t, hasher, username, password, firstname, lastname, email, isadmin).0.Ok?
    ensures var t' := RegisterOn(t, hasher, username, password, firstname, lastname, email, isadmin).1;
      RegisterOn(t', hasher, username, password2, firstname2, lastname2, email2, isadmin2)
        == (Err(BadRequest("Duplicate username: " + username)), t')
  {
    var row := NewRow(hasher, username, password, firstname, lastname, email, isadmin);
    var t' := t + [row];
    assert Matches(t'[|t|], "username", Str(username));
  }

  /** A wrong password for an existing user is refused with the very error an
      unknown username gets, so the two cannot be told apart. */
  lemma WrongPasswordLikeUnknownUser(t: Table, hasher: Hasher, username: string, password: string, other: string, i: nat)
    requires WellFormed(t)
    requires i < |t| && Get(t[i], "username") == Str(username) && Get(t[i], "password").Str?
    requires !hasher.compare(password, Get(t[i], "password").s)
    requires Find(t, "username", Str(other)).None?
    ensures AuthenticateOn(t, hasher, username, password) == AuthenticateOn(t, hasher, other, password) == Err(InvalidLogin)
  {
    KeyFindsThatRow(t, "username", Str(username), i);
  }

  /** Updating a user who does not exist reports NotFound and changes nothing,
      given data the statement accepts (non-empty, known columns, each once). */
  lemma UpdateMissingUserNotFound(t: Table, hasher: Hasher, username: string, data: Props)
    requires WellFormed(t)
    requires Find(t, "username", Str(username)).None?
    requires data != [] && KeysOf(data) <= Columns && DistinctKeys(data)
    requires !Truthy(Lookup(data, "password")) || Lookup(data, "password").Str?
    ensures UpdateOn(t, hasher, username, data).0 == Err(NotFound("No user: " + username))
    ensures UpdateOn(t, hasher, username, data).1 == t
  {
    var hashed := HashPassword(hasher, data).value;
    HashPasswordKeeps(hasher, data, "");
    var w := ToParam(Str(username));
    var t' := seq(|t|, i requires 0 <= i < |t| => if Matches(t[i], "username", w) then Overwrite(t[i], hashed) else t[i]);
    assert t' == t;
    UpdateRowsOnUsers(t, username, hashed);
  }

  /** Updating an existing user writes each supplied property to its column
      (the password as its digest), keeps every other column and every other
      user, and returns the updated user's public columns. */
  lemma UpdateWritesUser(t: Table, hasher: Hasher, username: string, data: Props, i: nat)
    requires WellFormed(t)
    requires i < |t| && Get(t[i], "username") == Str(username)
    requires data != [] && KeysOf(data) <= Columns && DistinctKeys(data) && "username" !in KeysOf(data)
    requires !Truthy(Lookup(data, "password")) || Lookup(data, "password").Str?
    ensures var (r, t', data') := UpdateOn(t, hasher, username, data);
      && |t'| == |t|
      && r == Ok(Project(t'[i], PublicColumns))
      && (forall j :: 0 <= j < |t| && j != i ==> t'[j] == t[j])
      && (forall k :: Get(t'[i], k) == if k in KeysOf(data) then ToParam(Lookup(data', k)) else Get(t[i], k))
  {
    assert HashPassword(hasher, data).Ok?;
    var hashed := HashPassword(hasher, data).value;
    assert UpdateOn(t, hasher, username, data).2 == hashed;
    HashPasswordKeeps(hasher, data, "");
    UpdateKeepsKey(t, "username", Str(username), hashed);
    UpdateRowsOnUsers(t, username, hashed);
    UpdateRowsHit(t, Columns, "username", Str(username), hashed, PublicColumns, i);
    var t' := UpdateOn(t, hasher, username, data).1;
    forall k ensures Get(t'[i], k) == if k in KeysOf(data) then ToParam(Lookup(hashed, k)) else Get(t[i], k) {
      OverwriteGet(t[i], hashed, k);
    }
    PublicHasNoPassword(Project(t'[i], PublicColumns));
  }

  /** A new password given to update is stored as its digest, so it then
      authenticates the user. */
  lemma UpdateRehashesPassword(t: Table, hasher: Hasher, username: string, data: Props, i: nat, password: string)
    requires WellFormed(t) && hasher.Sound()
    requires i < |t| && Get(t[i], "username") == Str(username)
    requires data != [] && KeysOf(data) <= Columns && DistinctKeys(data) && "username" !in KeysOf(data)
    requires Lookup(data, "password") == Str(password) && password != ""
    ensures var t' := UpdateOn(t, hasher, username, data).1;
      && Get(t'[i], "password") == Str(hasher.hash(password))
      && AuthenticateOn(t', hasher, username, password) == Ok(Delete(t'[i], "password"))
  {
    UpdateWritesUser(t, hasher, username, data, i);
    LookupPresent(data, "password");
    var t' := UpdateOn(t, hasher, username, data).1;
    assert Get(t'[i], "password") == Str(hasher.hash(password));
    assert hasher.compare(password, hasher.hash(password));
    AuthenticateAt(t', hasher, username, password, i);
  }

  /** A falsy password skips hashing: an empty password given to update is
      written to the table as the empty string, not as a digest. */
  lemma UpdateEmptyPasswordStoredVerbatim(t: Table, hasher: Hasher, username: string, data: Props, i: nat)
    requires WellFormed(t)
    requires i < |t| && Get(t[i], "username") == Str(username)
    requires data != [] && KeysOf(data) <= Columns && DistinctKeys(data) && "username" !in KeysOf(data)
    requires Lookup(data, "password") == Str("")
    ensures Get(UpdateOn(t, hasher, username, data).1[i], "password") == Str("")
  {
    UpdateWritesUser(t, hasher, username, data, i);
    LookupPresent(data, "password");
  }

  /** Removing a user makes it unknown to get and to a second remove. */
  lemma RemoveForgetsUser(t: Table, username: string)
    requires WellFormed(t)
    ensures var t' := RemoveOn(t, username).1;
      && GetOn(t', username) == Err(NotFound("No user: " + username))
      && RemoveOn(t', username).0 == Err(NotFound("No user: " + username))
  {
    var t' := RemoveOn(t, username).1;
    forall j | 0 <= j < |t'| ensures !Matches(t'[j], "username", Str(username)) {
      assert t'[j] in t';
    }
    assert Find(t', "username", Str(username)).None?;
  }

  /** Removing a user leaves every other user exactly as it was. */
  lemma RemoveKeepsOtherUsers(t: Table, username: string, other: string)
    requires WellFormed(t)
    requires other != username
    ensures GetOn(RemoveOn(t, username).1, other) == GetOn(t, other)
  {
    FindSameRow(t, RemoveOn(t, username).1, "username", Str(other));
  }
}
