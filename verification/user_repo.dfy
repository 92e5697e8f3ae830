/** The user table: create, partial update, and the three unique lookups. */
module UserRepo {
  import opened Errors
  import Crypto

  /** A row of the user table; `lastLoginAt` is a timestamp in milliseconds. */
  datatype User = User(
    id: string,
    username: string,
    email: string,
    passwordHash: string,
    lastLoginAt: int)

  /** The table in insertion order. */
  type Table = seq<User>

  /** The `where` argument of a unique lookup. */
  datatype Where = ById(id: string) | ByUsername(username: string) | ByEmail(email: string)

  predicate Matches(u: User, w: Where) {
    match w
    case ById(id) => u.id == id
    case ByUsername(name) => u.username == name
    case ByEmail(email) => u.email == email
  }

  /** The table's unique columns: no two rows share an id, a username or an email. */
  predicate Unique(t: Table) {
    forall i, j :: 0 <= i < j < |t| ==>
      t[i].id != t[j].id && t[i].username != t[j].username && t[i].email != t[j].email
  }

  /** `findUnique`: the row matching `w`, or null. */
  function FindUnique(t: Table, w: Where): (r: Option<User>)
    ensures r.Some? ==> r.value in t && Matches(r.value, w)
    ensures r.None? ==> forall u :: u in t ==> !Matches(u, w)
  {
    if |t| == 0 then None
    else if Matches(t[0], w) then Some(t[0])
    else FindUnique(t[1..], w)
  }

  /** On a table that keeps its unique columns, a lookup finds the one
      matching row. */
  lemma FindUniqueFindsTheRow(t: Table, w: Where, u: User)
    requires Unique(t)
    requires u in t && Matches(u, w)
    ensures FindUnique(t, w) == Some(u)
  {
  }

  function GetUserByUsername(t: Table, username: string): (r: Option<User>)
    ensures r.Some? ==> r.value in t && r.value.username == username
    ensures r.None? <==> forall u :: u in t ==> u.username != username
  {
    FindUnique(t, ByUsername(username))
  }

  function GetUserById(t: Table, id: string): (r: Option<User>)
    ensures r.Some? ==> r.value in t && r.value.id == id
    ensures r.None? <==> forall u :: u in t ==> u.id != id
  {
    FindUnique(t, ById(id))
  }

  function GetUserByEmail(t: Table, email: string): (r: Option<User>)
    ensures r.Some? ==> r.value in t && r.value.email == email
    ensures r.None? <==> forall u :: u in t ==> u.email != email
  {
    FindUnique(t, ByEmail(email))
  }

  /** `argon2.hash` of the plaintext password. */
  function HashPassword(h: Crypto.Hasher, password: string): string {
    h.argonHash(password)
  }

  /** `createUser`: appends a row whose password is stored hashed. The
      caller supplies the generated id and the default `lastLoginAt`;
      the id, username and email must not be taken. */
  function CreateUser(h: Crypto.Hasher, t: Table, id: string, username: string, email: string,
                      password: string, now: int): (r: (User, Table))
    requires Unique(t)
    requires GetUserById(t, id).None?
    requires GetUserByUsername(t, username).None?
    requires GetUserByEmail(t, email).None?
    ensures r.0.id == id && r.0.username == username && r.0.email == email
    ensures r.0.passwordHash == HashPassword(h, password)
    ensures r.0.lastLoginAt == now
    ensures Unique(r.1)
    ensures GetUserById(r.1, id) == Some(r.0)
    ensures GetUserByUsername(r.1, username) == Some(r.0)
    ensures GetUserByEmail(r.1, email) == Some(r.0)
    ensures forall u :: u in t ==> u in r.1
    ensures forall u :: u in r.1 ==> u in t || u == r.0
    ensures |r.1| == |t| + 1
  {
    var user := User(id, username, email, HashPassword(h, password), now);
    var t' := t + [user];
    assert user in t';
    FindUniqueFindsTheRow(t', ById(id), user);
    FindUniqueFindsTheRow(t', ByUsername(username), user);
    FindUniqueFindsTheRow(t', ByEmail(email), user);
    (user, t')
  }

  /** The optional fields of `updateUser`; `None` is `undefined`. */
  datatype UpdateUserInput = UpdateUserInput(
    username: Option<string>,
    email: Option<string>,
    password: Option<string>,
    lastLogin: Option<int>)

  /** Only a truthy password is rehashed: the empty string counts as absent. */
  predicate RehashesPassword(input: UpdateUserInput) {
    input.password.Some? && input.password.value != ""
  }

  /** The row after a partial update: supplied fields overwrite, absent ones stay. */
  function ApplyUpdate(h: Crypto.Hasher, u: User, input: UpdateUserInput): (r: User)
    ensures r.id == u.id
    ensures input.username.None? ==> r.username == u.username
    ensures input.username.Some? ==> r.username == input.username.value
    ensures input.email.None? ==> r.email == u.email
    ensures input.email.Some? ==> r.email == input.email.value
    ensures !RehashesPassword(input) ==> r.passwordHash == u.passwordHash
    ensures RehashesPassword(input) ==> r.passwordHash == HashPassword(h, input.password.value)
    ensures input.lastLogin.None? ==> r.lastLoginAt == u.lastLoginAt
    ensures input.lastLogin.Some? ==> r.lastLoginAt == input.lastLogin.value
  {
    User(
      u.id,
      input.username.ValueOr(u.username),
      input.email.ValueOr(u.email),
      if RehashesPassword(input) then HashPassword(h, input.password.value) else u.passwordHash,
      input.lastLogin.ValueOr(u.lastLoginAt))
  }

  /** A new username or email must not belong to another row. */
  predicate UpdateKeepsUnique(t: Table, id: string, input: UpdateUserInput) {
    && (input.username.Some? ==> forall u :: u in t && u.username == input.username.value ==> u.id == id)
    && (input.email.Some? ==> forall u :: u in t && u.email == input.email.value ==> u.id == id)
  }

  /** `updateUser`: rewrites the row with that id and returns it. */
  function UpdateUser(h: Crypto.Hasher, t: Table, id: string, input: UpdateUserInput): (r: (User, Table))
    requires Unique(t)
    requires GetUserById(t, id).Some?
    requires UpdateKeepsUnique(t, id, input)
    ensures r.0 == ApplyUpdate(h, GetUserById(t, id).value, input)
    ensures |r.1| == |t|
    ensures forall i :: 0 <= i < |t| && t[i].id != id ==> r.1[i] == t[i]
    ensures forall i :: 0 <= i < |t| && t[i].id == id ==> r.1[i] == r.0
    ensures Unique(r.1)
    ensures GetUserById(r.1, id) == Some(r.0)
  {
    var before := GetUserById(t, id).value;
    var u := ApplyUpdate(h, before, input);
    var t' := seq(|t|, i requires 0 <= i < |t| => if t[i].id == id then u else t[i]);
    var k :| 0 <= k < |t| && t[k] == before;
    assert t'[k] == u;
    assert Unique(t') by {
      forall i, j | 0 <= i < j < |t'|
        ensures t'[i].id != t'[j].id && t'[i].username != t'[j].username && t'[i].email != t'[j].email
      {
        assert t[i].id != t[j].id;
        if t[i].id == id {
          assert t[j] in t;
        } else if t[j].id == id {
          assert t[i] in t;
        }
      }
    }
    FindUniqueFindsTheRow(t', ById(id), u);
    (u, t')
  }
}
