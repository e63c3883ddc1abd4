/** The `User` record of the users application and the constraints its
    table keeps: a unique, non-blank e-mail of at most 254 characters, a
    unique username that is never `me`, no avatar until one is uploaded,
    and listings ordered by e-mail. */
module UserModels {
  import opened Common
  import opened Strings

  /** `EMAIL_FIELD_LENGTH` of the users constants. */
  const EmailMaxLength: nat := 254

  /** The username forbidden by the `username_me_banned_word` check constraint. */
  const BannedUsername: string := "me"

  /** `avatar` holds the stored file name, `None` when there is none. */
  datatype User = User(
    id: nat,
    username: string,
    email: string,
    firstName: string,
    lastName: string,
    avatar: Option<string>)

  /** A user as the model creates it: the avatar takes its default, none. */
  function NewUser(id: nat, username: string, email: string, firstName: string, lastName: string): (u: User)
    ensures u.avatar == None
    ensures u.id == id && u.username == username && u.email == email
    ensures u.firstName == firstName && u.lastName == lastName
  {
    User(id, username, email, firstName, lastName, None)
  }

  /** `__str__`: a user is shown by username. */
  function UserStr(u: User): (r: string)
    ensures r == u.username
  {
    u.username
  }

  /** In a valid table the string form tells users apart. */
  lemma UserStrIdentifies(users: seq<User>, i: nat, j: nat)
    requires UsersValid(users) && i < |users| && j < |users| && i != j
    ensures UserStr(users[i]) != UserStr(users[j])
  {
    if j < i {
      assert users[j].username != users[i].username;
    }
  }

  /** The per-record constraints: e-mail non-blank and within its length,
      username not the banned word. */
  predicate UserRecordValid(u: User) {
    u.email != "" && |u.email| <= EmailMaxLength && u.username != BannedUsername
  }

  /** The table constraints: every record valid; id, e-mail and username
      unique (`username` is unique on the framework's base user model). */
  predicate UsersValid(users: seq<User>) {
    && (forall i :: 0 <= i < |users| ==> UserRecordValid(users[i]))
    && (forall i, j :: 0 <= i < j < |users| ==>
          users[i].id != users[j].id
          && users[i].email != users[j].email
          && users[i].username != users[j].username)
  }

  /** `u` can join the table without breaking any constraint. */
  predicate CanInsertUser(users: seq<User>, u: User) {
    UserRecordValid(u)
    && forall i :: 0 <= i < |users| ==>
         users[i].id != u.id && users[i].email != u.email && users[i].username != u.username
  }

  /** Inserting a user keeps the table valid exactly when the new record is
      valid and clashes with no existing id, e-mail or username. */
  lemma InsertUserValid(users: seq<User>, u: User)
    requires UsersValid(users)
    ensures UsersValid(users + [u]) <==> CanInsertUser(users, u)
  {
    var t := users + [u];
    if UsersValid(t) {
      assert UserRecordValid(t[|users|]);
      forall i | 0 <= i < |users|
        ensures users[i].id != u.id && users[i].email != u.email && users[i].username != u.username
      {
        assert t[i] == users[i] && t[|users|] == u;
      }
    }
  }

  /** Changing fields outside the constraints (here the avatar) keeps the
      table valid. */
  lemma ReplaceUserValid(users: seq<User>, k: nat, u: User)
    requires UsersValid(users) && k < |users|
    requires u.id == users[k].id && u.email == users[k].email && u.username == users[k].username
    ensures UsersValid(users[k := u])
  {
    var t := users[k := u];
    assert forall i :: 0 <= i < |t| ==> t[i].id == users[i].id && t[i].email == users[i].email && t[i].username == users[i].username;
  }

  // ---- default ordering: by e-mail ----

  predicate SortedByEmail(users: seq<User>) {
    forall i :: 0 < i < |users| ==> StrLe(users[i - 1].email, users[i].email)
  }

  function InsertByEmail(u: User, users: seq<User>): (r: seq<User>)
    requires SortedByEmail(users)
    ensures SortedByEmail(r)
    ensures multiset(r) == multiset(users) + multiset{u}
    ensures |r| == |users| + 1
    ensures r != [] && (r[0] == u || (users != [] && r[0] == users[0]))
    decreases |users|
  {
    if users == [] || StrLe(u.email, users[0].email) then
      [u] + users
    else
      StrLeTotal(u.email, users[0].email);
      var tail := InsertByEmail(u, users[1..]);
      assert users == [users[0]] + users[1..];
      [users[0]] + tail
  }

  /** The order in which the user table is listed (`ordering = ('email',)`):
      sorted by e-mail, and a permutation of the table. */
  function OrderByEmail(users: seq<User>): (r: seq<User>)
    ensures SortedByEmail(r)
    ensures multiset(r) == multiset(users)
    decreases |users|
  {
    if users == [] then []
    else
      assert users == [users[0]] + users[1..];
      InsertByEmail(users[0], OrderByEmail(users[1..]))
  }
}
