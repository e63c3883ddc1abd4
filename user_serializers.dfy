/** The user-side serializers: the base64 image field's header handling,
    the sign-up checks on username and e-mail, and the avatar update. */
module UserSerializers {
  import opened Common
  import opened Strings
  import opened UserModels
  import opened Store

  // ---- Base64ImageField.to_internal_value ----

  const DataImagePrefix: string := "data:image"
  const Base64Separator: string := ";base64,"
  const TempPrefix: string := "temp."

  /** What the field receives: a string, or anything else (an uploaded file). */
  datatype ImageInput = Text(s: string) | NonText

  /** What the field hands on to the image field proper: the input itself,
      or a named upload built from the encoded payload (still encoded:
      decoding is not part of this model). */
  datatype ImageData = Passed(input: ImageInput) | Upload(name: string, encoded: string)

  /** Unpacking the pieces of the split into two names fails with this
      many pieces. */
  datatype ImageError = UnpackError(pieces: nat)

  /** `to_internal_value`, up to the decoding: a string starting with
      `data:image` is split at `;base64,` into exactly two pieces, the first
      naming the format; the upload is named `temp.` plus the text after the
      format's last `/`. Anything else is passed on untouched. */
  function ToInternalValue(data: ImageInput): (r: Result<ImageData, ImageError>)
    ensures !(data.Text? && StartsWith(data.s, DataImagePrefix)) ==> r == Ok(Passed(data))
    ensures data.Text? && StartsWith(data.s, DataImagePrefix) && r.Ok? ==>
              r.value.Upload? &&
              exists header :: data.s == header + Base64Separator + r.value.encoded
                && !Contains(header, Base64Separator) && !Contains(r.value.encoded, Base64Separator)
                && r.value.name == TempPrefix + LastPiece(header, "/")
    ensures data.Text? && StartsWith(data.s, DataImagePrefix) && !Contains(data.s, Base64Separator) ==>
              r == Err(UnpackError(1))
  {
    if data.Text? && StartsWith(data.s, DataImagePrefix) then
      var parts := Split(data.s, Base64Separator);
      SplitSingleIff(data.s, Base64Separator);
      if |parts| != 2 then Err(UnpackError(|parts|))
      else
        SplitJoin(data.s, Base64Separator);
        SplitPartsFree(data.s, Base64Separator);
        assert parts[1..] == [parts[1]];
        assert data.s == parts[0] + Base64Separator + parts[1];
        Ok(Upload(TempPrefix + LastPiece(parts[0], "/"), parts[1]))
    else Ok(Passed(data))
  }

  /** The file extension the field derives never holds a `/`: it is the
      whole format when there is no `/`, and otherwise what follows the last
      one. */
  lemma UploadNameExtension(header: string)
    ensures StartsWith(TempPrefix + LastPiece(header, "/"), TempPrefix)
    ensures !Contains((TempPrefix + LastPiece(header, "/"))[|TempPrefix|..], "/")
  {
    var ext := LastPiece(header, "/");
    LastPieceProperties(header, "/");
    var name := TempPrefix + ext;
    assert name[..|TempPrefix|] == TempPrefix && name[|TempPrefix|..] == ext;
  }

  /** A `;base64,` occurrence cannot start inside the text before another
      one: its first character `;` does not occur again in it. */
  lemma SeparatorStartsOnlyAtItsStart(header: string, body: string, j: nat)
    requires j < |header| < j + |Base64Separator|
    ensures !OccursAt(header + Base64Separator + body, Base64Separator, j)
  {
    var s := header + Base64Separator + body;
    var d := |header| - j;
    var w := s[j..j + |Base64Separator|];
    assert w[d] == s[|header|] == ';';
    assert Base64Separator[d] != ';';
    assert w != Base64Separator;
  }

  /** One well-formed header and payload round-trip through the field: the
      string `header;base64,payload` gives back the payload and a name from
      the header. */
  lemma ToInternalValueRoundTrip(header: string, body: string)
    requires StartsWith(header, DataImagePrefix)
    requires !Contains(header, Base64Separator) && !Contains(body, Base64Separator)
    ensures ToInternalValue(Text(header + Base64Separator + body)) == Ok(Upload(TempPrefix + LastPiece(header, "/"), body))
  {
    var sep := Base64Separator;
    var s := header + sep + body;
    assert s[..|DataImagePrefix|] == header[..|DataImagePrefix|];
    forall j | 0 <= j < |header| ensures !OccursAt(s, sep, j) {
      if j + |sep| <= |header| {
        assert s[j..j + |sep|] == header[j..j + |sep|];
        if OccursAt(s, sep, j) {
          assert OccursAt(header, sep, j);
        }
      } else {
        SeparatorStartsOnlyAtItsStart(header, body, j);
      }
    }
    assert s[|header|..|header| + |sep|] == sep;
    assert OccursAt(s, sep, |header|);
    var f := FindFrom(s, sep, 0);
    assert f == Some(|header|);
    assert s[|header| + |sep|..] == body;
    assert s[..|header|] == header;
    assert FindFrom(body, sep, 0).None?;
    assert Split(body, sep) == [body];
    assert Split(s, sep) == [s[..|header|]] + Split(s[|header| + |sep|..], sep);
  }

  /** A `data:image` string with two separate `;base64,` occurrences fails
      to unpack, as one with none does. */
  lemma ToInternalValueTwoSeparators(s: string, i: nat, j: nat)
    requires StartsWith(s, DataImagePrefix)
    requires OccursAt(s, Base64Separator, i) && OccursAt(s, Base64Separator, j) && i + |Base64Separator| <= j
    ensures ToInternalValue(Text(s)).Err?
    ensures ToInternalValue(Text(s)).error.pieces >= 3
  {
    SplitTwoOccurrences(s, Base64Separator, i, j);
  }

  // ---- SignUpSerializer.validate_username / validate_email ----

  /** `\w`: letters, digits and the underscore (Latin and basic Cyrillic
      letters here). */
  predicate WordChar(c: char) {
    ('a' <= c <= 'z') || ('A' <= c <= 'Z') || ('0' <= c <= '9') || c == '_'
    || ('а' <= c <= 'я') || ('А' <= c <= 'Я') || c == 'ё' || c == 'Ё'
  }

  /** `[\w.@+-]` */
  predicate UsernameChar(c: char) {
    WordChar(c) || c == '.' || c == '@' || c == '+' || c == '-'
  }

  /** How far the greedy `[\w.@+-]+` reaches from the start. */
  function LeadingRun(s: string): (n: nat)
    ensures n <= |s|
    ensures forall i :: 0 <= i < n ==> UsernameChar(s[i])
    ensures n < |s| ==> !UsernameChar(s[n])
    decreases |s|
  {
    if s == [] || !UsernameChar(s[0]) then 0
    else
      var n := 1 + LeadingRun(s[1..]);
      assert forall i :: 1 <= i < n ==> s[i] == s[1..][i - 1];
      n
  }

  /** `re.match(r'^[\w.@+-]+$', s)`: the run must be non-empty and `$` must
      hold where it stops, at the end or just before a final newline
      (backtracking cannot help: a shorter run stops before a class
      character, where `$` fails). */
  predicate UsernamePatternMatches(s: string) {
    var n := LeadingRun(s);
    n >= 1 && (n == |s| || (n == |s| - 1 && s[n] == '\n'))
  }

  /** The pattern accepts exactly the non-empty strings of class characters,
      each optionally followed by one final newline. */
  lemma UsernamePatternIff(s: string)
    ensures UsernamePatternMatches(s) <==>
              (s != [] && forall i :: 0 <= i < |s| ==> UsernameChar(s[i]))
              || (|s| >= 2 && s[|s| - 1] == '\n' && forall i :: 0 <= i < |s| - 1 ==> UsernameChar(s[i]))
  {
    var n := LeadingRun(s);
    assert !UsernameChar('\n');
    if s != [] && forall i :: 0 <= i < |s| ==> UsernameChar(s[i]) {
      assert n == |s|;
    }
    if |s| >= 2 && s[|s| - 1] == '\n' && forall i :: 0 <= i < |s| - 1 ==> UsernameChar(s[i]) {
      assert n >= |s| - 1;
      assert n == |s| - 1;
    }
  }

  datatype SignUpError = UsernameTaken | UsernameInvalid | EmailTaken

  function UsernameIs(name: string): User -> bool {
    (u: User) => u.username == name
  }

  function EmailIs(email: string): User -> bool {
    (u: User) => u.email == email
  }

  lemma OrderedMember(users: seq<User>, x: User)
    requires x in OrderByEmail(users)
    ensures x in users
  {
    assert x in multiset(OrderByEmail(users));
  }

  /** `validate_username`: taken by a user (the first in the table's e-mail
      order) whose e-mail is not the submitted one comes first; then the
      pattern and the banned word. `initialEmail` is the raw submitted
      e-mail, `None` when absent. */
  function ValidateUsername(users: seq<User>, value: string, initialEmail: Option<string>): (r: Result<string, SignUpError>)
    ensures r.Ok? ==> r.value == value && UsernamePatternMatches(value) && value != BannedUsername
    ensures r.Err? ==> r.error == UsernameTaken || r.error == UsernameInvalid
    ensures r == Err(UsernameTaken) ==>
              exists i :: 0 <= i < |users| && users[i].username == value && Some(users[i].email) != initialEmail
    ensures !UsernamePatternMatches(value) || value == BannedUsername ==> r.Err?
  {
    var existing := FirstMatch(OrderByEmail(users), UsernameIs(value));
    if existing.Some? && Some(existing.value.email) != initialEmail then
      OrderedMember(users, existing.value);
      Err(UsernameTaken)
    else if !UsernamePatternMatches(value) || value == BannedUsername then Err(UsernameInvalid)
    else Ok(value)
  }

  /** The first match in the ordered listing is, in a valid table, the one
      user holding that username; none when nobody does. */
  lemma FirstByUsername(users: seq<User>, value: string, i: nat)
    requires UsersValid(users) && i < |users| && users[i].username == value
    ensures FirstMatch(OrderByEmail(users), UsernameIs(value)) == Some(users[i])
  {
    var ordered := OrderByEmail(users);
    assert users[i] in multiset(ordered);
    assert UsernameIs(value)(users[i]);
    var m := FirstMatch(ordered, UsernameIs(value));
    assert m.Some?;
    OrderedMember(users, m.value);
    var k :| 0 <= k < |users| && users[k] == m.value;
    assert k == i;
  }

  /** In a valid table the username is refused as taken exactly when some
      user holds it under an e-mail other than the submitted one, whatever
      the username looks like (the uniqueness check runs first); it is
      accepted exactly when it is not so taken, matches the pattern and is
      not the banned word; a username held under the submitted e-mail is not
      refused as taken. */
  lemma ValidateUsernameTaken(users: seq<User>, value: string, initialEmail: Option<string>)
    requires UsersValid(users)
    ensures ValidateUsername(users, value, initialEmail) == Err(UsernameTaken) <==>
              exists i :: 0 <= i < |users| && users[i].username == value && Some(users[i].email) != initialEmail
    ensures ValidateUsername(users, value, initialEmail) == Ok(value) <==>
              !(exists i :: 0 <= i < |users| && users[i].username == value && Some(users[i].email) != initialEmail)
              && UsernamePatternMatches(value) && value != BannedUsername
    ensures (exists i :: 0 <= i < |users| && users[i].username == value && Some(users[i].email) == initialEmail)
            && UsernamePatternMatches(value) && value != BannedUsername
            ==> ValidateUsername(users, value, initialEmail) == Ok(value)
  {
    if exists i :: 0 <= i < |users| && users[i].username == value {
      var i :| 0 <= i < |users| && users[i].username == value;
      FirstByUsername(users, value, i);
      forall k | 0 <= k < |users| && users[k].username == value ensures k == i {
      }
    }
  }

  /** The one username the format check can never let through. */
  lemma BannedUsernameRefused(users: seq<User>, initialEmail: Option<string>)
    ensures ValidateUsername(users, BannedUsername, initialEmail).Err?
  {
  }

  /** `validate_email`: refused when the first user holding the e-mail has a
      username other than the submitted one (`None` when absent). */
  function ValidateEmail(users: seq<User>, value: string, initialUsername: Option<string>): (r: Result<string, SignUpError>)
    ensures r.Ok? ==> r.value == value
    ensures r.Err? ==> r.error == EmailTaken
    ensures r.Err? ==> exists i :: 0 <= i < |users| && users[i].email == value && Some(users[i].username) != initialUsername
    ensures (forall i :: 0 <= i < |users| ==> users[i].email != value) ==> r == Ok(value)
  {
    var existing := FirstMatch(OrderByEmail(users), EmailIs(value));
    if existing.Some? && Some(existing.value.username) != initialUsername then
      OrderedMember(users, existing.value);
      Err(EmailTaken)
    else Ok(value)
  }

  /** In a valid table the e-mail is refused exactly when its holder's
      username is not the submitted one. */
  lemma ValidateEmailTaken(users: seq<User>, value: string, initialUsername: Option<string>)
    requires UsersValid(users)
    ensures ValidateEmail(users, value, initialUsername).Err? <==>
              exists i :: 0 <= i < |users| && users[i].email == value && Some(users[i].username) != initialUsername
  {
    if exists i :: 0 <= i < |users| && users[i].email == value && Some(users[i].username) != initialUsername {
      var i :| 0 <= i < |users| && users[i].email == value && Some(users[i].username) != initialUsername;
      var ordered := OrderByEmail(users);
      assert users[i] in multiset(ordered);
      assert EmailIs(value)(users[i]);
      var m := FirstMatch(ordered, EmailIs(value));
      OrderedMember(users, m.value);
      var k :| 0 <= k < |users| && users[k] == m.value;
      assert k == i;
    }
  }

  // ---- AvatarSerializer.update ----

  /** `instance.avatar = validated_data.get('avatar', instance.avatar)`:
      `newAvatar` is the validated value, `None` when the key is absent. */
  function AvatarAfterUpdate(u: User, newAvatar: Option<string>): (r: User)
    ensures newAvatar.None? ==> r == u
    ensures newAvatar.Some? ==> r.avatar == Some(newAvatar.value)
    ensures r.id == u.id && r.username == u.username && r.email == u.email
    ensures r.firstName == u.firstName && r.lastName == u.lastName
  {
    match newAvatar
    case None => u
    case Some(a) => u.(avatar := Some(a))
  }

  /** `update` followed by `instance.save()`: the record at `k` is replaced
      by its updated form, and nothing else changes. */
  method UpdateAvatar(db: Database, k: nat, newAvatar: Option<string>)
    requires k < |db.users|
    modifies db
    ensures db.users == old(db.users)[k := AvatarAfterUpdate(old(db.users)[k], newAvatar)]
    ensures db.ingredients == old(db.ingredients) && db.tags == old(db.tags) && db.recipes == old(db.recipes)
    ensures db.recipeIngredients == old(db.recipeIngredients)
    ensures db.favorites == old(db.favorites) && db.shoppingList == old(db.shoppingList)
    ensures db.subscriptions == old(db.subscriptions)
    ensures old(db.Valid()) ==> db.Valid()
  {
    ghost var before := db.users;
    ghost var valid := db.Valid();
    db.users := db.users[k := AvatarAfterUpdate(db.users[k], newAvatar)];
    if valid {
      ReplaceUserValid(before, k, db.users[k]);
      SameIdsKeepReferences(db.recipes, before, db.users, db.tags);
    }
  }
}
