/** The user view set's own actions: the serializer chosen per method, the
    avatar upload and removal, the unsubscribe branch of `subscribe`, and
    the requester's subscriptions listing. A response is its status code
    and a tag for its body. */
module UserViews {
  import opened Common
  import opened Strings
  import opened UserModels
  import opened ApiModels
  import opened Store
  import opened UserSerializers

  const HttpOk: nat := 200
  const HttpNoContent: nat := 204
  const HttpBadRequest: nat := 400
  const HttpNotFound: nat := 404
  const HttpServerError: nat := 500

  const UnsubscribedMessage: string := "Успешная отписка"
  const NotSubscribedMessage: string := "Вы не подписаны"

  datatype Body =
    | Empty
    | Detail(text: string)                  // a bare string body
    | Errors(key: string, message: string)  // a one-entry error mapping
    | FieldInvalid(field: string)           // the serializer's error for one field
    | Serialized                            // the serializer's data

  datatype Response = Response(status: nat, body: Body)

  // ---- get_serializer_class ----

  datatype HttpMethod = Get | Post | Put | Patch | Delete

  datatype SerializerClass = SignUp | Profile

  /** POST signs up, GET shows profiles; any other method falls off the end
      of the method and gets no class. */
  function GetSerializerClass(m: HttpMethod): (r: Option<SerializerClass>)
    ensures r == Some(SignUp) <==> m == Post
    ensures r == Some(Profile) <==> m == Get
    ensures r.None? <==> m != Post && m != Get
  {
    if m == Post then Some(SignUp)
    else if m == Get then Some(Profile)
    else None
  }

  // ---- get_object_or_404(User, id=...) ----

  /** The position of the first user with this id. */
  function UserIndexFrom(users: seq<User>, id: nat, from: nat): (r: Option<nat>)
    ensures r.Some? ==> from <= r.value < |users| && users[r.value].id == id
    ensures r.None? <==> forall i :: from <= i < |users| ==> users[i].id != id
    decreases |users| - from
  {
    if from >= |users| then None
    else if users[from].id == id then Some(from)
    else UserIndexFrom(users, id, from + 1)
  }

  function UserIndex(users: seq<User>, id: nat): (r: Option<nat>)
    ensures r.Some? ==> r.value < |users| && users[r.value].id == id
    ensures r.None? <==> !HasUser(users, id)
  {
    UserIndexFrom(users, id, 0)
  }

  // ---- subscribe, DELETE ----

  /** The answer to unsubscribing `user` from `author`: 404 when there is
      no such author, 204 with a confirmation when the pair is subscribed,
      and otherwise 400 with the "not subscribed" error. */
  function UnsubscribeResponse(users: seq<User>, subs: set<Subscription>, user: nat, author: nat): (r: Response)
    ensures r.status == HttpNotFound <==> !HasUser(users, author)
    ensures r == Response(HttpNoContent, Detail(UnsubscribedMessage)) <==>
              HasUser(users, author) && Subscription(user, author) in subs
    ensures r == Response(HttpBadRequest, Errors("errors", NotSubscribedMessage)) <==>
              HasUser(users, author) && Subscription(user, author) !in subs
  {
    if !HasUser(users, author) then Response(HttpNotFound, Empty)
    else if Subscription(user, author) in subs then Response(HttpNoContent, Detail(UnsubscribedMessage))
    else Response(HttpBadRequest, Errors("errors", NotSubscribedMessage))
  }

  /** The relation after unsubscribing: exactly the one pair is gone when it
      was there and the author exists; otherwise nothing changes. */
  function SubscriptionsAfterUnsubscribe(users: seq<User>, subs: set<Subscription>, user: nat, author: nat): (r: set<Subscription>)
    ensures r <= subs
    ensures HasUser(users, author) && Subscription(user, author) in subs ==>
              r == subs - {Subscription(user, author)} && |r| == |subs| - 1
    ensures UnsubscribeResponse(users, subs, user, author).status != HttpNoContent ==> r == subs
    ensures Subscription(user, author) !in r || !HasUser(users, author)
  {
    if HasUser(users, author) && Subscription(user, author) in subs then subs - {Subscription(user, author)}
    else subs
  }

  /** `subscribe` with DELETE by the authenticated `user`. */
  method Unsubscribe(db: Database, user: nat, author: nat) returns (res: Response)
    modifies db
    ensures res == UnsubscribeResponse(old(db.users), old(db.subscriptions), user, author)
    ensures db.subscriptions == SubscriptionsAfterUnsubscribe(old(db.users), old(db.subscriptions), user, author)
    ensures db.users == old(db.users) && db.ingredients == old(db.ingredients) && db.tags == old(db.tags)
    ensures db.recipes == old(db.recipes) && db.recipeIngredients == old(db.recipeIngredients)
    ensures db.favorites == old(db.favorites) && db.shoppingList == old(db.shoppingList)
    ensures old(db.Valid()) ==> db.Valid()
  {
    if UserIndex(db.users, author).None? {
      return Response(HttpNotFound, Empty);
    }
    var isSubscribed := Subscription(user, author) in db.subscriptions;
    if isSubscribed {
      db.subscriptions := db.subscriptions - {Subscription(user, author)};
      return Response(HttpNoContent, Detail(UnsubscribedMessage));
    }
    return Response(HttpBadRequest, Errors("errors", NotSubscribedMessage));
  }

  /** Unsubscribing is not repeatable: whatever the first call answered, a
      second one for an existing author answers "not subscribed" and
      changes nothing. */
  lemma UnsubscribeTwice(users: seq<User>, subs: set<Subscription>, user: nat, author: nat)
    requires HasUser(users, author)
    ensures var once := SubscriptionsAfterUnsubscribe(users, subs, user, author);
            UnsubscribeResponse(users, once, user, author) == Response(HttpBadRequest, Errors("errors", NotSubscribedMessage))
            && SubscriptionsAfterUnsubscribe(users, once, user, author) == once
  {
  }

  // ---- subscriptions ----

  /** `Subscription.objects.filter(user=...)`: the requester's own
      subscriptions, all of them. */
  function SubscriptionsOf(subs: set<Subscription>, user: nat): (r: set<Subscription>)
    ensures r <= subs
    ensures forall s :: s in subs && s.user == user ==> s in r
    ensures forall s :: s in r ==> s.user == user
  {
    set s | s in subs && s.user == user
  }

  /** Unsubscribing takes exactly that author out of the requester's
      listing and leaves every other user's listing as it was. */
  lemma UnsubscribeListing(users: seq<User>, subs: set<Subscription>, user: nat, author: nat, other: nat)
    requires HasUser(users, author) && other != user
    ensures SubscriptionsOf(SubscriptionsAfterUnsubscribe(users, subs, user, author), user)
              == SubscriptionsOf(subs, user) - {Subscription(user, author)}
    ensures SubscriptionsOf(SubscriptionsAfterUnsubscribe(users, subs, user, author), other)
              == SubscriptionsOf(subs, other)
  {
    var after := SubscriptionsAfterUnsubscribe(users, subs, user, author);
    assert forall s :: s in SubscriptionsOf(after, user) <==> s in SubscriptionsOf(subs, user) - {Subscription(user, author)};
    assert forall s :: s in SubscriptionsOf(after, other) <==> s in SubscriptionsOf(subs, other);
  }

  // ---- upload_avatar ----

  /** The `avatar` entry of a PUT body: absent, null, or a value. */
  datatype AvatarField = Absent | Null | Given(input: ImageInput)

  datatype AvatarRequest = PutAvatar(field: AvatarField) | DeleteAvatar

  /** What the image field makes of a given value. `decodes` says whether
      the base64 payload decodes and `imageValid` whether the image field
      proper accepts the file it is handed (an uploaded file or the decoded
      payload); both are opaque here. A failed unpacking of the header, like
      a payload that does not decode, is an exception the serializer does not
      turn into a validation error. A string that is not a `data:image` value
      is handed on as it is, and the file field refuses it as no file. */
  datatype FieldOutcome = Accepted | Rejected | Raised

  function AvatarFieldOutcome(input: ImageInput, decodes: bool, imageValid: bool): (r: FieldOutcome)
    ensures ToInternalValue(input).Err? ==> r == Raised
    ensures ToInternalValue(input).Ok? && ToInternalValue(input).value.Upload? && !decodes ==> r == Raised
    ensures input.Text? && !StartsWith(input.s, DataImagePrefix) ==> r == Rejected
    ensures ToInternalValue(input).Ok? && (ToInternalValue(input).value.Passed? || decodes) && !imageValid ==> r == Rejected
    ensures r == Accepted <==>
              imageValid
              && (input.NonText? || (ToInternalValue(input).Ok? && ToInternalValue(input).value.Upload? && decodes))
  {
    match ToInternalValue(input)
    case Err(_) => Raised
    case Ok(d) =>
      if d.Upload? && !decodes then Raised
      else if d.Passed? && input.Text? then Rejected
      else if imageValid then Accepted
      else Rejected
  }

  /** The answer to an avatar request by `user`: 404 for an unknown user;
      for PUT, 400 without the key, 400 for null or a rejected image, 500
      for an exception, otherwise 200; DELETE answers 204. */
  function AvatarResponse(users: seq<User>, user: nat, req: AvatarRequest, decodes: bool, imageValid: bool): (r: Response)
    ensures !HasUser(users, user) <==> r.status == HttpNotFound
    ensures HasUser(users, user) && req == PutAvatar(Absent) ==> r == Response(HttpBadRequest, Empty)
    ensures HasUser(users, user) && req == PutAvatar(Null) ==> r == Response(HttpBadRequest, FieldInvalid("avatar"))
    ensures HasUser(users, user) && req.DeleteAvatar? ==> r == Response(HttpNoContent, Empty)
    ensures HasUser(users, user) && req.PutAvatar? && req.field.Given?
              && AvatarFieldOutcome(req.field.input, decodes, imageValid) == Raised
            ==> r == Response(HttpServerError, Empty)
    ensures HasUser(users, user) && req.PutAvatar? && req.field.Given?
              && AvatarFieldOutcome(req.field.input, decodes, imageValid) == Rejected
            ==> r == Response(HttpBadRequest, FieldInvalid("avatar"))
    ensures r.status == HttpOk <==>
              HasUser(users, user) && req.PutAvatar? && req.field.Given?
              && AvatarFieldOutcome(req.field.input, decodes, imageValid) == Accepted
  {
    if !HasUser(users, user) then Response(HttpNotFound, Empty)
    else match req
      case DeleteAvatar => Response(HttpNoContent, Empty)
      case PutAvatar(Absent) => Response(HttpBadRequest, Empty)
      case PutAvatar(Null) => Response(HttpBadRequest, FieldInvalid("avatar"))
      case PutAvatar(Given(input)) =>
        match AvatarFieldOutcome(input, decodes, imageValid)
        case Raised => Response(HttpServerError, Empty)
        case Rejected => Response(HttpBadRequest, FieldInvalid("avatar"))
        case Accepted => Response(HttpOk, Serialized)
  }

  /** The user table after an avatar request: on 200 the requester's avatar
      is the stored file `stored`, on 204 it is cleared; in every other case
      nothing changes. No other user and no other field is touched. */
  function UsersAfterAvatar(users: seq<User>, user: nat, req: AvatarRequest, decodes: bool, imageValid: bool, stored: string): (r: seq<User>)
    ensures |r| == |users|
    ensures SameIds(users, r)
    ensures var status := AvatarResponse(users, user, req, decodes, imageValid).status;
            status != HttpOk && status != HttpNoContent ==> r == users
    ensures forall i :: 0 <= i < |users| && users[i].id != user ==> r[i] == users[i]
    ensures forall i :: 0 <= i < |users| ==>
              r[i] == users[i].(avatar := r[i].avatar)
    ensures var k := UserIndex(users, user);
            k.Some? && AvatarResponse(users, user, req, decodes, imageValid).status == HttpOk ==> r[k.value].avatar == Some(stored)
    ensures var k := UserIndex(users, user);
            k.Some? && req.DeleteAvatar? ==> r[k.value].avatar.None?
  {
    match UserIndex(users, user)
    case None => users
    case Some(k) =>
      var status := AvatarResponse(users, user, req, decodes, imageValid).status;
      if status == HttpOk then users[k := AvatarAfterUpdate(users[k], Some(stored))]
      else if status == HttpNoContent then users[k := users[k].(avatar := None)]
      else users
  }

  /** A plain string such as `hello` is never a stored avatar, whatever the
      image field would say of a file: the answer is 400 naming the field and
      the table is unchanged. */
  lemma PlainStringAvatarRefused(users: seq<User>, user: nat, decodes: bool, imageValid: bool, stored: string)
    requires HasUser(users, user)
    ensures AvatarResponse(users, user, PutAvatar(Given(Text("hello"))), decodes, imageValid)
              == Response(HttpBadRequest, FieldInvalid("avatar"))
    ensures UsersAfterAvatar(users, user, PutAvatar(Given(Text("hello"))), decodes, imageValid, stored) == users
  {
    assert !StartsWith("hello", DataImagePrefix) by {
      assert "hello"[0] != DataImagePrefix[0];
    }
  }

  /** `upload_avatar`. */
  method UploadAvatar(db: Database, user: nat, req: AvatarRequest, decodes: bool, imageValid: bool, stored: string)
    returns (res: Response)
    modifies db
    ensures res == AvatarResponse(old(db.users), user, req, decodes, imageValid)
    ensures db.users == UsersAfterAvatar(old(db.users), user, req, decodes, imageValid, stored)
    ensures db.ingredients == old(db.ingredients) && db.tags == old(db.tags) && db.recipes == old(db.recipes)
    ensures db.recipeIngredients == old(db.recipeIngredients)
    ensures db.favorites == old(db.favorites) && db.shoppingList == old(db.shoppingList)
    ensures db.subscriptions == old(db.subscriptions)
    ensures old(db.Valid()) ==> db.Valid()
  {
    ghost var before := db.users;
    ghost var valid := db.Valid();
    var found := UserIndex(db.users, user);
    if found.None? {
      return Response(HttpNotFound, Empty);
    }
    var k := found.value;
    match req {
      case PutAvatar(field) =>
        if field.Absent? {
          return Response(HttpBadRequest, Empty);
        }
        if field.Null? {
          return Response(HttpBadRequest, FieldInvalid("avatar"));
        }
        var outcome := AvatarFieldOutcome(field.input, decodes, imageValid);
        if outcome == Raised {
          return Response(HttpServerError, Empty);
        }
        if outcome == Rejected {
          return Response(HttpBadRequest, FieldInvalid("avatar"));
        }
        UpdateAvatar(db, k, Some(stored));
        res := Response(HttpOk, Serialized);
      case DeleteAvatar =>
        db.users := db.users[k := db.users[k].(avatar := None)];
        if valid {
          ReplaceUserValid(before, k, db.users[k]);
          SameIdsKeepReferences(db.recipes, before, db.users, db.tags);
        }
        res := Response(HttpNoContent, Empty);
    }
  }

  /** Removing the avatar twice is the same as removing it once, and a PUT
      without the key after any request leaves the table as that request
      left it. */
  lemma AvatarDeleteIdempotent(users: seq<User>, user: nat, decodes: bool, imageValid: bool, stored: string)
    ensures var once := UsersAfterAvatar(users, user, DeleteAvatar, decodes, imageValid, stored);
            UsersAfterAvatar(once, user, DeleteAvatar, decodes, imageValid, stored) == once
            && UsersAfterAvatar(once, user, PutAvatar(Absent), decodes, imageValid, stored) == once
  {
    var once := UsersAfterAvatar(users, user, DeleteAvatar, decodes, imageValid, stored);
    assert HasUser(once, user) <==> HasUser(users, user) by {
      if HasUser(users, user) {
        var i :| 0 <= i < |users| && users[i].id == user;
        assert once[i].id == user;
      }
      if HasUser(once, user) {
        var i :| 0 <= i < |once| && once[i].id == user;
        assert users[i].id == user;
      }
    }
    if HasUser(users, user) {
      var k := UserIndex(once, user).value;
      assert UserIndex(users, user) == Some(k) by {
        var j := UserIndex(users, user).value;
        assert UserIndexFrom(users, user, 0) == UserIndexFrom(once, user, 0) by {
          forall i | 0 <= i < |users| ensures users[i].id == once[i].id { }
          UserIndexSameIds(users, once, user, 0);
        }
      }
      var twice := UsersAfterAvatar(once, user, DeleteAvatar, decodes, imageValid, stored);
      assert forall i :: 0 <= i < |once| ==> twice[i] == once[i];
    }
  }

  /** The user lookup depends on the ids alone. */
  lemma {:induction false} UserIndexSameIds(a: seq<User>, b: seq<User>, id: nat, from: nat)
    requires SameIds(a, b)
    ensures UserIndexFrom(a, id, from) == UserIndexFrom(b, id, from)
    decreases |a| - from
  {
    if from < |a| && a[from].id != id {
      UserIndexSameIds(a, b, id, from + 1);
    }
  }
}
