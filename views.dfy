/** The account views of piplmesh/account/views.py that decide or change account state:
    the Facebook callback's link-conflict decision and the form that applies the chosen
    resolution, the two unlink views, registration of the session's lazy user, the
    redirect target of `set_language`, and the push-channel subscription handlers.

    `request.user` is passed in as a `User` value and written back through the store;
    network calls (the Graph API, token exchange) become parameters holding their answers. */
module Views {
  import opened Common
  import opened Models
  import opened Store
  import opened Backends

  // ---------------------------------------------------------------------------
  // FacebookCallbackView.get: which resolution to offer.

  datatype LinkChoice = Nothing | Overwrite | Unlink | UnlinkAndOverwrite

  datatype CallbackOutcome =
    | GoHome                                 // no `code`: the dialog was cancelled
    | AlreadyLinked                          // the session is linked to the returned id
    | OfferChoices(choices: seq<LinkChoice>) // the form is shown with these choices
    | LinkDirectly(token: string)            // authenticate with the token, then go on
    | LogIn(token: string)                   // anonymous session: authenticate and log in
    | Crashed                                // an uncaught KeyError or MultipleObjectsReturned

  /** The query `facebook_profile_data__id=<id>`; a missing returned id (`None`) matches
      the documents whose data has no id. */
  predicate OwnsFacebookId(u: User, id: Option<string>) {
    match id
    case Some(x) => "id" in u.facebookProfileData && u.facebookProfileData["id"] == x
    case None => "id" !in u.facebookProfileData
  }

  /** `User.objects.get(facebook_profile_data__id=...)`: none, exactly one, or several. */
  function FacebookOwner(users: seq<User>, id: Option<string>): (r: Lookup)
    ensures r.Missing? <==> forall j :: 0 <= j < |users| ==> !OwnsFacebookId(users[j], id)
    ensures r.Found? ==> && r.index < |users| && OwnsFacebookId(users[r.index], id)
                         && forall j :: 0 <= j < |users| && j != r.index ==> !OwnsFacebookId(users[j], id)
    ensures r.Multiple? ==> exists i, j :: 0 <= i < j < |users| && OwnsFacebookId(users[i], id) && OwnsFacebookId(users[j], id)
  {
    GetOne(users, (u: User) => OwnsFacebookId(u, id))
  }

  /** The session's stored Facebook data names an id, and it is not the returned one. */
  predicate LinkedElsewhere(session: User, returnedId: Option<string>) {
    "id" in session.facebookProfileData && returnedId != Some(session.facebookProfileData["id"])
  }

  /** The decision of the callback once the token and the profile have been fetched. It
      only reads the store. */
  function CallbackDecision(hasCode: bool, token: string, session: User, returnedId: Option<string>, users: seq<User>)
    : (r: CallbackOutcome)
    ensures !hasCode <==> r == GoHome
    ensures hasCode && !IsAuthenticated(session) <==> r.LogIn?
    ensures r == AlreadyLinked <==>
              hasCode && IsAuthenticated(session) && "id" in session.facebookProfileData
              && returnedId == Some(session.facebookProfileData["id"])
    ensures r == OfferChoices([Nothing, UnlinkAndOverwrite]) <==>
              hasCode && IsAuthenticated(session) && LinkedElsewhere(session, returnedId)
              && FacebookOwner(users, returnedId).Found?
    ensures r == OfferChoices([Nothing, Overwrite]) <==>
              hasCode && IsAuthenticated(session) && LinkedElsewhere(session, returnedId)
              && FacebookOwner(users, returnedId).Missing?
    ensures r == OfferChoices([Nothing, Unlink]) <==>
              hasCode && IsAuthenticated(session) && session.facebookProfileData == map[]
              && FacebookOwner(users, returnedId).Found?
    ensures r.LinkDirectly? <==>
              hasCode && IsAuthenticated(session) && session.facebookProfileData == map[]
              && FacebookOwner(users, returnedId).Missing?
    ensures r.OfferChoices? ==> |r.choices| == 2 && r.choices[0] == Nothing
    ensures r == Crashed <==>
              hasCode && IsAuthenticated(session)
              && ((session.facebookProfileData != map[] && "id" !in session.facebookProfileData)
                  || ((session.facebookProfileData == map[] || LinkedElsewhere(session, returnedId))
                      && FacebookOwner(users, returnedId).Multiple?))
  {
    if !hasCode then GoHome
    else if !IsAuthenticated(session) then LogIn(token)
    else if session.facebookProfileData != map[] then
      if "id" !in session.facebookProfileData then Crashed
      else if returnedId == Some(session.facebookProfileData["id"]) then AlreadyLinked
      else
        match FacebookOwner(users, returnedId)
        case Found(_) => OfferChoices([Nothing, UnlinkAndOverwrite])
        case Missing => OfferChoices([Nothing, Overwrite])
        case Multiple => Crashed
    else
      match FacebookOwner(users, returnedId)
      case Found(_) => OfferChoices([Nothing, Unlink])
      case Missing => LinkDirectly(token)
      case Multiple => Crashed
  }

  // ---------------------------------------------------------------------------
  // Clearing a provider's data (form_valid's unlink, FacebookUnlinkView, TwitterUnlinkView).

  /** The account carries Facebook data (the views' test for "linked"). */
  predicate FacebookLinked(u: User) {
    u.facebookProfileData != map[]
  }

  predicate TwitterLinked(u: User) {
    u.twitterProfileData != map[]
  }

  /** Drop the Facebook token and data; forget the avatar choice only if it was Facebook. */
  function ClearFacebook(u: User): (r: User)
    ensures !FacebookLinked(r) && r.facebookAccessToken.None?
    ensures SameKeys(u, r)
    ensures !ImageSource(r).FacebookPicture?
    ensures u.profileImage != FacebookImage ==> r.profileImage == u.profileImage
    ensures r.(facebookAccessToken := u.facebookAccessToken, facebookProfileData := u.facebookProfileData,
               profileImage := u.profileImage) == u
  {
    u.(facebookAccessToken := None, facebookProfileData := map[],
       profileImage := if u.profileImage == FacebookImage then NoImage else u.profileImage)
  }

  /** The first save of TwitterUnlinkView: data and token only. */
  function ClearTwitterData(u: User): User {
    u.(twitterProfileData := map[], twitterAccessToken := None)
  }

  /** The second save: the avatar choice is forgotten only if it was Twitter. */
  function ResetTwitterImage(u: User): User {
    u.(profileImage := if u.profileImage == TwitterImage then NoImage else u.profileImage)
  }

  function ClearTwitter(u: User): (r: User)
    ensures !TwitterLinked(r) && r.twitterAccessToken.None?
    ensures SameKeys(u, r)
    ensures !ImageSource(r).TwitterPicture?
    ensures u.profileImage != TwitterImage ==> r.profileImage == u.profileImage
    ensures r.(twitterAccessToken := u.twitterAccessToken, twitterProfileData := u.twitterProfileData,
               profileImage := u.profileImage) == u
  {
    ResetTwitterImage(ClearTwitterData(u))
  }

  /** Clearing is idempotent, and clearing one provider never unlinks the other. */
  lemma ClearingIsIdempotentAndSeparate(u: User)
    ensures ClearFacebook(ClearFacebook(u)) == ClearFacebook(u)
    ensures ClearTwitter(ClearTwitter(u)) == ClearTwitter(u)
    ensures TwitterLinked(ClearFacebook(u)) == TwitterLinked(u)
    ensures FacebookLinked(ClearTwitter(u)) == FacebookLinked(u)
  {
  }

  /** After clearing, the account stays authenticated exactly when it has a usable
      password or data from some other provider. */
  lemma ClearFacebookAuthentication(u: User)
    ensures IsAuthenticated(ClearFacebook(u)) <==>
              HasUsablePassword(u) || u.twitterProfileData != map[] || u.googleProfileData != map[]
              || u.foursquareProfileData != map[]
  {
  }

  // ---------------------------------------------------------------------------
  // FacebookCallbackView.form_valid.

  datatype FormOutcome =
    | Finished                   // `nothing`: redirect without changes
    | OwnerNotFound              // unlink requested but no owner: error message, redirect
    | Reauthenticate(token: string)  // `authenticate(facebook_access_token=token, ...)` is called
    | FormCrashed                // several owners: MultipleObjectsReturned escapes

  method FormValid(store: Store, choice: LinkChoice, token: string, returnedId: Option<string>)
    returns (r: FormOutcome)
    requires store.Valid()
    modifies store
    ensures store.Valid()
    ensures choice == Nothing ==> r == Finished && store.users == old(store.users)
    ensures choice == Overwrite ==> r == Reauthenticate(token) && store.users == old(store.users)
    ensures choice in {Unlink, UnlinkAndOverwrite} ==>
              match FacebookOwner(old(store.users), returnedId)
              case Missing => r == OwnerNotFound && store.users == old(store.users)
              case Multiple => r == FormCrashed && store.users == old(store.users)
              case Found(i) => r == Reauthenticate(token)
                               && store.users == old(store.users)[i := ClearFacebook(old(store.users)[i])]
  {
    if choice == Nothing {
      return Finished;
    }
    if choice == Unlink || choice == UnlinkAndOverwrite {
      var owner := FacebookOwner(store.users, returnedId);
      if owner.Missing? {
        return OwnerNotFound;
      }
      if owner.Multiple? {
        return FormCrashed;
      }
      var user := ClearFacebook(store.users[owner.index]);
      ResaveStored(store.users, owner.index, user);
      var saved := store.Save(user);
    }
    r := Reauthenticate(token);
  }

  // ---------------------------------------------------------------------------
  // FacebookUnlinkView.get / TwitterUnlinkView.get.

  datatype UnlinkOutcome =
    | LoginRequired
    | NotLinked
    | Unlinked(user: User)
    | UnlinkSaveFailed(error: SaveError)

  method FacebookUnlink(store: Store, session: User) returns (r: UnlinkOutcome)
    requires store.Valid()
    modifies store
    ensures store.Valid()
    ensures !IsAuthenticated(session) ==> r == LoginRequired && store.users == old(store.users)
    ensures IsAuthenticated(session) && !FacebookLinked(session) ==> r == NotLinked && store.users == old(store.users)
    ensures IsAuthenticated(session) && FacebookLinked(session) ==>
              var u := ClearFacebook(session);
              match SaveOutcome(old(store.users), u)
              case Saved => r == Unlinked(u) && store.users == Upsert(old(store.users), u)
              case Failed(e) => r == UnlinkSaveFailed(e) && store.users == old(store.users)
  {
    if !IsAuthenticated(session) {
      return LoginRequired;
    }
    if !FacebookLinked(session) {
      return NotLinked;
    }
    var user := ClearFacebook(session);
    var saved := store.Save(user);
    if saved.Failed? {
      return UnlinkSaveFailed(saved.error);
    }
    r := Unlinked(user);
  }

  /** After the first save of `u`, a second save of a copy with the same indexed fields
      succeeds and the pair amounts to saving the copy alone. */
  lemma SecondSave(users: seq<User>, u: User, v: User)
    requires Invariant(users) && SaveOutcome(users, u) == Saved && SameKeys(u, v)
    ensures SaveOutcome(Upsert(users, u), v) == Saved
    ensures Upsert(Upsert(users, u), v) == Upsert(users, v)
  {
    var r := Upsert(users, u);
    UpsertKeepsInvariant(users, u);
    var i := if IndexOfId(users, u.id).Some? then IndexOfId(users, u.id).value else |users|;
    assert r[i] == u;
    ResaveStored(r, i, v);
    UpsertTwice(users, u, v);
  }

  /** TwitterUnlinkView saves twice: once with the data and token dropped, once more
      with the avatar choice reset; the second save cannot fail after the first. */
  method TwitterUnlink(store: Store, session: User) returns (r: UnlinkOutcome)
    requires store.Valid()
    modifies store
    ensures store.Valid()
    ensures !IsAuthenticated(session) ==> r == LoginRequired && store.users == old(store.users)
    ensures IsAuthenticated(session) && !TwitterLinked(session) ==> r == NotLinked && store.users == old(store.users)
    ensures IsAuthenticated(session) && TwitterLinked(session) ==>
              match SaveOutcome(old(store.users), ClearTwitterData(session))
              case Saved => r == Unlinked(ClearTwitter(session))
                            && store.users == Upsert(old(store.users), ClearTwitter(session))
              case Failed(e) => r == UnlinkSaveFailed(e) && store.users == old(store.users)
  {
    if !IsAuthenticated(session) {
      return LoginRequired;
    }
    if !TwitterLinked(session) {
      return NotLinked;
    }
    var user := ClearTwitterData(session);
    var first := store.Save(user);
    if first.Failed? {
      return UnlinkSaveFailed(first.error);
    }
    SecondSave(old(store.users), user, ResetTwitterImage(user));
    user := ResetTwitterImage(user);
    var second := store.Save(user);
    r := Unlinked(user);
  }

  // ---------------------------------------------------------------------------
  // RegistrationView.form_valid: the session's lazy user becomes a registered one.

  datatype RegistrationForm = RegistrationForm(
    username: string, firstName: string, lastName: string, email: string,
    gender: string,          // "" stands for no answer, as `gender or None` has it
    birthdate: Option<Time>, password2: string)

  datatype RegistrationOutcome =
    | Registered(user: User)            // saved, authenticated and logged in
    | RegistrationSaveFailed(error: SaveError)
    | LoginAssertionFailed              // saved, but `authenticate` found no user

  /** The session's record with the form written onto it. */
  function Converted(session: User, form: RegistrationForm): (u: User)
    ensures u.id == session.id && u.username == form.username && !u.lazyuserUsername
    ensures HasUsablePassword(u) <==> form.password2 != ""
    ensures forall p :: CheckPassword(u, p) <==> p == form.password2 && p != ""
    ensures form.password2 != "" ==> IsAuthenticated(u)
    ensures u.firstName == form.firstName && u.lastName == form.lastName && u.email == form.email
            && u.gender == form.gender && u.birthdate == form.birthdate
    ensures u.connections == session.connections && u.facebookId == session.facebookId
            && u.twitterId == session.twitterId && u.googleId == session.googleId
    // Every field the registration does not write is the session's.
    ensures u.(username := session.username, firstName := session.firstName, lastName := session.lastName,
               email := session.email, gender := session.gender, birthdate := session.birthdate,
               lazyuserUsername := session.lazyuserUsername, password := session.password) == session
  {
    SetPassword(session.(username := form.username, firstName := form.firstName, lastName := form.lastName,
                         email := form.email, gender := form.gender, birthdate := form.birthdate,
                         lazyuserUsername := false),
                Some(form.password2))
  }

  method Register(store: Store, session: User, form: RegistrationForm) returns (r: RegistrationOutcome)
    requires store.Valid()
    modifies store
    ensures store.Valid()
    ensures var u := Converted(session, form);
            match SaveOutcome(old(store.users), u)
            case Failed(e) => r == RegistrationSaveFailed(e) && store.users == old(store.users)
            case Saved => && store.users == Upsert(old(store.users), u)
                          && r == match PasswordAuthenticate(store.users, form.username, form.password2)
                                  case Some(v) => Registered(v)
                                  case None => LoginAssertionFailed
  {
    var user := Converted(session, form);
    var saved := store.Save(user);
    if saved.Failed? {
      return RegistrationSaveFailed(saved.error);
    }
    var newUser := PasswordAuthenticate(store.users, form.username, form.password2);
    if newUser.None? {
      return LoginAssertionFailed;
    }
    r := Registered(newUser.value);
  }

  /** Registration converts the session's record in place and the new credentials log
      it in, provided the password is non-empty and no other record's username matches
      the new one as `username__iexact` does. */
  lemma RegistrationLogsIn(users: seq<User>, session: User, form: RegistrationForm)
    requires Invariant(users)
    requires SaveOutcome(users, Converted(session, form)) == Saved
    requires form.password2 != ""
    requires forall j :: 0 <= j < |users| && users[j].id != session.id ==> !MatchesIExact(users[j].username, form.username)
    ensures PasswordAuthenticate(Upsert(users, Converted(session, form)), form.username, form.password2)
            == Some(Converted(session, form))
    ensures IndexOfId(users, session.id).Some? ==>
              |Upsert(users, Converted(session, form))| == |users|
  {
    var u := Converted(session, form);
    var r := Upsert(users, u);
    var i := if IndexOfId(users, u.id).Some? then IndexOfId(users, u.id).value else |users|;
    assert r[i] == u;
    UpsertKeepsInvariant(users, u);
    forall j | 0 <= j < i ensures !MatchesIExact(r[j].username, form.username) {
      assert r[j] == users[j];
    }
    assert Lower(u.username) == Lower(form.username);
    PasswordLogin(r, i, form.username, form.password2);
  }

  // ---------------------------------------------------------------------------
  // set_language: where the response redirects.

  /** A request value Python treats as true: present and non-empty. */
  predicate Truthy(v: Option<string>) {
    v.Some? && v.value != ""
  }

  function NextTarget(next: Option<string>, referer: Option<string>): (r: string)
    ensures r != ""
    ensures Truthy(next) ==> r == next.value
    ensures !Truthy(next) && Truthy(referer) ==> r == referer.value
    ensures !Truthy(next) && !Truthy(referer) ==> r == "/"
  {
    if Truthy(next) then next.value else if Truthy(referer) then referer.value else "/"
  }

  // ---------------------------------------------------------------------------
  // process_channel_subscribe / process_channel_unsubscribe.

  /** The first entry equal to `c` in all three fields. */
  function FirstConnection(conns: seq<Connection>, c: Connection): (r: Option<nat>)
    ensures r.Some? ==> r.value < |conns| && conns[r.value] == c && forall j :: 0 <= j < r.value ==> conns[j] != c
    ensures r.None? ==> c !in conns
  {
    if |conns| == 0 then None
    else if conns[0] == c then Some(0)
    else match FirstConnection(conns[1..], c)
      case None => None
      case Some(k) => Some(k + 1)
  }

  /** The list the two updates of an unsubscribe leave: the first equal entry is gone. */
  function WithoutFirst(conns: seq<Connection>, c: Connection): seq<Connection> {
    match FirstConnection(conns, c)
    case None => conns
    case Some(i) => conns[..i] + conns[i + 1..]
  }

  /** What a null-able array of connections holds once its nulls are pulled. */
  function Compact(slots: seq<Option<Connection>>): seq<Connection> {
    if |slots| == 0 then []
    else Compact(slots[..|slots| - 1]) + (if slots[|slots| - 1].Some? then [slots[|slots| - 1].value] else [])
  }

  function Lift(conns: seq<Connection>): (r: seq<Option<Connection>>)
    ensures |r| == |conns| && forall j :: 0 <= j < |conns| ==> r[j] == Some(conns[j])
  {
    seq(|conns|, j requires 0 <= j < |conns| => Some(conns[j]))
  }

  lemma {:induction false} CompactLift(conns: seq<Connection>)
    ensures Compact(Lift(conns)) == conns
    decreases |conns|
  {
    if |conns| > 0 {
      var front := conns[..|conns| - 1];
      assert Lift(conns)[..|conns| - 1] == Lift(front);
      CompactLift(front);
      assert conns == front + [conns[|conns| - 1]];
    }
  }

  lemma {:induction false} CompactAppend(a: seq<Option<Connection>>, b: seq<Option<Connection>>)
    ensures Compact(a + b) == Compact(a) + Compact(b)
    decreases |b|
  {
    if |b| == 0 {
      assert a + b == a;
    } else {
      var b' := b[..|b| - 1];
      assert (a + b)[..|a + b| - 1] == a + b';
      CompactAppend(a, b');
    }
  }

  /** Unsetting entry `i` and pulling the nulls removes exactly entry `i`. */
  lemma CompactUnset(conns: seq<Connection>, i: nat)
    requires i < |conns|
    ensures Compact(Lift(conns)[i := None]) == conns[..i] + conns[i + 1..]
  {
    var front, back := conns[..i], conns[i + 1..];
    var unset: seq<Option<Connection>> := [None];
    var a, b := Lift(front), Lift(back);
    LiftUnset(conns, i);
    assert unset[..0] == [];
    assert Compact(unset) == [];
    CompactAppend(a, unset);
    CompactLift(front);
    assert Compact(a + unset) == front;
    CompactAppend(a + unset, b);
    CompactLift(back);
    assert Compact(a + unset + b) == front + back;
  }

  /** The array with entry `i` unset is the entries before it, a null, and the rest. */
  lemma LiftUnset(conns: seq<Connection>, i: nat)
    requires i < |conns|
    ensures Lift(conns)[i := None] == Lift(conns[..i]) + [None] + Lift(conns[i + 1..])
  {
    var slots := Lift(conns)[i := None];
    var parts := Lift(conns[..i]) + [None] + Lift(conns[i + 1..]);
    assert |slots| == |parts|;
    forall j | 0 <= j < |slots| ensures slots[j] == parts[j] {
      if j < i {
        assert parts[j] == Lift(conns[..i])[j];
      } else if j > i {
        assert parts[j] == Lift(conns[i + 1..])[j - i - 1];
      }
    }
  }

  /** Unsubscribing removes one occurrence of the connection and nothing else: the other
      entries keep their order and multiplicity; with no equal entry the list is unchanged. */
  lemma WithoutFirstRemovesOne(conns: seq<Connection>, c: Connection)
    ensures c !in conns ==> WithoutFirst(conns, c) == conns
    ensures c in conns ==> |WithoutFirst(conns, c)| == |conns| - 1
    ensures multiset(WithoutFirst(conns, c)) == multiset(conns) - multiset{c}
    ensures forall d :: d != c ==> multiset(WithoutFirst(conns, c))[d] == multiset(conns)[d]
  {
    match FirstConnection(conns, c)
    case None =>
      assert multiset(conns)[c] == 0;
    case Some(i) =>
      assert conns == conns[..i] + [c] + conns[i + 1..];
      assert multiset(conns) == multiset(conns[..i]) + multiset{c} + multiset(conns[i + 1..]);
  }

  /** Subscribing a new connection and then unsubscribing it gives the list back. */
  lemma SubscribeThenUnsubscribe(conns: seq<Connection>, c: Connection)
    requires c !in conns
    ensures WithoutFirst(conns + [c], c) == conns
  {
    assert FirstConnection(conns + [c], c) == Some(|conns|) by {
      forall j | 0 <= j < |conns| ensures (conns + [c])[j] != c {
        assert (conns + [c])[j] == conns[j];
      }
    }
    assert (conns + [c])[..|conns|] == conns;
  }

  /** The record after `push__connections`. */
  function WithConnection(u: User, c: Connection): (r: User)
    ensures r.connections == u.connections + [c] && SameKeys(u, r)
    ensures r.(connections := u.connections) == u
  {
    u.(connections := u.connections + [c])
  }

  /** The record after both updates of an unsubscribe at time `now`. */
  function WithoutConnection(u: User, c: Connection, now: Time): (r: User)
    ensures r.connections == WithoutFirst(u.connections, c) && r.connectionLastUnsubscribe == Some(now)
    ensures SameKeys(u, r)
    ensures r.(connections := u.connections, connectionLastUnsubscribe := u.connectionLastUnsubscribe) == u
  {
    u.(connections := WithoutFirst(u.connections, c), connectionLastUnsubscribe := Some(now))
  }

  /** `request.user.update(push__connections=...)`: exactly one entry appended at the end,
      duplicates allowed; an unsaved user is left out (`found` is false). */
  method Subscribe(store: Store, userId: UserId, c: Connection) returns (found: bool)
    requires store.Valid()
    modifies store
    ensures store.Valid()
    ensures found <==> IndexOfId(old(store.users), userId).Some?
    ensures found ==> var i := IndexOfId(old(store.users), userId).value;
                      store.users == old(store.users)[i := WithConnection(old(store.users)[i], c)]
    ensures !found ==> store.users == old(store.users)
  {
    var at := IndexOfId(store.users, userId);
    if at.None? {
      return false;
    }
    var u := WithConnection(store.users[at.value], c);
    IndexOfIdUnique(store.users, at.value);
    found := store.Update(u);
  }

  /** `pull__connections=None`: keep the non-null entries, in order. */
  method PullNulls(slots: seq<Option<Connection>>) returns (kept: seq<Connection>)
    ensures kept == Compact(slots)
  {
    kept := [];
    var j := 0;
    while j < |slots|
      invariant 0 <= j <= |slots|
      invariant kept == Compact(slots[..j])
    {
      assert slots[..j + 1][..j] == slots[..j];
      if slots[j].Some? {
        kept := kept + [slots[j].value];
      }
      j := j + 1;
    }
    assert slots[..|slots|] == slots;
  }

  /** The two updates of process_channel_unsubscribe on the record with id `userId`:
      unset the first equal entry, pull the nulls, and stamp the time. */
  method Unsubscribe(store: Store, userId: UserId, c: Connection, now: Time) returns (found: bool)
    requires store.Valid()
    modifies store
    ensures store.Valid()
    ensures found <==> IndexOfId(old(store.users), userId).Some?
    ensures found ==> var i := IndexOfId(old(store.users), userId).value;
                      store.users == old(store.users)[i := WithoutConnection(old(store.users)[i], c, now)]
    ensures !found ==> store.users == old(store.users)
  {
    var at := IndexOfId(store.users, userId);
    if at.None? {
      return false;
    }
    var u := store.users[at.value];
    // update_one(unset__connections__S=1)
    var slots := Lift(u.connections);
    var matched := FirstConnection(u.connections, c);
    if matched.Some? {
      slots := slots[matched.value := None];
    }
    // update(pull__connections=None)
    var kept := PullNulls(slots);
    UnsetThenPull(u.connections, c, slots);
    var v := u.(connections := kept, connectionLastUnsubscribe := Some(now));
    assert v == WithoutConnection(u, c, now);
    IndexOfIdUnique(store.users, at.value);
    found := store.Update(v);
  }

  /** Unsetting the first equal entry, if any, and pulling the nulls is `WithoutFirst`. */
  lemma UnsetThenPull(conns: seq<Connection>, c: Connection, slots: seq<Option<Connection>>)
    requires var m := FirstConnection(conns, c);
             slots == if m.Some? then Lift(conns)[m.value := None] else Lift(conns)
    ensures Compact(slots) == WithoutFirst(conns, c)
  {
    var m := FirstConnection(conns, c);
    if m.Some? {
      CompactUnset(conns, m.value);
    } else {
      CompactLift(conns);
    }
  }
}
