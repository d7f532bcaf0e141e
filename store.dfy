/** The `User` collection as the account code sees it: documents in natural (insertion)
    order, `save()` that validates the username and enforces the unique indexes on the
    username and on each provider id, `delete()`, atomic `update()`, and the two
    persisting helpers of piplmesh/account/models.py (`create_user`,
    `set_unusable_password`). The operations here run one at a time on the sequence;
    other requests' saves enter only through the interleaving of the Facebook and
    Twitter loops in `Backends`. */
module Store {
  import opened Common
  import opened Models

  /** The unique indexes a save can collide on. */
  datatype Key = UsernameKey | FacebookIdKey | TwitterIdKey | GoogleIdKey

  datatype SaveError = ValidationError | DuplicateKey(key: Key)

  datatype SaveResult = Saved | Failed(error: SaveError)

  // ---------------------------------------------------------------------------
  // Uniqueness.

  /** Two optional provider ids collide when both are present and equal (sparse index). */
  predicate SameProviderId(a: Option<string>, b: Option<string>) {
    a.Some? && a == b
  }

  /** `other` is a different document that already holds `u`'s value for `key`. */
  predicate TakenBy(other: User, u: User, key: Key) {
    && other.id != u.id
    && match key
       case UsernameKey => other.username == u.username
       case FacebookIdKey => SameProviderId(other.facebookId, u.facebookId)
       case TwitterIdKey => SameProviderId(other.twitterId, u.twitterId)
       case GoogleIdKey => SameProviderId(other.googleId, u.googleId)
  }

  predicate Taken(users: seq<User>, u: User, key: Key) {
    exists i :: 0 <= i < |users| && TakenBy(users[i], u, key)
  }

  /** `u` may be written: its username passes validation and no index collides. */
  predicate Admissible(users: seq<User>, u: User) {
    && ValidUsername(u.username)
    && !Taken(users, u, UsernameKey)
    && !Taken(users, u, FacebookIdKey)
    && !Taken(users, u, TwitterIdKey)
    && !Taken(users, u, GoogleIdKey)
  }

  /** What `save()` answers: validation runs first, then the unique indexes. */
  function SaveOutcome(users: seq<User>, u: User): (r: SaveResult)
    ensures r == Saved <==> Admissible(users, u)
    ensures r == Failed(ValidationError) <==> !ValidUsername(u.username)
    ensures r.Failed? && r.error.DuplicateKey? ==> Taken(users, u, r.error.key)
    ensures r == Failed(DuplicateKey(UsernameKey)) <==> ValidUsername(u.username) && Taken(users, u, UsernameKey)
  {
    if !ValidUsername(u.username) then Failed(ValidationError)
    else if Taken(users, u, UsernameKey) then Failed(DuplicateKey(UsernameKey))
    else if Taken(users, u, FacebookIdKey) then Failed(DuplicateKey(FacebookIdKey))
    else if Taken(users, u, TwitterIdKey) then Failed(DuplicateKey(TwitterIdKey))
    else if Taken(users, u, GoogleIdKey) then Failed(DuplicateKey(GoogleIdKey))
    else Saved
  }

  /** Two documents agree on every indexed field (a save of one in place of the other
      meets the same indexes). */
  predicate SameKeys(a: User, b: User) {
    a.id == b.id && a.username == b.username && a.facebookId == b.facebookId
    && a.twitterId == b.twitterId && a.googleId == b.googleId
  }

  // ---------------------------------------------------------------------------
  // The collection invariant: distinct ids, and every stored record admissible.

  predicate DistinctIds(users: seq<User>) {
    forall i, j :: 0 <= i < j < |users| ==> users[i].id != users[j].id
  }

  predicate Invariant(users: seq<User>) {
    && DistinctIds(users)
    && forall i :: 0 <= i < |users| ==> Admissible(users, users[i])
  }

  // ---------------------------------------------------------------------------
  // Queries.

  /** The first document satisfying `p`, as `.first()` in natural order. */
  function FirstIndex(users: seq<User>, p: User -> bool): (r: Option<nat>)
    ensures r.Some? ==> r.value < |users| && p(users[r.value])
    ensures r.Some? ==> forall j :: 0 <= j < r.value ==> !p(users[j])
    ensures r.None? ==> forall j :: 0 <= j < |users| ==> !p(users[j])
  {
    if |users| == 0 then None
    else if p(users[0]) then Some(0)
    else match FirstIndex(users[1..], p)
      case None => None
      case Some(k) => Some(k + 1)
  }

  /** `objects.get(...)`: exactly one match, none, or several. */
  datatype Lookup = Missing | Found(index: nat) | Multiple

  function GetOne(users: seq<User>, p: User -> bool): (r: Lookup)
    ensures r.Missing? <==> forall j :: 0 <= j < |users| ==> !p(users[j])
    ensures r.Found? ==> r.index < |users| && p(users[r.index])
    ensures r.Found? ==> forall j :: 0 <= j < |users| && j != r.index ==> !p(users[j])
    ensures r.Multiple? ==> exists i, j :: 0 <= i < j < |users| && p(users[i]) && p(users[j])
  {
    match FirstIndex(users, p)
    case None => Missing
    case Some(i) =>
      match FirstIndex(users[i + 1..], p)
      case None =>
        assert forall j :: i < j < |users| ==> users[j] == users[i + 1..][j - i - 1];
        Found(i)
      case Some(k) =>
        assert users[i + 1 + k] == users[i + 1..][k];
        Multiple
  }

  function IndexOfId(users: seq<User>, id: UserId): (r: Option<nat>)
    ensures r.Some? ==> r.value < |users| && users[r.value].id == id
    ensures r.None? ==> forall j :: 0 <= j < |users| ==> users[j].id != id
  {
    FirstIndex(users, (u: User) => u.id == id)
  }

  lemma IndexOfIdUnique(users: seq<User>, i: nat)
    requires DistinctIds(users) && i < |users|
    ensures IndexOfId(users, users[i].id) == Some(i)
  {
  }

  // ---------------------------------------------------------------------------
  // Writes, as functions of the collection.

  /** `save()` of `u` once admitted: replace the document with `u`'s id, or append. */
  function Upsert(users: seq<User>, u: User): (r: seq<User>)
    ensures IndexOfId(users, u.id).Some? ==> |r| == |users| && r[IndexOfId(users, u.id).value] == u
    ensures IndexOfId(users, u.id).None? ==> r == users + [u]
    ensures forall j :: 0 <= j < |users| && users[j].id != u.id ==> j < |r| && r[j] == users[j]
  {
    match IndexOfId(users, u.id)
    case Some(i) => users[i := u]
    case None => users + [u]
  }

  /** `delete()` of the document with id `id` (nothing when there is none). */
  function RemoveId(users: seq<User>, id: UserId): (r: seq<User>)
    ensures IndexOfId(users, id).None? ==> r == users
    ensures IndexOfId(users, id).Some? ==> var i := IndexOfId(users, id).value; r == users[..i] + users[i + 1..]
  {
    match IndexOfId(users, id)
    case Some(i) => users[..i] + users[i + 1..]
    case None => users
  }

  // ---------------------------------------------------------------------------
  // The invariant survives every write.

  /** Where the `k`-th record of `Upsert(users, u)` comes from: `u` itself (-1),
      or the old record at index `n` whose id differs from `u`'s. */
  lemma UpsertOrigin(users: seq<User>, u: User, k: nat) returns (n: int)
    requires DistinctIds(users)
    requires k < |Upsert(users, u)|
    ensures n == -1 ==> Upsert(users, u)[k] == u
    ensures n != -1 ==> 0 <= n < |users| && Upsert(users, u)[k] == users[n] && users[n].id != u.id
  {
    var at := IndexOfId(users, u.id);
    if at.Some? && k == at.value {
      n := -1;
    } else if at.None? && k == |users| {
      n := -1;
    } else {
      n := k;
    }
  }

  lemma UpsertRecordFree(users: seq<User>, u: User, k: nat, key: Key)
    requires Invariant(users) && Admissible(users, u)
    requires k < |Upsert(users, u)|
    ensures !Taken(Upsert(users, u), Upsert(users, u)[k], key)
  {
    var r := Upsert(users, u);
    var a := UpsertOrigin(users, u, k);
    forall m | 0 <= m < |r| ensures !TakenBy(r[m], r[k], key) {
      var b := UpsertOrigin(users, u, m);
      if a == -1 && b != -1 {
        assert !TakenBy(users[b], u, key);
      } else if a != -1 && b == -1 {
        assert !TakenBy(users[a], u, key);
      } else if a != -1 && b != -1 {
        assert Admissible(users, users[a]);
        assert !TakenBy(users[b], users[a], key);
      }
    }
  }

  lemma {:induction false} UpsertKeepsInvariant(users: seq<User>, u: User)
    requires Invariant(users) && Admissible(users, u)
    ensures Invariant(Upsert(users, u))
  {
    var r := Upsert(users, u);
    forall i, j | 0 <= i < j < |r| ensures r[i].id != r[j].id {
      var a := UpsertOrigin(users, u, i);
      var b := UpsertOrigin(users, u, j);
    }
    forall k | 0 <= k < |r| ensures Admissible(r, r[k]) {
      var a := UpsertOrigin(users, u, k);
      if a != -1 {
        assert Admissible(users, users[a]);
      }
      UpsertRecordFree(users, u, k, UsernameKey);
      UpsertRecordFree(users, u, k, FacebookIdKey);
      UpsertRecordFree(users, u, k, TwitterIdKey);
      UpsertRecordFree(users, u, k, GoogleIdKey);
    }
  }

  /** Dropping the record at index `i` keeps the invariant. */
  lemma RemoveAtKeepsInvariant(users: seq<User>, i: nat)
    requires Invariant(users) && i < |users|
    ensures Invariant(users[..i] + users[i + 1..])
  {
    var r := users[..i] + users[i + 1..];
    assert forall k :: 0 <= k < |r| ==> r[k] == (if k < i then users[k] else users[k + 1]);
    forall k | 0 <= k < |r| ensures Admissible(r, r[k]) {
      var n := if k < i then k else k + 1;
      assert Admissible(users, users[n]);
      forall key: Key, m | 0 <= m < |r| ensures !TakenBy(r[m], r[k], key) {
        var m' := if m < i then m else m + 1;
        assert !TakenBy(users[m'], users[n], key);
      }
    }
  }

  lemma RemoveIdKeepsInvariant(users: seq<User>, id: UserId)
    requires Invariant(users)
    ensures Invariant(RemoveId(users, id))
  {
    match IndexOfId(users, id)
    case None =>
    case Some(i) =>
      assert RemoveId(users, id) == users[..i] + users[i + 1..];
      RemoveAtKeepsInvariant(users, i);
  }

  /** Re-saving a stored record whose indexed fields are unchanged always succeeds and
      replaces that record where it stands. */
  lemma ResaveStored(users: seq<User>, i: nat, u: User)
    requires Invariant(users) && i < |users| && SameKeys(users[i], u)
    ensures SaveOutcome(users, u) == Saved
    ensures Upsert(users, u) == users[i := u]
  {
    assert Admissible(users, users[i]);
    forall key: Key, j | 0 <= j < |users| ensures !TakenBy(users[j], u, key) {
      assert !TakenBy(users[j], users[i], key);
    }
    IndexOfIdUnique(users, i);
  }

  /** Two saves of the same document in a row leave what the second save alone leaves. */
  lemma UpsertTwice(users: seq<User>, a: User, b: User)
    requires a.id == b.id
    ensures Upsert(Upsert(users, a), b) == Upsert(users, b)
  {
    var r := Upsert(users, a);
    match IndexOfId(users, a.id)
    case Some(i) =>
      assert IndexOfId(r, a.id) == Some(i) by {
        assert r[i].id == a.id;
        forall j | 0 <= j < i ensures r[j].id != a.id {
          assert r[j] == users[j];
        }
      }
    case None =>
      assert IndexOfId(r, a.id) == Some(|users|) by {
        assert r[|users|] == a;
        forall j | 0 <= j < |users| ensures r[j].id != a.id {
          assert r[j] == users[j];
        }
      }
      assert r[|users| := b] == users + [b];
  }

  // ---------------------------------------------------------------------------

  /** The collection. */
  class Store {
    var users: seq<User>
    var nextId: UserId

    ghost predicate Valid()
      reads this
    {
      && Invariant(users)
      && forall i :: 0 <= i < |users| ==> users[i].id < nextId
    }

    constructor ()
      ensures Valid() && users == []
    {
      users := [];
      nextId := 0;
    }

    /** `save()`: validate, check the unique indexes, then write. */
    method Save(u: User) returns (r: SaveResult)
      requires Valid()
      modifies this
      ensures Valid()
      ensures r == SaveOutcome(old(users), u)
      ensures users == if r.Saved? then Upsert(old(users), u) else old(users)
      ensures nextId == if r.Saved? && old(nextId) <= u.id then u.id + 1 else old(nextId)
    {
      r := SaveOutcome(users, u);
      if r.Saved? {
        UpsertKeepsInvariant(users, u);
        users := Upsert(users, u);
        if nextId <= u.id {
          nextId := u.id + 1;
        }
      }
    }

    /** `delete()` of the document with id `id`. */
    method Delete(id: UserId)
      requires Valid()
      modifies this
      ensures Valid()
      ensures users == RemoveId(old(users), id) && nextId == old(nextId)
    {
      RemoveIdKeepsInvariant(users, id);
      users := RemoveId(users, id);
    }

    /** An atomic `update()` of one document that leaves its indexed fields alone
        (Mongo applies it without running document validation). */
    method Update(u: User) returns (found: bool)
      requires Valid()
      requires forall j :: 0 <= j < |users| && users[j].id == u.id ==> SameKeys(users[j], u)
      modifies this
      ensures Valid() && nextId == old(nextId)
      ensures found <==> IndexOfId(old(users), u.id).Some?
      ensures users == if found then old(users)[IndexOfId(old(users), u.id).value := u] else old(users)
    {
      var at := IndexOfId(users, u.id);
      found := at.Some?;
      if found {
        var i := at.value;
        var r := users[i := u];
        forall k | 0 <= k < |r| ensures Admissible(r, r[k]) {
          assert Admissible(users, users[k]);
          forall key: Key, m | 0 <= m < |r| ensures !TakenBy(r[m], r[k], key) {
            assert !TakenBy(users[m], users[k], key);
          }
        }
        users := r;
      }
    }

    /** An id no stored document has; the next one `save()` of a new document uses. */
    function FreshId(): (id: UserId)
      reads this
      requires Valid()
      ensures forall j :: 0 <= j < |users| ==> users[j].id != id
    {
      nextId
    }
  }

  // ---------------------------------------------------------------------------
  // models.py persisting helpers.

  datatype CreateError = EmptyUsername | CreateSaveFailed(error: SaveError)

  /** `User.create_user(username, email, password)`; `email` is already normalised. */
  method CreateUser(store: Store, username: string, email: string, password: Option<string>, now: Time)
    returns (r: Result<User, CreateError>)
    requires store.Valid()
    modifies store
    ensures store.Valid()
    ensures username == "" ==> r == Err(EmptyUsername)
    ensures r.Ok? ==> && IndexOfId(old(store.users), r.value.id).None?
                      && store.users == old(store.users) + [r.value]
    ensures r.Ok? ==> && r.value.username == username && r.value.email == email
                      && !r.value.isStaff && r.value.isActive && !r.value.isSuperuser
                      && r.value.lastLogin == Some(now) && r.value.dateJoined == Some(now)
                      && r.value.lazyuserUsername && !r.value.isOnline
                      && (HasUsablePassword(r.value) <==> password.Some? && password.value != "")
                      && (forall p :: CheckPassword(r.value, p) <==> password == Some(p) && p != "")
    ensures r.Err? ==> store.users == old(store.users)
    ensures r.Err? && username != "" ==>
              && r.error.CreateSaveFailed?
              && SaveOutcome(old(store.users), NewRecord(old(store.nextId), username, email, password, now)) == Failed(r.error.error)
  {
    if username == "" {
      return Err(EmptyUsername);
    }
    var user := NewRecord(store.FreshId(), username, email, password, now);
    var saved := store.Save(user);
    if saved.Failed? {
      return Err(CreateSaveFailed(saved.error));
    }
    r := Ok(user);
  }

  function NewRecord(id: UserId, username: string, email: string, password: Option<string>, now: Time): User {
    SetPassword(NewUser(id, username).(email := email, lastLogin := Some(now), dateJoined := Some(now)), password)
  }

  /** `set_unusable_password()`: overwrite the password with the unusable marker and save. */
  method SetUnusablePassword(store: Store, u: User) returns (r: Result<User, SaveError>)
    requires store.Valid()
    modifies store
    ensures store.Valid()
    ensures r.Ok? ==> && r.value == u.(password := Unusable) && !HasUsablePassword(r.value)
                      && store.users == Upsert(old(store.users), r.value)
    ensures r.Err? ==> store.users == old(store.users)
                       && SaveOutcome(old(store.users), u.(password := Unusable)) == Failed(r.error)
  {
    var user := u.(password := Unusable);
    var saved := store.Save(user);
    if saved.Failed? {
      return Err(saved.error);
    }
    r := Ok(user);
  }
}
