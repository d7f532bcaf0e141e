/** The authentication backends of piplmesh/account/backends.py: the password backend,
    the find-or-create resolvers for Facebook, Twitter and Google, the guest-account
    allocator, and the two account linkers.

    The Facebook and Twitter resolvers run the same retry loop over different fields;
    the loop is modelled once, over an `Identity` that says which provider's profile
    and credential it carries. The loops of the source have no bound; the model gives
    each an explicit attempt budget (a modelling addition) and proves that a budget
    larger than the store is never exhausted when no one else writes and no other
    record holds a provider id of the session's user. A collision on such an id is
    retried like any duplicate and never logs in; a screened loop that raises it is
    proved to end within the same budget unconditionally. */
module Backends {
  import opened Common
  import opened Models
  import opened Store

  const LazyUserUsernamePrefix: string := "guest-"
  const GuestSuffixLength: nat := 6

  /** How an authenticate call ends when it does not return a user: an error raised
      from `save()` and not recovered, or the attempt budget used up. */
  datatype AuthError = Raised(error: SaveError) | RetriesExhausted

  /** The normalised Facebook profile (`fb`); `username` may be missing. */
  datatype FacebookProfile = FacebookProfile(
    id: string, username: Option<string>, firstName: string, lastName: string,
    email: string, gender: string, link: string)

  /** The fields of tweepy's `api.me()` that the backend reads. */
  datatype TwitterUser = TwitterUser(id: string, screenName: string, name: string)

  /** A third-party identity together with the credential the callback obtained. */
  datatype Identity =
    | FacebookIdentity(fb: FacebookProfile, accessToken: string)
    | TwitterIdentity(twitter: TwitterUser, token: TwitterAccessToken)

  // ---------------------------------------------------------------------------
  // The pieces of one attempt.

  /** The username the first attempt tries. */
  function BaseUsername(ident: Identity): string {
    match ident
    case FacebookIdentity(fb, _) => if fb.username.Some? then fb.username.value else fb.firstName + fb.lastName
    case TwitterIdentity(tw, _) => tw.screenName
  }

  /** The username tried at attempt `n` (counting from 0): the base, then the base
      with the suffix `str(n)`; the suffix is always added to the fresh base. */
  function Candidate(base: string, n: nat): (r: string)
    ensures n == 0 ==> r == base
    ensures n > 0 ==> r == base + NatToString(n)
  {
    if n == 0 then base else base + NatToString(n)
  }

  lemma CandidateInjective(base: string, m: nat, n: nat)
    ensures Candidate(base, m) == Candidate(base, n) ==> m == n
  {
    if m > 0 && n > 0 {
      assert NatToString(m) == Candidate(base, m)[|base|..];
      assert NatToString(n) == Candidate(base, n)[|base|..];
      NatToStringInjective(m, n);
    }
  }

  /** `u` is the local account mapped to this identity. */
  predicate Holds(u: User, ident: Identity) {
    match ident
    case FacebookIdentity(fb, _) => u.facebookId == Some(fb.id)
    case TwitterIdentity(tw, _) => u.twitterId == Some(tw.id)
  }

  /** `User.objects.get(facebook_id=...)` / `get(twitter_id=...)`. */
  function HolderIndex(users: seq<User>, ident: Identity): (r: Option<nat>)
    ensures r.Some? ==> r.value < |users| && Holds(users[r.value], ident)
    ensures r.None? ==> forall j :: 0 <= j < |users| ==> !Holds(users[j], ident)
  {
    FirstIndex(users, (u: User) => Holds(u, ident))
  }

  /** Re-login: refresh the stored credential of the existing account. */
  function Refreshed(u: User, ident: Identity): User {
    match ident
    case FacebookIdentity(_, token) => u.(facebookToken := Some(token))
    case TwitterIdentity(_, token) => u.(twitterTokenKey := Some(token.key), twitterTokenSecret := Some(token.secret))
  }

  /** First login: the session's user with the provider fields and `username` written onto it. */
  function FirstLogin(session: User, ident: Identity, username: string): User {
    match ident
    case FacebookIdentity(fb, token) =>
      session.(facebookId := Some(fb.id), username := username, firstName := fb.firstName,
               lastName := fb.lastName, email := fb.email, gender := fb.gender,
               facebookLink := fb.link, facebookToken := Some(token))
    case TwitterIdentity(tw, token) =>
      session.(twitterId := Some(tw.id), username := username, firstName := tw.name,
               twitterTokenKey := Some(token.key), twitterTokenSecret := Some(token.secret),
               twitterLink := TwitterProfileLink(tw.screenName))
  }

  lemma RefreshedKeepsAccount(u: User, ident: Identity)
    ensures SameKeys(u, Refreshed(u, ident))
    ensures Holds(u, ident) <==> Holds(Refreshed(u, ident), ident)
    ensures ident.FacebookIdentity? ==> Refreshed(u, ident).(facebookToken := u.facebookToken) == u
    ensures ident.TwitterIdentity? ==>
              Refreshed(u, ident).(twitterTokenKey := u.twitterTokenKey, twitterTokenSecret := u.twitterTokenSecret) == u
  {
  }

  /** What the session's user receives on a first login. */
  lemma FirstLoginFields(session: User, ident: Identity, username: string)
    ensures var u := FirstLogin(session, ident, username);
            && Holds(u, ident) && u.id == session.id && u.username == username
            && u.password == session.password && u.connections == session.connections
    ensures ident.FacebookIdentity? ==>
              var u := FirstLogin(session, ident, username);
              && u.firstName == ident.fb.firstName && u.lastName == ident.fb.lastName
              && u.email == ident.fb.email && u.gender == ident.fb.gender
              && u.facebookLink == ident.fb.link && u.facebookToken == Some(ident.accessToken)
    ensures ident.TwitterIdentity? ==>
              var u := FirstLogin(session, ident, username);
              && u.firstName == ident.twitter.name
              && u.twitterTokenKey == Some(ident.token.key) && u.twitterTokenSecret == Some(ident.token.secret)
              && u.twitterLink == TwitterProfileLink(ident.twitter.screenName)
  {
  }

  // ---------------------------------------------------------------------------
  // The retry loop of FacebookBackend.authenticate / TwitterBackend.authenticate.

  datatype Resolution = Resolution(result: Result<User, AuthError>, users: seq<User>)

  /** The control of the retry loop, apart from what it writes. Attempt `n` saves
      `candidate(n)`, `save()` answers it `answer(n)`, an accepted save leaves the
      collection `commit(n)`, and `state(n)` is the collection attempt `n` starts
      from. A refused attempt writes nothing of its own, so any duplicate-key answer
      moves on to the next attempt; another error ends the run where the next attempt
      would have started. */
  function Retry(candidate: nat -> User, answer: nat -> SaveResult, commit: nat -> seq<User>,
                 state: nat -> seq<User>, attempt: nat, fuel: nat): Resolution
    decreases fuel
  {
    if fuel == 0 then Resolution(Err(RetriesExhausted), state(attempt))
    else
      var outcome := answer(attempt);
      if outcome.Saved? then Resolution(Ok(candidate(attempt)), commit(attempt))
      else if outcome.error.DuplicateKey? then Retry(candidate, answer, commit, state, attempt + 1, fuel - 1)
      else Resolution(Err(Raised(outcome.error)), state(attempt + 1))
  }

  /** Attempt `n` is answered with a duplicate-key error. */
  predicate Refused(answer: nat -> SaveResult, n: nat) {
    answer(n).Failed? && answer(n).error.DuplicateKey?
  }

  /** The `count` attempts from `from` on were all refused as duplicates. */
  predicate AllRefused(answer: nat -> SaveResult, from: nat, count: nat)
    decreases count
  {
    count == 0 || (Refused(answer, from) && AllRefused(answer, from + 1, count - 1))
  }

  lemma {:induction false} AllRefusedAt(answer: nat -> SaveResult, from: nat, count: nat, j: nat)
    requires AllRefused(answer, from, count) && from <= j < from + count
    ensures Refused(answer, j)
    decreases count
  {
    if j > from {
      AllRefusedAt(answer, from + 1, count - 1, j);
    }
  }

  /** A run that returns a record stopped at the first accepted attempt: every attempt
      before it was refused as a duplicate, and what it returns and leaves is that
      attempt's record and its commit. */
  lemma {:induction false} RetryAccepted(candidate: nat -> User, answer: nat -> SaveResult, commit: nat -> seq<User>,
                                         state: nat -> seq<User>, attempt: nat, fuel: nat)
    returns (n: nat)
    requires Retry(candidate, answer, commit, state, attempt, fuel).result.Ok?
    ensures n < fuel
    ensures AllRefused(answer, attempt, n)
    ensures answer(attempt + n) == Saved
    ensures Retry(candidate, answer, commit, state, attempt, fuel)
            == Resolution(Ok(candidate(attempt + n)), commit(attempt + n))
    decreases fuel
  {
    if answer(attempt) == Saved {
      n := 0;
    } else {
      var m := RetryAccepted(candidate, answer, commit, state, attempt + 1, fuel - 1);
      n := m + 1;
      assert attempt + n == attempt + 1 + m;
    }
  }

  /** The same, for a run from the first attempt. */
  lemma RetryAcceptedFrom(candidate: nat -> User, answer: nat -> SaveResult, commit: nat -> seq<User>,
                          state: nat -> seq<User>, fuel: nat, res: Resolution)
    returns (n: nat)
    requires res == Retry(candidate, answer, commit, state, 0, fuel) && res.result.Ok?
    ensures n < fuel && res == Resolution(Ok(candidate(n)), commit(n))
    ensures AllRefused(answer, 0, n) && answer(n) == Saved
  {
    n := RetryAccepted(candidate, answer, commit, state, 0, fuel);
    assert 0 + n == n;
  }

  /** A run from the first attempt that returns a user returns some attempt's record
      and leaves that attempt's commit. */
  lemma RetryReturnsAttempt(candidate: nat -> User, answer: nat -> SaveResult, commit: nat -> seq<User>,
                            state: nat -> seq<User>, fuel: nat, res: Resolution)
    returns (n: nat)
    requires res == Retry(candidate, answer, commit, state, 0, fuel) && res.result.Ok?
    ensures n < fuel && res == Resolution(Ok(candidate(n)), commit(n))
  {
    n := RetryAcceptedFrom(candidate, answer, commit, state, fuel, res);
  }

  /** Attempts refused as duplicates are skipped over: the run from `from` is the run
      from `from + count`. */
  lemma {:induction false} RetrySkip(candidate: nat -> User, answer: nat -> SaveResult, commit: nat -> seq<User>,
                                     state: nat -> seq<User>, from: nat, count: nat, fuel: nat)
    requires AllRefused(answer, from, count) && count <= fuel
    ensures Retry(candidate, answer, commit, state, from, fuel)
         == Retry(candidate, answer, commit, state, from + count, fuel - count)
    decreases count
  {
    if count > 0 {
      RetrySkip(candidate, answer, commit, state, from + 1, count - 1, fuel - 1);
      assert from + 1 + (count - 1) == from + count;
    }
  }

  /** Extending a run of refusals by one more. */
  lemma {:induction false} AllRefusedSnoc(answer: nat -> SaveResult, from: nat, count: nat)
    requires AllRefused(answer, from, count) && Refused(answer, from + count)
    ensures AllRefused(answer, from, count + 1)
    decreases count
  {
    if count > 0 {
      AllRefusedSnoc(answer, from + 1, count - 1);
      assert from + 1 + (count - 1) == from + count;
    }
  }

  /** After `attempt` refusals the run is decided by attempt `attempt`: it returns that
      attempt's record once saved, ends with the error of a failed save other than a
      duplicate, and otherwise the refusals extend by one. */
  lemma RetryAt(candidate: nat -> User, answer: nat -> SaveResult, commit: nat -> seq<User>,
                state: nat -> seq<User>, attempt: nat, fuel: nat)
    requires AllRefused(answer, 0, attempt) && attempt < fuel
    ensures var o := answer(attempt);
            && (o.Saved? ==> Retry(candidate, answer, commit, state, 0, fuel)
                               == Resolution(Ok(candidate(attempt)), commit(attempt)))
            && (o.Failed? && !o.error.DuplicateKey? ==>
                  Retry(candidate, answer, commit, state, 0, fuel) == Resolution(Err(Raised(o.error)), state(attempt + 1)))
            && (o.Failed? && o.error.DuplicateKey? ==> AllRefused(answer, 0, attempt + 1))
  {
    RetrySkip(candidate, answer, commit, state, 0, attempt, fuel);
    if Refused(answer, attempt) {
      AllRefusedSnoc(answer, 0, attempt);
    }
  }

  /** A run whose every attempt was refused ends with the budget used up, on the
      collection the next attempt would have started from. */
  lemma RetryAllRefused(candidate: nat -> User, answer: nat -> SaveResult, commit: nat -> seq<User>,
                        state: nat -> seq<User>, fuel: nat)
    requires AllRefused(answer, 0, fuel)
    ensures Retry(candidate, answer, commit, state, 0, fuel) == Resolution(Err(RetriesExhausted), state(fuel))
  {
    RetrySkip(candidate, answer, commit, state, 0, fuel, fuel);
  }

  /** A run that used up its budget had every one of its attempts refused. */
  lemma {:induction false} RetryExhausted(candidate: nat -> User, answer: nat -> SaveResult, commit: nat -> seq<User>,
                                          state: nat -> seq<User>, attempt: nat, fuel: nat)
    requires Retry(candidate, answer, commit, state, attempt, fuel).result == Err(RetriesExhausted)
    ensures AllRefused(answer, attempt, fuel)
    decreases fuel
  {
    if fuel > 0 {
      RetryExhausted(candidate, answer, commit, state, attempt + 1, fuel - 1);
    }
  }

  /** A run that ends in an error leaves the collection some attempt started from, and
      the error it raises is never a duplicate-key error (those are always retried). */
  lemma {:induction false} RetryErrors(candidate: nat -> User, answer: nat -> SaveResult, commit: nat -> seq<User>,
                                       state: nat -> seq<User>, attempt: nat, fuel: nat)
    ensures var res := Retry(candidate, answer, commit, state, attempt, fuel);
            res.result.Err? ==> exists n :: attempt <= n <= attempt + fuel && res.users == state(n)
    ensures var res := Retry(candidate, answer, commit, state, attempt, fuel);
            res.result.Err? && res.result.error.Raised? ==> !res.result.error.error.DuplicateKey?
    decreases fuel
  {
    if fuel > 0 {
      RetryErrors(candidate, answer, commit, state, attempt + 1, fuel - 1);
      if answer(attempt).Failed? && !answer(attempt).error.DuplicateKey? {
        assert attempt <= attempt + 1 <= attempt + fuel;
      }
    }
  }

  /** A refused attempt followed by an accepted one. */
  lemma RetryRefusedThenAccepted(candidate: nat -> User, answer: nat -> SaveResult, commit: nat -> seq<User>,
                                 state: nat -> seq<User>, attempt: nat, fuel: nat)
    requires fuel >= 2 && Refused(answer, attempt) && answer(attempt + 1) == Saved
    ensures Retry(candidate, answer, commit, state, attempt, fuel)
            == Resolution(Ok(candidate(attempt + 1)), commit(attempt + 1))
  {
    assert Retry(candidate, answer, commit, state, attempt, fuel)
        == Retry(candidate, answer, commit, state, attempt + 1, fuel - 1);
  }

  /** Two runs whose attempts agree everywhere in the budget are the same run. */
  lemma {:induction false} RetryAgree(candidate: nat -> User, answer: nat -> SaveResult, commit: nat -> seq<User>,
                                      state: nat -> seq<User>, candidate': nat -> User, answer': nat -> SaveResult,
                                      commit': nat -> seq<User>, state': nat -> seq<User>, attempt: nat, fuel: nat)
    requires forall n :: attempt <= n <= attempt + fuel ==>
               && candidate(n) == candidate'(n) && answer(n) == answer'(n)
               && commit(n) == commit'(n) && state(n) == state'(n)
    ensures Retry(candidate, answer, commit, state, attempt, fuel)
         == Retry(candidate', answer', commit', state', attempt, fuel)
    decreases fuel
  {
    if fuel > 0 {
      assert attempt <= attempt + 1 <= attempt + fuel;
      RetryAgree(candidate, answer, commit, state, candidate', answer', commit', state', attempt + 1, fuel - 1);
    }
  }

  // ---------------------------------------------------------------------------
  // The loop on a collection no one else writes to.

  /** The record attempt `attempt` writes on the collection `users`: the refreshed
      holder, or the session's user under the attempt's username. */
  function AttemptUser(users: seq<User>, session: User, ident: Identity, attempt: nat): User {
    match HolderIndex(users, ident)
    case Some(i) => Refreshed(users[i], ident)
    case None => FirstLogin(session, ident, Candidate(BaseUsername(ident), attempt))
  }

  function Attempts(users: seq<User>, session: User, ident: Identity): nat -> User {
    (n: nat) => AttemptUser(users, session, ident, n)
  }

  function Answers(users: seq<User>, session: User, ident: Identity): nat -> SaveResult {
    (n: nat) => SaveOutcome(users, AttemptUser(users, session, ident, n))
  }

  function Commits(users: seq<User>, session: User, ident: Identity): nat -> seq<User> {
    (n: nat) => Upsert(users, AttemptUser(users, session, ident, n))
  }

  function Constantly(users: seq<User>): nat -> seq<User> {
    (n: nat) => users
  }

  /** The loop on the collection `users` alone: each attempt looks the identity up
      again, writes either the refreshed holder or the session's user, and saves it. */
  function Resolve(users: seq<User>, session: User, ident: Identity, attempt: nat, fuel: nat): Resolution {
    Retry(Attempts(users, session, ident), Answers(users, session, ident), Commits(users, session, ident),
          Constantly(users), attempt, fuel)
  }

  /** Attempt `n` of the loop on `users` is answered with a duplicate-key error. */
  predicate Rejected(users: seq<User>, session: User, ident: Identity, n: nat) {
    Refused(Answers(users, session, ident), n)
  }

  // ---------------------------------------------------------------------------
  // The loop among other requests: another request's save may land between an
  // attempt's lookup and its own save.

  /** The save another request makes while attempt `n` runs, if any. */
  function OtherAt(others: seq<Option<User>>, n: nat): Option<User> {
    if n < |others| then others[n] else None
  }

  /** The collection once another request's save, if any, has gone through `save()`. */
  function Interleave(users: seq<User>, other: Option<User>): (r: seq<User>)
    ensures other.None? ==> r == users
    ensures other.Some? && SaveOutcome(users, other.value) == Saved ==> r == Upsert(users, other.value)
    ensures other.Some? && SaveOutcome(users, other.value) != Saved ==> r == users
  {
    if other.Some? && SaveOutcome(users, other.value) == Saved then Upsert(users, other.value) else users
  }

  /** The collection attempt `n` starts from: `users` after the other requests' saves
      during attempts `0 .. n - 1` (a refused attempt writes nothing). */
  function After(users: seq<User>, others: seq<Option<User>>, n: nat): seq<User>
    decreases n
  {
    if n == 0 then users else Interleave(After(users, others, n - 1), OtherAt(others, n - 1))
  }

  lemma {:induction false} AfterKeepsInvariant(users: seq<User>, others: seq<Option<User>>, n: nat)
    requires Invariant(users)
    ensures Invariant(After(users, others, n))
    decreases n
  {
    if n > 0 {
      AfterKeepsInvariant(users, others, n - 1);
      var c := After(users, others, n - 1);
      var other := OtherAt(others, n - 1);
      if other.Some? && SaveOutcome(c, other.value) == Saved {
        UpsertKeepsInvariant(c, other.value);
      }
    }
  }

  function RaceAttempts(users: seq<User>, session: User, ident: Identity, others: seq<Option<User>>): nat -> User {
    (n: nat) => AttemptUser(After(users, others, n), session, ident, n)
  }

  function RaceAnswers(users: seq<User>, session: User, ident: Identity, others: seq<Option<User>>): nat -> SaveResult {
    (n: nat) => SaveOutcome(After(users, others, n + 1), AttemptUser(After(users, others, n), session, ident, n))
  }

  function RaceCommits(users: seq<User>, session: User, ident: Identity, others: seq<Option<User>>): nat -> seq<User> {
    (n: nat) => Upsert(After(users, others, n + 1), AttemptUser(After(users, others, n), session, ident, n))
  }

  function States(users: seq<User>, others: seq<Option<User>>): nat -> seq<User> {
    (n: nat) => After(users, others, n)
  }

  /** The loop as it runs among other requests: attempt `n` looks the identity up on
      the collection it finds, then `OtherAt(others, n)` is saved by someone else, and
      then the attempt's own record is saved into what that leaves. */
  function Race(users: seq<User>, session: User, ident: Identity, others: seq<Option<User>>, attempt: nat, fuel: nat)
    : Resolution
  {
    Retry(RaceAttempts(users, session, ident, others), RaceAnswers(users, session, ident, others),
          RaceCommits(users, session, ident, others), States(users, others), attempt, fuel)
  }

  /** The first `count` attempts of the loop among `others` were refused as duplicates. */
  predicate RaceRejected(users: seq<User>, session: User, ident: Identity, others: seq<Option<User>>, count: nat) {
    AllRefused(RaceAnswers(users, session, ident, others), 0, count)
  }

  /** After `attempt` refusals the loop is decided by attempt `attempt`. */
  lemma RaceAt(users: seq<User>, session: User, ident: Identity, others: seq<Option<User>>, attempt: nat, fuel: nat)
    requires RaceRejected(users, session, ident, others, attempt) && attempt < fuel
    ensures var o := RaceAnswers(users, session, ident, others)(attempt);
            && (o.Saved? ==>
                  Race(users, session, ident, others, 0, fuel)
                  == Resolution(Ok(RaceAttempts(users, session, ident, others)(attempt)),
                                RaceCommits(users, session, ident, others)(attempt)))
            && (o.Failed? && !o.error.DuplicateKey? ==>
                  Race(users, session, ident, others, 0, fuel) == Resolution(Err(Raised(o.error)), States(users, others)(attempt + 1)))
            && (o.Failed? && o.error.DuplicateKey? ==> RaceRejected(users, session, ident, others, attempt + 1))
  {
    RetryAt(RaceAttempts(users, session, ident, others), RaceAnswers(users, session, ident, others),
            RaceCommits(users, session, ident, others), States(users, others), attempt, fuel);
  }



  // Attempt `n` among other requests in concrete terms: it writes from the collection
  // it starts from, and its save lands in what the other request's save leaves.

  lemma AfterStep(users: seq<User>, others: seq<Option<User>>, n: nat)
    ensures After(users, others, n + 1) == Interleave(After(users, others, n), OtherAt(others, n))
    ensures States(users, others)(n + 1) == After(users, others, n + 1)
  {
  }

  lemma RaceAttemptIs(users: seq<User>, session: User, ident: Identity, others: seq<Option<User>>, n: nat)
    ensures RaceAttempts(users, session, ident, others)(n) == AttemptUser(After(users, others, n), session, ident, n)
  {
  }

  lemma RaceAnswerIs(users: seq<User>, session: User, ident: Identity, others: seq<Option<User>>, n: nat)
    ensures RaceAnswers(users, session, ident, others)(n)
            == SaveOutcome(After(users, others, n + 1), AttemptUser(After(users, others, n), session, ident, n))
  {
  }

  lemma RaceCommitIs(users: seq<User>, session: User, ident: Identity, others: seq<Option<User>>, n: nat)
    ensures RaceCommits(users, session, ident, others)(n)
            == Upsert(After(users, others, n + 1), AttemptUser(After(users, others, n), session, ident, n))
  {
  }

  /** A loop whose whole budget was refused ends exhausted, on the collection the
      other requests' saves left. */
  lemma RaceExhaustedAt(users: seq<User>, session: User, ident: Identity, others: seq<Option<User>>, fuel: nat)
    requires RaceRejected(users, session, ident, others, fuel)
    ensures Race(users, session, ident, others, 0, fuel) == Resolution(Err(RetriesExhausted), After(users, others, fuel))
  {
    RetryAllRefused(RaceAttempts(users, session, ident, others), RaceAnswers(users, session, ident, others),
                    RaceCommits(users, session, ident, others), States(users, others), fuel);
  }

  /** No other request writes while the loop runs. */
  predicate Quiet(others: seq<Option<User>>) {
    forall n :: 0 <= n < |others| ==> others[n].None?
  }

  lemma {:induction false} AfterQuiet(users: seq<User>, others: seq<Option<User>>, n: nat)
    requires Quiet(others)
    ensures After(users, others, n) == users
    decreases n
  {
    if n > 0 {
      AfterQuiet(users, others, n - 1);
    }
  }

  /** An attempt whose collection no other request changed is the attempt on `users`. */
  lemma UndisturbedAttempt(users: seq<User>, session: User, ident: Identity, others: seq<Option<User>>, n: nat)
    requires After(users, others, n) == users && After(users, others, n + 1) == users
    ensures RaceAttempts(users, session, ident, others)(n) == Attempts(users, session, ident)(n)
    ensures RaceAnswers(users, session, ident, others)(n) == Answers(users, session, ident)(n)
    ensures RaceCommits(users, session, ident, others)(n) == Commits(users, session, ident)(n)
    ensures States(users, others)(n) == Constantly(users)(n)
  {
  }

  /** Without other writers the loop is the run on the one collection. */
  lemma RaceQuiet(users: seq<User>, session: User, ident: Identity, others: seq<Option<User>>, attempt: nat, fuel: nat)
    requires Quiet(others)
    ensures Race(users, session, ident, others, attempt, fuel) == Resolve(users, session, ident, attempt, fuel)
  {
    forall n: nat | attempt <= n <= attempt + fuel
      ensures && RaceAttempts(users, session, ident, others)(n) == Attempts(users, session, ident)(n)
              && RaceAnswers(users, session, ident, others)(n) == Answers(users, session, ident)(n)
              && RaceCommits(users, session, ident, others)(n) == Commits(users, session, ident)(n)
              && States(users, others)(n) == Constantly(users)(n)
    {
      AfterQuiet(users, others, n);
      AfterQuiet(users, others, n + 1);
      UndisturbedAttempt(users, session, ident, others, n);
    }
    RetryAgree(RaceAttempts(users, session, ident, others), RaceAnswers(users, session, ident, others),
               RaceCommits(users, session, ident, others), States(users, others),
               Attempts(users, session, ident), Answers(users, session, ident),
               Commits(users, session, ident), Constantly(users), attempt, fuel);
  }

  /** What attempt `n` decides, in the terms the loop body sees: the record it wrote
      and the answer its save got on the collection the other request left. */
  lemma RaceDecided(users: seq<User>, session: User, ident: Identity, others: seq<Option<User>>, n: nat, fuel: nat,
                    user: User, saved: SaveResult)
    requires RaceRejected(users, session, ident, others, n) && n < fuel
    requires user == AttemptUser(After(users, others, n), session, ident, n)
    requires saved == SaveOutcome(After(users, others, n + 1), user)
    ensures saved.Saved? ==>
              Race(users, session, ident, others, 0, fuel) == Resolution(Ok(user), Upsert(After(users, others, n + 1), user))
    ensures saved.Failed? && !saved.error.DuplicateKey? ==>
              Race(users, session, ident, others, 0, fuel) == Resolution(Err(Raised(saved.error)), After(users, others, n + 1))
    ensures saved.Failed? && saved.error.DuplicateKey? ==> RaceRejected(users, session, ident, others, n + 1)
  {
    RaceAttemptIs(users, session, ident, others, n);
    RaceAnswerIs(users, session, ident, others, n);
    RaceCommitIs(users, session, ident, others, n);
    AfterStep(users, others, n);
    RaceAt(users, session, ident, others, n, fuel);
  }

  /** One pass of the loop body: look the identity up again, write the provider
      fields onto the holder or onto the session's user, let another request's save
      (if any) through, and save. */
  method Attempt(store: Store, session: User, ident: Identity, username: string, other: Option<User>,
                 ghost users: seq<User>, ghost others: seq<Option<User>>, ghost attempt: nat)
    returns (user: User, saved: SaveResult)
    requires store.Valid() && store.users == After(users, others, attempt) && other == OtherAt(others, attempt)
    requires username == Candidate(BaseUsername(ident), attempt)
    modifies store
    ensures store.Valid()
    ensures user == AttemptUser(After(users, others, attempt), session, ident, attempt)
    ensures saved == SaveOutcome(After(users, others, attempt + 1), user)
    ensures store.users == if saved.Saved? then Upsert(After(users, others, attempt + 1), user)
                           else After(users, others, attempt + 1)
  {
    var holder := HolderIndex(store.users, ident);
    if holder.Some? {
      user := Refreshed(store.users[holder.value], ident);
    } else {
      user := FirstLogin(session, ident, username);
    }
    AfterStep(users, others, attempt);
    if other.Some? {
      var _ := store.Save(other.value);
    }
    saved := store.Save(user);
  }

  /** The retry loop of `authenticate`; `others` are the saves other requests make
      during its attempts. */
  method ResolveIdentity(store: Store, session: User, ident: Identity, others: seq<Option<User>>, maxAttempts: nat)
    returns (r: Result<User, AuthError>)
    requires store.Valid()
    modifies store
    ensures store.Valid()
    ensures r == Race(old(store.users), session, ident, others, 0, maxAttempts).result
    ensures store.users == Race(old(store.users), session, ident, others, 0, maxAttempts).users
  {
    ghost var users := store.users;
    var base := BaseUsername(ident);
    var username := base;
    var i := 1;
    ghost var attempt: nat := 0;
    while i <= maxAttempts
      invariant 1 <= i <= maxAttempts + 1 && attempt == i - 1
      invariant store.Valid() && store.users == After(users, others, attempt)
      invariant username == Candidate(base, attempt)
      invariant RaceRejected(users, session, ident, others, attempt)
    {
      var user, saved := Attempt(store, session, ident, username, OtherAt(others, i - 1), users, others, attempt);
      RaceDecided(users, session, ident, others, attempt, maxAttempts, user, saved);
      if saved.Saved? {
        return Ok(user);
      }
      if !saved.error.DuplicateKey? {
        return Err(Raised(saved.error));
      }
      username := base + NatToString(i);
      i := i + 1;
      attempt := attempt + 1;
    }
    assert attempt == maxAttempts;
    RaceExhaustedAt(users, session, ident, others, maxAttempts);
    r := Err(RetriesExhausted);
  }

  method FacebookAuthenticate(store: Store, session: User, fb: FacebookProfile, accessToken: string,
                              others: seq<Option<User>>, maxAttempts: nat)
    returns (r: Result<User, AuthError>)
    requires store.Valid()
    modifies store
    ensures store.Valid()
    ensures var res := Race(old(store.users), session, FacebookIdentity(fb, accessToken), others, 0, maxAttempts);
            r == res.result && store.users == res.users
  {
    r := ResolveIdentity(store, session, FacebookIdentity(fb, accessToken), others, maxAttempts);
  }

  method TwitterAuthenticate(store: Store, session: User, tw: TwitterUser, token: TwitterAccessToken,
                             others: seq<Option<User>>, maxAttempts: nat)
    returns (r: Result<User, AuthError>)
    requires store.Valid()
    modifies store
    ensures store.Valid()
    ensures var res := Race(old(store.users), session, TwitterIdentity(tw, token), others, 0, maxAttempts);
            r == res.result && store.users == res.users
  {
    r := ResolveIdentity(store, session, TwitterIdentity(tw, token), others, maxAttempts);
  }

  // ---------------------------------------------------------------------------
  // What the loop guarantees.

  lemma AttemptHolds(users: seq<User>, session: User, ident: Identity, attempt: nat)
    ensures Holds(AttemptUser(users, session, ident, attempt), ident)
  {
    match HolderIndex(users, ident)
    case Some(i) => RefreshedKeepsAccount(users[i], ident);
    case None => FirstLoginFields(session, ident, Candidate(BaseUsername(ident), attempt));
  }

  /** Every duplicate-key answer is retried alike, whichever index collided: the run
      goes on with the next username, and that attempt looks the identity up again on
      the collection as the other requests left it. */
  lemma RetryOnAnyDuplicate(users: seq<User>, session: User, ident: Identity, others: seq<Option<User>>,
                            attempt: nat, fuel: nat, key: Key)
    requires fuel > 0
    requires SaveOutcome(After(users, others, attempt + 1), AttemptUser(After(users, others, attempt), session, ident, attempt))
             == Failed(DuplicateKey(key))
    ensures Race(users, session, ident, others, attempt, fuel) == Race(users, session, ident, others, attempt + 1, fuel - 1)
  {
    RaceAnswerIs(users, session, ident, others, attempt);
  }

  /** A run among other requests that returns a user stopped at an accepted attempt:
      the record that attempt wrote, which holds the identity, saved into the
      collection its save met. */
  lemma RaceAccepted(users: seq<User>, session: User, ident: Identity, others: seq<Option<User>>, fuel: nat)
    returns (n: nat)
    requires Race(users, session, ident, others, 0, fuel).result.Ok?
    ensures n < fuel
    ensures var u := AttemptUser(After(users, others, n), session, ident, n);
            && Race(users, session, ident, others, 0, fuel) == Resolution(Ok(u), Upsert(After(users, others, n + 1), u))
            && Holds(u, ident)
  {
    var ra, rn, rc, st := RaceAttempts(users, session, ident, others), RaceAnswers(users, session, ident, others),
                          RaceCommits(users, session, ident, others), States(users, others);
    var res := Race(users, session, ident, others, 0, fuel);
    n := RetryReturnsAttempt(ra, rn, rc, st, fuel, res);
    RaceAttemptIs(users, session, ident, others, n);
    RaceCommitIs(users, session, ident, others, n);
    var u := AttemptUser(After(users, others, n), session, ident, n);
    assert res.result == Ok(u);
    assert res.users == Upsert(After(users, others, n + 1), u);
    AttemptHolds(After(users, others, n), session, ident, n);
  }

  /** A run among other requests that ends in an error leaves only the other
      requests' writes, and a raised error is never a duplicate-key error. */
  lemma RaceOutcomeErr(users: seq<User>, session: User, ident: Identity, others: seq<Option<User>>, fuel: nat)
    ensures var res := Race(users, session, ident, others, 0, fuel);
            res.result.Err? ==> exists n :: 0 <= n <= fuel && res.users == After(users, others, n)
    ensures var res := Race(users, session, ident, others, 0, fuel);
            res.result.Err? && res.result.error.Raised? ==> !res.result.error.error.DuplicateKey?
  {
    RetryErrors(RaceAttempts(users, session, ident, others), RaceAnswers(users, session, ident, others),
                RaceCommits(users, session, ident, others), States(users, others), 0, fuel);
  }

  /** Re-login: when an account already holds the identity, that account is returned
      with only its credential refreshed; no record is created and its username and
      id stay as they were. */
  lemma ReloginPath(users: seq<User>, session: User, ident: Identity, attempt: nat, fuel: nat)
    requires Invariant(users) && fuel > 0
    requires HolderIndex(users, ident).Some?
    ensures var i := HolderIndex(users, ident).value;
            var u := Refreshed(users[i], ident);
            && Resolve(users, session, ident, attempt, fuel) == Resolution(Ok(u), users[i := u])
            && SameKeys(users[i], u)
  {
    var i := HolderIndex(users, ident).value;
    var u := Refreshed(users[i], ident);
    RefreshedKeepsAccount(users[i], ident);
    ResaveStored(users, i, u);
  }

  /** Any run: a returned user holds the identity and is what was written; an error
      leaves the store untouched, and a raised error is never a duplicate-key error. */
  lemma ResolveOutcome(users: seq<User>, session: User, ident: Identity, attempt: nat, fuel: nat)
    ensures var res := Resolve(users, session, ident, attempt, fuel);
            res.result.Ok? ==> Holds(res.result.value, ident) && res.users == Upsert(users, res.result.value)
    ensures var res := Resolve(users, session, ident, attempt, fuel);
            res.result.Err? ==> res.users == users
    ensures var res := Resolve(users, session, ident, attempt, fuel);
            res.result.Err? && res.result.error.Raised? ==> !res.result.error.error.DuplicateKey?
  {
    if Resolve(users, session, ident, attempt, fuel).result.Ok? {
      var n := RetryAccepted(Attempts(users, session, ident), Answers(users, session, ident), Commits(users, session, ident), Constantly(users), attempt, fuel);
      AttemptHolds(users, session, ident, attempt + n);
    } else {
      RetryErrors(Attempts(users, session, ident), Answers(users, session, ident), Commits(users, session, ident), Constantly(users), attempt, fuel);
    }
  }

  /** First login: the run ends at the first attempt the store accepted, every earlier
      attempt having been refused as a duplicate; it returns and appends the session's
      user under that attempt's username. */
  lemma FirstLoginResult(users: seq<User>, session: User, ident: Identity, fuel: nat) returns (k: nat)
    requires HolderIndex(users, ident).None?
    requires Resolve(users, session, ident, 0, fuel).result.Ok?
    ensures k < fuel
    ensures var u := FirstLogin(session, ident, Candidate(BaseUsername(ident), k));
            && SaveOutcome(users, u) == Saved
            && Resolve(users, session, ident, 0, fuel) == Resolution(Ok(u), Upsert(users, u))
    ensures forall j :: 0 <= j < k ==> Rejected(users, session, ident, j)
  {
    var res := Resolve(users, session, ident, 0, fuel);
    k := RetryAcceptedFrom(Attempts(users, session, ident), Answers(users, session, ident), Commits(users, session, ident),
                           Constantly(users), fuel, res);
    var u := FirstLogin(session, ident, Candidate(BaseUsername(ident), k));
    assert AttemptUser(users, session, ident, k) == u;
    assert Answers(users, session, ident)(k) == SaveOutcome(users, u);
    assert Commits(users, session, ident)(k) == Upsert(users, u);
    forall j | 0 <= j < k ensures Rejected(users, session, ident, j) {
      AllRefusedAt(Answers(users, session, ident), 0, k, j);
    }
  }

  /** The username a first login ends with is the base or the base with a decimal suffix. */
  lemma FirstLoginUsername(users: seq<User>, session: User, ident: Identity, fuel: nat)
    requires HolderIndex(users, ident).None?
    requires Resolve(users, session, ident, 0, fuel).result.Ok?
    ensures var u := Resolve(users, session, ident, 0, fuel).result.value;
            && u.id == session.id
            && (u.username == BaseUsername(ident)
                || exists n: nat :: 1 <= n < fuel && u.username == BaseUsername(ident) + NatToString(n))
  {
    var k := FirstLoginResult(users, session, ident, fuel);
    FirstLoginFields(session, ident, Candidate(BaseUsername(ident), k));
    if k > 0 {
      assert Candidate(BaseUsername(ident), k) == BaseUsername(ident) + NatToString(k);
    }
  }

  // ---------------------------------------------------------------------------
  // The budget: a store of n records can refuse at most n usernames.

  /** No other record holds a provider id of `u` (the first login writes no colliding id). */
  predicate KeysFree(users: seq<User>, u: User) {
    !Taken(users, u, FacebookIdKey) && !Taken(users, u, TwitterIdKey) && !Taken(users, u, GoogleIdKey)
  }

  function UsernamesOf(users: seq<User>): (r: seq<string>)
    ensures |r| == |users| && forall j :: 0 <= j < |users| ==> r[j] == users[j].username
  {
    seq(|users|, j requires 0 <= j < |users| => users[j].username)
  }

  lemma KeysFreeAnyUsername(users: seq<User>, session: User, ident: Identity, a: string, b: string)
    requires KeysFree(users, FirstLogin(session, ident, a))
    ensures KeysFree(users, FirstLogin(session, ident, b))
  {
    var ua, ub := FirstLogin(session, ident, a), FirstLogin(session, ident, b);
    forall key: Key, j | 0 <= j < |users| && key != UsernameKey ensures !TakenBy(users[j], ub, key) {
      assert !TakenBy(users[j], ua, key);
    }
  }

  lemma RejectedUsernameIsTaken(users: seq<User>, session: User, ident: Identity, n: nat)
    requires HolderIndex(users, ident).None?
    requires KeysFree(users, FirstLogin(session, ident, BaseUsername(ident)))
    requires Rejected(users, session, ident, n)
    ensures Candidate(BaseUsername(ident), n) in Elements(UsernamesOf(users))
  {
    var name := Candidate(BaseUsername(ident), n);
    KeysFreeAnyUsername(users, session, ident, BaseUsername(ident), name);
    var u := FirstLogin(session, ident, name);
    assert Taken(users, u, UsernameKey);
    var j :| 0 <= j < |users| && TakenBy(users[j], u, UsernameKey);
    assert UsernamesOf(users)[j] == name;
  }

  /** A first login runs out of attempts only after more attempts than there are records. */
  lemma ExhaustionNeedsFullStore(users: seq<User>, session: User, ident: Identity, fuel: nat)
    requires HolderIndex(users, ident).None?
    requires KeysFree(users, FirstLogin(session, ident, BaseUsername(ident)))
    ensures Resolve(users, session, ident, 0, fuel).result == Err(RetriesExhausted) ==> fuel <= |users|
  {
    if Resolve(users, session, ident, 0, fuel).result == Err(RetriesExhausted) {
      RetryExhausted(Attempts(users, session, ident), Answers(users, session, ident), Commits(users, session, ident), Constantly(users), 0, fuel);
      var base := BaseUsername(ident);
      var names := seq(fuel, j requires 0 <= j < fuel => Candidate(base, j));
      forall a, b | 0 <= a < b < fuel ensures names[a] != names[b] {
        CandidateInjective(base, a, b);
      }
      forall j | 0 <= j < fuel ensures names[j] in Elements(UsernamesOf(users)) {
        AllRefusedAt(Answers(users, session, ident), 0, fuel, j);
        RejectedUsernameIsTaken(users, session, ident, j);
      }
      Pigeonhole(names, Elements(UsernamesOf(users)));
      ElementsCountAtMost(UsernamesOf(users));
    }
  }

  /** When the session's user is itself a stored record, nothing but the username can
      collide on a first login. */
  lemma StoredSessionKeysFree(users: seq<User>, session: User, ident: Identity, s: nat)
    requires Invariant(users) && s < |users| && users[s] == session
    requires HolderIndex(users, ident).None?
    ensures KeysFree(users, FirstLogin(session, ident, BaseUsername(ident)))
  {
    var u := FirstLogin(session, ident, BaseUsername(ident));
    assert Admissible(users, users[s]);
    forall key: Key, j | 0 <= j < |users| && key != UsernameKey ensures !TakenBy(users[j], u, key) {
      assert !TakenBy(users[j], session, key);
      assert !Holds(users[j], ident);
    }
  }

  /** With a budget larger than the store, the loop always ends with a user or a
      non-duplicate error, never by running out of attempts, provided the identity has
      a holder or no other record holds a provider id of the session's user (which
      `StoredSessionKeysFree` shows for a stored session user). */
  lemma ResolveNeverExhausted(users: seq<User>, session: User, ident: Identity, fuel: nat)
    requires Invariant(users) && fuel > |users|
    requires HolderIndex(users, ident).Some? || KeysFree(users, FirstLogin(session, ident, BaseUsername(ident)))
    ensures Resolve(users, session, ident, 0, fuel).result != Err(RetriesExhausted)
  {
    if HolderIndex(users, ident).Some? {
      ReloginPath(users, session, ident, 0, fuel);
    } else {
      ExhaustionNeedsFullStore(users, session, ident, fuel);
    }
  }

  // ---------------------------------------------------------------------------
  // A provider id of the session's user that another record already holds. Every
  // duplicate-key error is retried under a new username, but no username clears
  // such a collision.

  /** One step of the loop on `users` alone, with the attempt's functions applied. */
  lemma ResolveUnfolds(users: seq<User>, session: User, ident: Identity, attempt: nat, fuel: nat)
    requires fuel > 0
    ensures var u := AttemptUser(users, session, ident, attempt);
            var outcome := SaveOutcome(users, u);
            Resolve(users, session, ident, attempt, fuel)
            == if outcome.Saved? then Resolution(Ok(u), Upsert(users, u))
               else if outcome.error.DuplicateKey? then Resolve(users, session, ident, attempt + 1, fuel - 1)
               else Resolution(Err(Raised(outcome.error)), users)
  {
  }

  /** A collision on a provider id does not depend on the username tried. */
  lemma KeysTakenAnyUsername(users: seq<User>, session: User, ident: Identity, a: string, b: string)
    requires !KeysFree(users, FirstLogin(session, ident, a))
    ensures !KeysFree(users, FirstLogin(session, ident, b))
  {
    var ua, ub := FirstLogin(session, ident, a), FirstLogin(session, ident, b);
    if Taken(users, ua, FacebookIdKey) {
      var j :| 0 <= j < |users| && TakenBy(users[j], ua, FacebookIdKey);
      assert TakenBy(users[j], ub, FacebookIdKey);
    } else if Taken(users, ua, TwitterIdKey) {
      var j :| 0 <= j < |users| && TakenBy(users[j], ua, TwitterIdKey);
      assert TakenBy(users[j], ub, TwitterIdKey);
    } else {
      var j :| 0 <= j < |users| && TakenBy(users[j], ua, GoogleIdKey);
      assert TakenBy(users[j], ub, GoogleIdKey);
    }
  }

  /** Attempts each refused as a duplicate make a run of refusals. */
  lemma {:induction false} AllRefusedEach(answer: nat -> SaveResult, from: nat, count: nat)
    requires forall j: nat :: from <= j < from + count ==> Refused(answer, j)
    ensures AllRefused(answer, from, count)
    decreases count
  {
    if count > 0 {
      AllRefusedEach(answer, from + 1, count - 1);
    }
  }

  /** With such a collision, every attempt whose username passes validation is
      refused as a duplicate. */
  lemma ForeignIdRefused(users: seq<User>, session: User, ident: Identity, n: nat)
    requires HolderIndex(users, ident).None?
    requires !KeysFree(users, FirstLogin(session, ident, BaseUsername(ident)))
    requires ValidUsername(Candidate(BaseUsername(ident), n))
    ensures Rejected(users, session, ident, n)
  {
    var name := Candidate(BaseUsername(ident), n);
    KeysTakenAnyUsername(users, session, ident, BaseUsername(ident), name);
    assert AttemptUser(users, session, ident, n) == FirstLogin(session, ident, name);
  }

  /** Such a run never returns a user, whatever its budget. */
  lemma {:induction false} ForeignIdNeverLogsIn(users: seq<User>, session: User, ident: Identity,
                                                attempt: nat, fuel: nat)
    requires HolderIndex(users, ident).None?
    requires !KeysFree(users, FirstLogin(session, ident, BaseUsername(ident)))
    ensures Resolve(users, session, ident, attempt, fuel).result.Err?
    decreases fuel
  {
    if fuel > 0 {
      ResolveUnfolds(users, session, ident, attempt, fuel);
      var name := Candidate(BaseUsername(ident), attempt);
      KeysTakenAnyUsername(users, session, ident, BaseUsername(ident), name);
      assert AttemptUser(users, session, ident, attempt) == FirstLogin(session, ident, name);
      ForeignIdNeverLogsIn(users, session, ident, attempt + 1, fuel - 1);
    }
  }

  /** It uses up any budget whose usernames all pass validation. */
  lemma ForeignIdExhausts(users: seq<User>, session: User, ident: Identity, fuel: nat)
    requires HolderIndex(users, ident).None?
    requires !KeysFree(users, FirstLogin(session, ident, BaseUsername(ident)))
    requires forall n: nat :: n < fuel ==> ValidUsername(Candidate(BaseUsername(ident), n))
    ensures Resolve(users, session, ident, 0, fuel) == Resolution(Err(RetriesExhausted), users)
  {
    forall n: nat | n < fuel ensures Refused(Answers(users, session, ident), n) {
      ForeignIdRefused(users, session, ident, n);
    }
    AllRefusedEach(Answers(users, session, ident), 0, fuel);
    RetryAllRefused(Attempts(users, session, ident), Answers(users, session, ident),
                    Commits(users, session, ident), Constantly(users), fuel);
  }

  /** And it ends only at the first username the rule rejects, which raises
      `ValidationError`. */
  lemma ForeignIdEndsInValidation(users: seq<User>, session: User, ident: Identity, k: nat, fuel: nat)
    requires HolderIndex(users, ident).None?
    requires !KeysFree(users, FirstLogin(session, ident, BaseUsername(ident)))
    requires forall n: nat :: n < k ==> ValidUsername(Candidate(BaseUsername(ident), n))
    requires !ValidUsername(Candidate(BaseUsername(ident), k)) && k < fuel
    ensures Resolve(users, session, ident, 0, fuel) == Resolution(Err(Raised(ValidationError)), users)
  {
    forall n: nat | n < k ensures Refused(Answers(users, session, ident), n) {
      ForeignIdRefused(users, session, ident, n);
    }
    AllRefusedEach(Answers(users, session, ident), 0, k);
    assert AttemptUser(users, session, ident, k) == FirstLogin(session, ident, Candidate(BaseUsername(ident), k));
    RetryAt(Attempts(users, session, ident), Answers(users, session, ident),
            Commits(users, session, ident), Constantly(users), k, fuel);
  }

  // ---------------------------------------------------------------------------
  // The loop with the retry condition it exists for: a duplicate is retried only
  // on the username index, which the next attempt changes, and on the identity's
  // own index, whose holder the next attempt's lookup finds.

  /** The index of the identity's own provider id. */
  function IdentityKey(ident: Identity): Key {
    match ident
    case FacebookIdentity(_, _) => FacebookIdKey
    case TwitterIdentity(_, _) => TwitterIdKey
  }

  predicate Curable(ident: Identity, key: Key) {
    key == UsernameKey || key == IdentityKey(ident)
  }

  /** The loop on `users` alone, raising at once a duplicate that no retry can cure. */
  function ResolveScreened(users: seq<User>, session: User, ident: Identity, attempt: nat, fuel: nat): Resolution
    decreases fuel
  {
    if fuel == 0 then Resolution(Err(RetriesExhausted), users)
    else
      var u := AttemptUser(users, session, ident, attempt);
      var outcome := SaveOutcome(users, u);
      if outcome.Saved? then Resolution(Ok(u), Upsert(users, u))
      else if outcome.error.DuplicateKey? && Curable(ident, outcome.error.key) then
        ResolveScreened(users, session, ident, attempt + 1, fuel - 1)
      else Resolution(Err(Raised(outcome.error)), users)
  }

  /** With no holder and no provider id of the session's user colliding, the screened
      loop is the loop as written: only the username can be refused. */
  lemma {:induction false} ScreenedAgreesFree(users: seq<User>, session: User, ident: Identity,
                                              attempt: nat, fuel: nat)
    requires HolderIndex(users, ident).None?
    requires KeysFree(users, FirstLogin(session, ident, BaseUsername(ident)))
    ensures ResolveScreened(users, session, ident, attempt, fuel) == Resolve(users, session, ident, attempt, fuel)
    decreases fuel
  {
    if fuel > 0 {
      ResolveUnfolds(users, session, ident, attempt, fuel);
      var name := Candidate(BaseUsername(ident), attempt);
      var u := FirstLogin(session, ident, name);
      assert AttemptUser(users, session, ident, attempt) == u;
      KeysFreeAnyUsername(users, session, ident, BaseUsername(ident), name);
      var outcome := SaveOutcome(users, u);
      if outcome.Failed? && outcome.error.DuplicateKey? {
        assert outcome.error.key == UsernameKey;
        ScreenedAgreesFree(users, session, ident, attempt + 1, fuel - 1);
      }
    } else {
      assert Constantly(users)(attempt) == users;
    }
  }

  /** Where no provider id of the session's user collides, the screened loop is the
      loop as written. */
  lemma ScreenedAgrees(users: seq<User>, session: User, ident: Identity, attempt: nat, fuel: nat)
    requires Invariant(users)
    requires HolderIndex(users, ident).Some? || KeysFree(users, FirstLogin(session, ident, BaseUsername(ident)))
    ensures ResolveScreened(users, session, ident, attempt, fuel) == Resolve(users, session, ident, attempt, fuel)
  {
    if HolderIndex(users, ident).None? {
      ScreenedAgreesFree(users, session, ident, attempt, fuel);
    } else if fuel > 0 {
      ResolveUnfolds(users, session, ident, attempt, fuel);
      var i := HolderIndex(users, ident).value;
      RefreshedKeepsAccount(users[i], ident);
      ResaveStored(users, i, Refreshed(users[i], ident));
    } else {
      assert Constantly(users)(attempt) == users;
    }
  }

  /** Every attempt of a used-up budget of the screened loop, with no holder, was
      refused on a username some record holds. */
  lemma {:induction false} ScreenedExhaustedTaken(users: seq<User>, session: User, ident: Identity,
                                                  attempt: nat, fuel: nat, n: nat)
    requires HolderIndex(users, ident).None?
    requires ResolveScreened(users, session, ident, attempt, fuel).result == Err(RetriesExhausted)
    requires attempt <= n < attempt + fuel
    ensures Candidate(BaseUsername(ident), n) in Elements(UsernamesOf(users))
    decreases fuel
  {
    var u := AttemptUser(users, session, ident, attempt);
    var outcome := SaveOutcome(users, u);
    assert outcome.Failed? && outcome.error.DuplicateKey? && Curable(ident, outcome.error.key);
    if n > attempt {
      assert ResolveScreened(users, session, ident, attempt, fuel)
          == ResolveScreened(users, session, ident, attempt + 1, fuel - 1);
      ScreenedExhaustedTaken(users, session, ident, attempt + 1, fuel - 1, n);
    } else {
      var name := Candidate(BaseUsername(ident), n);
      assert u == FirstLogin(session, ident, name);
      var j :| 0 <= j < |users| && TakenBy(users[j], u, outcome.error.key);
      assert !Holds(users[j], ident);
      assert UsernamesOf(users)[j] == name;
    }
  }

  /** The screened loop runs out of attempts only after more attempts than there are
      records, whatever ids the session's user carries. */
  lemma ScreenedExhaustionNeedsFullStore(users: seq<User>, session: User, ident: Identity, fuel: nat)
    requires HolderIndex(users, ident).None?
    ensures ResolveScreened(users, session, ident, 0, fuel).result == Err(RetriesExhausted) ==> fuel <= |users|
  {
    if ResolveScreened(users, session, ident, 0, fuel).result == Err(RetriesExhausted) {
      var base := BaseUsername(ident);
      var names := seq(fuel, j requires 0 <= j < fuel => Candidate(base, j));
      forall a, b | 0 <= a < b < fuel ensures names[a] != names[b] {
        CandidateInjective(base, a, b);
      }
      forall j | 0 <= j < fuel ensures names[j] in Elements(UsernamesOf(users)) {
        ScreenedExhaustedTaken(users, session, ident, 0, fuel, j);
      }
      Pigeonhole(names, Elements(UsernamesOf(users)));
      ElementsCountAtMost(UsernamesOf(users));
    }
  }

  /** With a budget larger than the store, the screened loop never runs out of
      attempts, with no condition on the session's user. */
  lemma ScreenedNeverExhausted(users: seq<User>, session: User, ident: Identity, fuel: nat)
    requires Invariant(users) && fuel > |users|
    ensures ResolveScreened(users, session, ident, 0, fuel).result != Err(RetriesExhausted)
  {
    if HolderIndex(users, ident).Some? {
      ScreenedAgrees(users, session, ident, 0, fuel);
      ReloginPath(users, session, ident, 0, fuel);
    } else {
      ScreenedExhaustionNeedsFullStore(users, session, ident, fuel);
    }
  }

  /** A collision on a provider id of the session's user is never logged in past. */
  lemma {:induction false} ScreenedRefusesCollision(users: seq<User>, session: User, ident: Identity,
                                                    attempt: nat, fuel: nat)
    requires HolderIndex(users, ident).None?
    requires !KeysFree(users, FirstLogin(session, ident, BaseUsername(ident)))
    ensures ResolveScreened(users, session, ident, attempt, fuel).result.Err?
    decreases fuel
  {
    if fuel > 0 {
      var u := AttemptUser(users, session, ident, attempt);
      assert SaveOutcome(users, u) != Saved by {
        var name := Candidate(BaseUsername(ident), attempt);
        KeysTakenAnyUsername(users, session, ident, BaseUsername(ident), name);
        assert u == FirstLogin(session, ident, name);
      }
      var outcome := SaveOutcome(users, u);
      if outcome.error.DuplicateKey? && Curable(ident, outcome.error.key) {
        ScreenedRefusesCollision(users, session, ident, attempt + 1, fuel - 1);
        assert ResolveScreened(users, session, ident, attempt, fuel)
            == ResolveScreened(users, session, ident, attempt + 1, fuel - 1);
      }
    }
  }

  /** So, with a budget larger than the store, the collision is raised. */
  lemma ScreenedRaisesCollision(users: seq<User>, session: User, ident: Identity, fuel: nat)
    requires Invariant(users) && fuel > |users|
    requires HolderIndex(users, ident).None?
    requires !KeysFree(users, FirstLogin(session, ident, BaseUsername(ident)))
    ensures ResolveScreened(users, session, ident, 0, fuel).result.Err?
    ensures ResolveScreened(users, session, ident, 0, fuel).result.error.Raised?
  {
    ScreenedRefusesCollision(users, session, ident, 0, fuel);
    ScreenedNeverExhausted(users, session, ident, fuel);
  }

  // ---------------------------------------------------------------------------
  // Anonymity after a first login. The resolvers write the provider id and fields
  // but no `*_profile_data`, which is all `is_authenticated` looks at besides
  // the password.

  /** A first login keeps an anonymous session's user anonymous, although the
      record now holds the identity. */
  lemma FirstLoginStaysAnonymous(session: User, ident: Identity, username: string)
    requires IsAnonymous(session)
    ensures Holds(FirstLogin(session, ident, username), ident)
    ensures IsAnonymous(FirstLogin(session, ident, username))
  {
  }

  /** A guest (or any anonymous session user) that logs in with a provider for the
      first time is returned holding the identity and still anonymous, so the
      caller's check that the returned user is authenticated fails. */
  lemma GuestFirstLoginAnonymous(users: seq<User>, session: User, ident: Identity, fuel: nat)
    requires IsAnonymous(session) && HolderIndex(users, ident).None?
    requires Resolve(users, session, ident, 0, fuel).result.Ok?
    ensures var u := Resolve(users, session, ident, 0, fuel).result.value;
            Holds(u, ident) && IsAnonymous(u)
  {
    var k := FirstLoginResult(users, session, ident, fuel);
    FirstLoginStaysAnonymous(session, ident, Candidate(BaseUsername(ident), k));
  }

  /** Under the intended reading every user a resolver returns is authenticated,
      among other requests or not. */
  lemma ResolvedIsAuthenticated(users: seq<User>, session: User, ident: Identity,
                                others: seq<Option<User>>, fuel: nat)
    ensures var res := Race(users, session, ident, others, 0, fuel);
            res.result.Ok? ==> IsAuthenticatedIntended(res.result.value)
  {
    if Race(users, session, ident, others, 0, fuel).result.Ok? {
      var n := RaceAccepted(users, session, ident, others, fuel);
      IntendedAuthentication(AttemptUser(After(users, others, n), session, ident, n));
    }
  }

  // ---------------------------------------------------------------------------
  // Losing the race: another request saves a holder between the lookup and the save.

  /** The record `Upsert` wrote is in the collection it returns. */
  lemma UpsertedAt(users: seq<User>, u: User) returns (k: nat)
    ensures k < |Upsert(users, u)| && Upsert(users, u)[k] == u
  {
    match IndexOfId(users, u.id)
    case Some(i) => k := i;
    case None => k := |users|;
  }

  /** In a consistent store the lookup finds the one record that holds the identity. */
  lemma HolderIndexAt(users: seq<User>, ident: Identity, k: nat)
    requires Invariant(users) && k < |users| && Holds(users[k], ident)
    ensures HolderIndex(users, ident) == Some(k)
  {
    var h := HolderIndex(users, ident);
    if h.Some? {
      HolderUnique(users, ident, h.value, k);
    }
  }

  /** A first-login record meets the provider-id index of another record that holds the
      same identity, so a save with a valid username is refused as a duplicate. */
  lemma HolderRefusesFirstLogin(seen: seq<User>, k: nat, u: User, ident: Identity)
    requires k < |seen| && Holds(seen[k], ident) && Holds(u, ident) && seen[k].id != u.id
    requires ValidUsername(u.username)
    ensures SaveOutcome(seen, u).Failed? && SaveOutcome(seen, u).error.DuplicateKey?
  {
    match ident
    case FacebookIdentity(_, _) => assert TakenBy(seen[k], u, FacebookIdKey);
    case TwitterIdentity(_, _) => assert TakenBy(seen[k], u, TwitterIdKey);
  }

  /** Another request's save that the store admits is in the collection the next
      attempt starts from. */
  lemma AfterAdmitted(users: seq<User>, others: seq<Option<User>>, n: nat, w: User)
    requires OtherAt(others, n) == Some(w) && SaveOutcome(After(users, others, n), w) == Saved
    ensures After(users, others, n + 1) == Upsert(After(users, others, n), w)
  {
    AfterStep(users, others, n);
  }

  /** Without a holder an attempt writes the session's user under its username. */
  lemma FirstAttemptFields(users: seq<User>, session: User, ident: Identity, attempt: nat)
    requires HolderIndex(users, ident).None?
    ensures var u := AttemptUser(users, session, ident, attempt);
            && u == FirstLogin(session, ident, Candidate(BaseUsername(ident), attempt))
            && Holds(u, ident) && u.id == session.id && u.username == Candidate(BaseUsername(ident), attempt)
  {
    FirstLoginFields(session, ident, Candidate(BaseUsername(ident), attempt));
  }

  /** The attempt that lost the race: the other request's holder is saved after this
      attempt's lookup, so its first-login record is refused as a duplicate. */
  lemma LostRaceRefused(users: seq<User>, session: User, ident: Identity, others: seq<Option<User>>,
                        attempt: nat, w: User)
    requires HolderIndex(After(users, others, attempt), ident).None?
    requires ValidUsername(Candidate(BaseUsername(ident), attempt))
    requires Holds(w, ident) && w.id != session.id
    requires After(users, others, attempt + 1) == Upsert(After(users, others, attempt), w)
    ensures Refused(RaceAnswers(users, session, ident, others), attempt)
  {
    var start := After(users, others, attempt);
    var seen := Upsert(start, w);
    var k := UpsertedAt(start, w);
    var u := AttemptUser(start, session, ident, attempt);
    FirstAttemptFields(start, session, ident, attempt);
    HolderRefusesFirstLogin(seen, k, u, ident);
    RaceAnswerIs(users, session, ident, others, attempt);
  }

  /** The attempt after it finds the other request's holder and re-saves it with the
      credential refreshed. */
  lemma LostRaceFound(users: seq<User>, session: User, ident: Identity, others: seq<Option<User>>,
                      attempt: nat, w: User)
    requires Invariant(users) && Holds(w, ident)
    requires After(users, others, attempt + 1) == Upsert(After(users, others, attempt), w)
    requires OtherAt(others, attempt + 1).None?
    ensures var seen := Upsert(After(users, others, attempt), w);
            && RaceAttempts(users, session, ident, others)(attempt + 1) == Refreshed(w, ident)
            && RaceAnswers(users, session, ident, others)(attempt + 1) == Saved
            && RaceCommits(users, session, ident, others)(attempt + 1) == Upsert(seen, Refreshed(w, ident))
  {
    var seen := Upsert(After(users, others, attempt), w);
    AfterStep(users, others, attempt + 1);
    AfterKeepsInvariant(users, others, attempt + 1);
    var k := UpsertedAt(After(users, others, attempt), w);
    var v := Refreshed(w, ident);
    HolderIndexAt(seen, ident, k);
    assert AttemptUser(seen, session, ident, attempt + 1) == v;
    RefreshedKeepsAccount(w, ident);
    ResaveStored(seen, k, v);
    RaceAttemptIs(users, session, ident, others, attempt + 1);
    RaceAnswerIs(users, session, ident, others, attempt + 1);
    RaceCommitIs(users, session, ident, others, attempt + 1);
  }

  /** The interleaving the retry loop exists for (the duplicate is caught and the
      identity looked up again): attempt `attempt` finds no holder, another request
      saves a record `w` holding the identity before this attempt's save, this save is
      refused as a duplicate, and the next attempt finds `w` and returns it with only
      the credential refreshed, without creating a second account. */
  lemma LostRaceRelogin(users: seq<User>, session: User, ident: Identity, others: seq<Option<User>>,
                        attempt: nat, fuel: nat, w: User)
    requires Invariant(users) && fuel >= 2
    requires HolderIndex(After(users, others, attempt), ident).None?
    requires ValidUsername(Candidate(BaseUsername(ident), attempt))
    requires OtherAt(others, attempt) == Some(w) && Holds(w, ident) && w.id != session.id
    requires SaveOutcome(After(users, others, attempt), w) == Saved
    requires OtherAt(others, attempt + 1).None?
    ensures var seen := Upsert(After(users, others, attempt), w);
            var v := Refreshed(w, ident);
            && Race(users, session, ident, others, attempt, fuel) == Resolution(Ok(v), Upsert(seen, v))
            && SameKeys(w, v)
  {
    AfterAdmitted(users, others, attempt, w);
    LostRaceRefused(users, session, ident, others, attempt, w);
    LostRaceFound(users, session, ident, others, attempt, w);
    RefreshedKeepsAccount(w, ident);
    RetryRefusedThenAccepted(RaceAttempts(users, session, ident, others), RaceAnswers(users, session, ident, others),
                             RaceCommits(users, session, ident, others), States(users, others), attempt, fuel);
  }

  // ---------------------------------------------------------------------------
  // MongoEngineBackend.authenticate.

  /** The first record (natural order) whose username matches `username__iexact`,
      returned only when the password is non-empty and checks. */
  function PasswordAuthenticate(users: seq<User>, username: string, password: string): (r: Option<User>)
    ensures password == "" ==> r.None?
    ensures r.Some? ==> && password != "" && CheckPassword(r.value, password)
                        && exists i :: && 0 <= i < |users| && users[i] == r.value
                                        && MatchesIExact(users[i].username, username)
                                        && forall j :: 0 <= j < i ==> !MatchesIExact(users[j].username, username)
    ensures r.None? && password != "" ==>
              forall i :: 0 <= i < |users| && MatchesIExact(users[i].username, username) && CheckPassword(users[i], password)
                ==> exists j :: 0 <= j < i && MatchesIExact(users[j].username, username)
  {
    match FirstIndex(users, (u: User) => MatchesIExact(u.username, username))
    case None => None
    case Some(i) => if password != "" && CheckPassword(users[i], password) then Some(users[i]) else None
  }

  /** A record with a usable password logs in with it, by its own username in any case,
      as long as no earlier record's username matches the typed one. */
  lemma PasswordLogin(users: seq<User>, i: nat, typed: string, password: string)
    requires i < |users| && password != "" && users[i].password == Hashed(password)
    requires MatchesIExact(users[i].username, typed)
    requires forall j :: 0 <= j < i ==> !MatchesIExact(users[j].username, typed)
    ensures PasswordAuthenticate(users, typed, password) == Some(users[i])
  {
    var first := FirstIndex(users, (u: User) => MatchesIExact(u.username, typed));
    assert first == Some(i);
  }

  /** A stored username with a final newline, which the username rule admits, is found
      by the name typed without it. */
  lemma NewlineUsernameLogsIn(u: User)
    requires u.username == "alice\n" && u.password == Hashed("pw")
    ensures ValidUsername(u.username) && !EqualsIgnoringCase(u.username, "alice")
    ensures PasswordAuthenticate([u], "alice", "pw") == Some(u)
  {
    TrailingNewlineAccepted();
    ValidUsernameChars(u.username);
    assert |Lower(u.username)| != |Lower("alice")|;
    assert Lower("alice\n") == Lower("alice" + "\n");
    PasswordLogin([u], 0, "alice", "pw");
  }

  // ---------------------------------------------------------------------------
  // GoogleBackend.authenticate (get_or_create, then store the token).

  datatype GoogleUser = GoogleUser(
    id: string, givenName: string, familyName: string, email: string,
    gender: string, link: string, picture: string)

  function GoogleHolderIndex(users: seq<User>, g: GoogleUser): (r: Option<nat>)
    ensures r.Some? ==> r.value < |users| && users[r.value].googleId == Some(g.id)
    ensures r.None? ==> forall j :: 0 <= j < |users| ==> users[j].googleId != Some(g.id)
  {
    FirstIndex(users, (u: User) => u.googleId == Some(g.id))
  }

  /** The document `get_or_create` builds from the query and the defaults. */
  function GoogleCreated(id: UserId, g: GoogleUser): User {
    NewUser(id, g.givenName + g.familyName).(
      googleId := Some(g.id), firstName := g.givenName, lastName := g.familyName,
      email := g.email, gender := g.gender, googleLink := g.link, googlePictureUrl := g.picture)
  }

  function GoogleResolve(users: seq<User>, freshId: UserId, g: GoogleUser, token: string): Resolution {
    match GoogleHolderIndex(users, g)
    case Some(i) =>
      var u := users[i].(googleToken := Some(token));
      (match SaveOutcome(users, u)
       case Saved => Resolution(Ok(u), Upsert(users, u))
       case Failed(e) => Resolution(Err(Raised(e)), users))
    case None =>
      var created := GoogleCreated(freshId, g);
      match SaveOutcome(users, created)
      case Failed(e) => Resolution(Err(Raised(e)), users)
      case Saved =>
        var stored := Upsert(users, created);
        var u := created.(googleToken := Some(token));
        match SaveOutcome(stored, u)
        case Saved => Resolution(Ok(u), Upsert(stored, u))
        case Failed(e) => Resolution(Err(Raised(e)), stored)
  }

  method GoogleAuthenticate(store: Store, g: GoogleUser, token: string) returns (r: Result<User, AuthError>)
    requires store.Valid()
    modifies store
    ensures store.Valid()
    ensures var res := GoogleResolve(old(store.users), old(store.FreshId()), g, token);
            r == res.result && store.users == res.users
  {
    var user;
    var holder := GoogleHolderIndex(store.users, g);
    if holder.Some? {
      user := store.users[holder.value];
    } else {
      user := GoogleCreated(store.FreshId(), g);
      var created := store.Save(user);
      if created.Failed? {
        return Err(Raised(created.error));
      }
    }
    user := user.(googleToken := Some(token));
    var saved := store.Save(user);
    if saved.Failed? {
      return Err(Raised(saved.error));
    }
    r := Ok(user);
  }

  /** Google either returns the account holding the id with the token stored, or
      creates one new record; a failed creation is raised at once (no username retry)
      and changes nothing. */
  lemma GoogleOutcome(users: seq<User>, freshId: UserId, g: GoogleUser, token: string)
    requires Invariant(users)
    requires forall j :: 0 <= j < |users| ==> users[j].id != freshId
    ensures var res := GoogleResolve(users, freshId, g, token);
            res.result.Ok? ==> res.result.value.googleId == Some(g.id) && res.result.value.googleToken == Some(token)
    ensures GoogleHolderIndex(users, g).Some? ==>
              var i := GoogleHolderIndex(users, g).value;
              var u := users[i].(googleToken := Some(token));
              GoogleResolve(users, freshId, g, token) == Resolution(Ok(u), users[i := u])
    ensures var res := GoogleResolve(users, freshId, g, token);
            GoogleHolderIndex(users, g).None? && res.result.Ok? ==>
              res.result.value == GoogleCreated(freshId, g).(googleToken := Some(token)) && res.users == users + [res.result.value]
    ensures var res := GoogleResolve(users, freshId, g, token);
            res.result.Err? ==>
              res.users == users && res.result.error == Raised(SaveOutcome(users, GoogleCreated(freshId, g)).error)
  {
    match GoogleHolderIndex(users, g)
    case Some(i) =>
      var u := users[i].(googleToken := Some(token));
      ResaveStored(users, i, u);
    case None =>
      var created := GoogleCreated(freshId, g);
      if SaveOutcome(users, created) == Saved {
        var stored := Upsert(users, created);
        UpsertKeepsInvariant(users, created);
        assert stored == users + [created];
        var u := created.(googleToken := Some(token));
        assert stored[|users|] == created;
        ResaveStored(stored, |users|, u);
        assert Upsert(stored, u) == users + [u];
      }
  }

  // ---------------------------------------------------------------------------
  // LazyUserBackend.authenticate: guest accounts from caller-supplied random suffixes.

  predicate ValidGuestSuffix(s: string) {
    |s| == GuestSuffixLength && forall k :: 0 <= k < |s| ==> IsAlphanumeric(s[k])
  }

  function GuestUsername(suffix: string): string {
    LazyUserUsernamePrefix + suffix
  }

  /** A guest username is always acceptable to validation. */
  lemma GuestUsernameValid(suffix: string)
    requires ValidGuestSuffix(suffix)
    ensures ValidUsername(GuestUsername(suffix)) && |GuestUsername(suffix)| == 12
  {
    var name := GuestUsername(suffix);
    forall k | 0 <= k < |name| ensures IsUsernameChar(name[k]) {
      if k >= |LazyUserUsernamePrefix| {
        assert name[k] == suffix[k - |LazyUserUsernamePrefix|];
      }
    }
  }

  /** Try the candidates in order; retry only on a duplicate username. */
  function LazyResolve(users: seq<User>, freshId: UserId, candidates: seq<string>): Resolution
    decreases |candidates|
  {
    if |candidates| == 0 then Resolution(Err(RetriesExhausted), users)
    else
      var u := NewUser(freshId, GuestUsername(candidates[0]));
      match SaveOutcome(users, u)
      case Saved => Resolution(Ok(u), Upsert(users, u))
      case Failed(DuplicateKey(UsernameKey)) => LazyResolve(users, freshId, candidates[1..])
      case Failed(e) => Resolution(Err(Raised(e)), users)
  }

  method LazyAuthenticate(store: Store, candidates: seq<string>) returns (r: Result<User, AuthError>)
    requires store.Valid()
    requires forall k :: 0 <= k < |candidates| ==> ValidGuestSuffix(candidates[k])
    modifies store
    ensures store.Valid()
    ensures var res := LazyResolve(old(store.users), old(store.FreshId()), candidates);
            r == res.result && store.users == res.users
  {
    var k := 0;
    while k < |candidates|
      invariant 0 <= k <= |candidates|
      invariant store.Valid() && store.users == old(store.users) && store.nextId == old(store.nextId)
      invariant LazyResolve(old(store.users), old(store.FreshId()), candidates)
                == LazyResolve(store.users, store.FreshId(), candidates[k..])
    {
      var username := GuestUsername(candidates[k]);
      var user := NewUser(store.FreshId(), username);
      assert candidates[k..][0] == candidates[k] && candidates[k..][1..] == candidates[k + 1..];
      var saved := store.Save(user);
      if saved.Saved? {
        return Ok(user);
      }
      if saved.error != DuplicateKey(UsernameKey) {
        return Err(Raised(saved.error));
      }
      k := k + 1;
    }
    r := Err(RetriesExhausted);
  }

  /** A guest account is a new, anonymous, lazily named record whose username is the
      guest prefix and one of the candidates, all earlier candidates being taken; the
      allocator never raises. */
  lemma {:induction false} LazyOutcome(users: seq<User>, freshId: UserId, candidates: seq<string>) returns (k: nat)
    requires forall j :: 0 <= j < |users| ==> users[j].id != freshId
    requires forall j :: 0 <= j < |candidates| ==> ValidGuestSuffix(candidates[j])
    requires LazyResolve(users, freshId, candidates).result.Ok?
    ensures k < |candidates|
    ensures var u := LazyResolve(users, freshId, candidates).result.value;
            && u == NewUser(freshId, GuestUsername(candidates[k]))
            && u.username[..|LazyUserUsernamePrefix|] == LazyUserUsernamePrefix
            && |u.username| == |LazyUserUsernamePrefix| + GuestSuffixLength
            && u.lazyuserUsername && IsAnonymous(u)
            && LazyResolve(users, freshId, candidates).users == users + [u]
    ensures forall j :: 0 <= j < k ==> SaveOutcome(users, NewUser(freshId, GuestUsername(candidates[j]))) == Failed(DuplicateKey(UsernameKey))
    decreases |candidates|
  {
    var u := NewUser(freshId, GuestUsername(candidates[0]));
    if SaveOutcome(users, u) == Saved {
      k := 0;
    } else {
      var k' := LazyOutcome(users, freshId, candidates[1..]);
      k := k' + 1;
    }
  }

  lemma {:induction false} LazyNeverRaises(users: seq<User>, freshId: UserId, candidates: seq<string>)
    requires forall j :: 0 <= j < |candidates| ==> ValidGuestSuffix(candidates[j])
    ensures LazyResolve(users, freshId, candidates).result.Err? ==>
              && LazyResolve(users, freshId, candidates) == Resolution(Err(RetriesExhausted), users)
              && forall j :: 0 <= j < |candidates| ==> GuestUsername(candidates[j]) in Elements(UsernamesOf(users))
    decreases |candidates|
  {
    if |candidates| > 0 {
      var u := NewUser(freshId, GuestUsername(candidates[0]));
      GuestUsernameValid(candidates[0]);
      LazyNeverRaises(users, freshId, candidates[1..]);
      if LazyResolve(users, freshId, candidates).result.Err? {
        assert SaveOutcome(users, u) == Failed(DuplicateKey(UsernameKey));
        assert LazyResolve(users, freshId, candidates) == LazyResolve(users, freshId, candidates[1..]);
        var j :| 0 <= j < |users| && TakenBy(users[j], u, UsernameKey);
        assert UsernamesOf(users)[j] == u.username;
        forall j | 0 <= j < |candidates| ensures GuestUsername(candidates[j]) in Elements(UsernamesOf(users)) {
          if j > 0 {
            assert candidates[j] == candidates[1..][j - 1];
          }
        }
      }
    }
  }

  /** More distinct candidates than records always yield a guest account. */
  lemma LazyTerminates(users: seq<User>, freshId: UserId, candidates: seq<string>)
    requires forall j :: 0 <= j < |candidates| ==> ValidGuestSuffix(candidates[j])
    requires Distinct(candidates) && |candidates| > |users|
    ensures LazyResolve(users, freshId, candidates).result.Ok?
  {
    LazyNeverRaises(users, freshId, candidates);
    if LazyResolve(users, freshId, candidates).result.Err? {
      var names := seq(|candidates|, j requires 0 <= j < |candidates| => GuestUsername(candidates[j]));
      forall a, b | 0 <= a < b < |candidates| ensures names[a] != names[b] {
        assert candidates[a] == names[a][|LazyUserUsernamePrefix|..];
        assert candidates[b] == names[b][|LazyUserUsernamePrefix|..];
      }
      Pigeonhole(names, Elements(UsernamesOf(users)));
      ElementsCountAtMost(UsernamesOf(users));
    }
  }

  // ---------------------------------------------------------------------------
  // facebookLink / twitterLink: delete any other holder, then attach to the session.

  /** The provider fields the linkers write onto the session's user. */
  function Attached(session: User, ident: Identity): User {
    match ident
    case FacebookIdentity(fb, token) =>
      session.(facebookId := Some(fb.id), facebookToken := Some(token), facebookLink := fb.link)
    case TwitterIdentity(tw, token) =>
      session.(twitterId := Some(tw.id), twitterTokenKey := Some(token.key),
               twitterTokenSecret := Some(token.secret), twitterLink := TwitterProfileLink(tw.screenName))
  }

  /** The collection once the identity's holder, if any, has been deleted. */
  function LinkRemaining(users: seq<User>, ident: Identity): seq<User> {
    match HolderIndex(users, ident)
    case Some(i) => RemoveId(users, users[i].id)
    case None => users
  }

  function LinkResolve(users: seq<User>, session: User, ident: Identity): Resolution {
    var remaining := LinkRemaining(users, ident);
    var u := Attached(session, ident);
    match SaveOutcome(remaining, u)
    case Saved => Resolution(Ok(u), Upsert(remaining, u))
    case Failed(e) => Resolution(Err(Raised(e)), remaining)
  }

  method Link(store: Store, session: User, ident: Identity) returns (r: Result<User, AuthError>)
    requires store.Valid()
    modifies store
    ensures store.Valid()
    ensures var res := LinkResolve(old(store.users), session, ident);
            r == res.result && store.users == res.users
  {
    var holder := HolderIndex(store.users, ident);
    if holder.Some? {
      store.Delete(store.users[holder.value].id);
    }
    var user := Attached(session, ident);
    var saved := store.Save(user);
    if saved.Failed? {
      return Err(Raised(saved.error));
    }
    r := Ok(user);
  }

  method FacebookLink(store: Store, session: User, fb: FacebookProfile, accessToken: string)
    returns (r: Result<User, AuthError>)
    requires store.Valid()
    modifies store
    ensures store.Valid()
    ensures var res := LinkResolve(old(store.users), session, FacebookIdentity(fb, accessToken));
            r == res.result && store.users == res.users
  {
    r := Link(store, session, FacebookIdentity(fb, accessToken));
  }

  method TwitterLink(store: Store, session: User, tw: TwitterUser, token: TwitterAccessToken)
    returns (r: Result<User, AuthError>)
    requires store.Valid()
    modifies store
    ensures store.Valid()
    ensures var res := LinkResolve(old(store.users), session, TwitterIdentity(tw, token));
            r == res.result && store.users == res.users
  {
    r := Link(store, session, TwitterIdentity(tw, token));
  }

  /** In a consistent store at most one record holds an identity. */
  lemma HolderUnique(users: seq<User>, ident: Identity, a: nat, b: nat)
    requires Invariant(users) && a < |users| && b < |users|
    requires Holds(users[a], ident) && Holds(users[b], ident)
    ensures a == b
  {
    if a != b {
      assert Admissible(users, users[a]);
      var key := if ident.FacebookIdentity? then FacebookIdKey else TwitterIdKey;
      assert TakenBy(users[b], users[a], key);
    }
  }

  /** Dropping the holder at index `i` leaves a consistent store in which no record
      holds the identity or has the holder's id, and which keeps every other record. */
  lemma WithoutHolder(users: seq<User>, ident: Identity, i: nat)
    requires Invariant(users) && i < |users| && Holds(users[i], ident)
    ensures Invariant(users[..i] + users[i + 1..])
    ensures var r := users[..i] + users[i + 1..];
            forall k :: 0 <= k < |r| ==> !Holds(r[k], ident) && r[k].id != users[i].id
    ensures forall j :: 0 <= j < |users| && j != i ==> users[j] in users[..i] + users[i + 1..]
  {
    RemoveAtKeepsInvariant(users, i);
    var r := users[..i] + users[i + 1..];
    forall k | 0 <= k < |r| ensures r[k] == users[if k < i then k else k + 1] {
    }
    forall k | 0 <= k < |r| ensures !Holds(r[k], ident) && r[k].id != users[i].id {
      var n := if k < i then k else k + 1;
      if Holds(users[n], ident) {
        HolderUnique(users, ident, n, i);
      }
    }
    forall j | 0 <= j < |users| && j != i ensures users[j] in r {
      if j < i {
        assert r[j] == users[j];
      } else {
        assert r[j - 1] == users[j];
      }
    }
  }

  /** Deleting the holder leaves a consistent store without any holder, keeps every
      other record, and removes the holder's id. */
  lemma LinkRemainingFacts(users: seq<User>, ident: Identity)
    requires Invariant(users)
    ensures Invariant(LinkRemaining(users, ident))
    ensures var r := LinkRemaining(users, ident);
            forall k :: 0 <= k < |r| ==> !Holds(r[k], ident)
    ensures var r := LinkRemaining(users, ident);
            forall j :: 0 <= j < |users| && !Holds(users[j], ident) ==> users[j] in r
    ensures var r := LinkRemaining(users, ident);
            forall j :: 0 <= j < |users| && Holds(users[j], ident) ==> IndexOfId(r, users[j].id).None?
  {
    match HolderIndex(users, ident)
    case None =>
    case Some(i) =>
      IndexOfIdUnique(users, i);
      WithoutHolder(users, ident, i);
      var r := LinkRemaining(users, ident);
      forall j | 0 <= j < |users| && Holds(users[j], ident) ensures IndexOfId(r, users[j].id).None? {
        HolderUnique(users, ident, i, j);
      }
  }

  /** Saving a holder of the identity into a store without any holder makes it the
      only one, and keeps every record with another id. */
  lemma UpsertSoleHolder(remaining: seq<User>, u: User, ident: Identity)
    requires DistinctIds(remaining) && Holds(u, ident)
    requires forall k :: 0 <= k < |remaining| ==> !Holds(remaining[k], ident)
    ensures var r := Upsert(remaining, u);
            forall k :: 0 <= k < |r| ==> (Holds(r[k], ident) <==> r[k].id == u.id)
    ensures forall n :: 0 <= n < |remaining| && remaining[n].id != u.id ==> remaining[n] in Upsert(remaining, u)
    ensures forall id :: id != u.id && IndexOfId(remaining, id).None? ==> IndexOfId(Upsert(remaining, u), id).None?
  {
    var r := Upsert(remaining, u);
    forall k | 0 <= k < |r| ensures (Holds(r[k], ident) <==> r[k].id == u.id) && (r[k].id == u.id || r[k] in remaining) {
      var n := UpsertOrigin(remaining, u, k);
    }
    forall n | 0 <= n < |remaining| && remaining[n].id != u.id ensures remaining[n] in r {
      assert r[n] == remaining[n];
    }
  }

  /** After a link, the session's account is the only holder of the identity; a prior
      holder with another id is gone, every other record is kept. If the final save
      fails, the prior holder has still been deleted. */
  lemma LinkOutcome(users: seq<User>, session: User, ident: Identity)
    requires Invariant(users)
    ensures var res := LinkResolve(users, session, ident);
            res.result.Ok? ==> && res.result.value == Attached(session, ident)
                               && forall k :: 0 <= k < |res.users| ==> (Holds(res.users[k], ident) <==> res.users[k].id == session.id)
    ensures var res := LinkResolve(users, session, ident);
            forall j :: 0 <= j < |users| && Holds(users[j], ident) && users[j].id != session.id ==>
              IndexOfId(res.users, users[j].id).None?
    ensures var res := LinkResolve(users, session, ident);
            forall j :: 0 <= j < |users| && !Holds(users[j], ident) && users[j].id != session.id ==>
              users[j] in res.users
  {
    var remaining := LinkRemaining(users, ident);
    LinkRemainingFacts(users, ident);
    var u := Attached(session, ident);
    if SaveOutcome(remaining, u) == Saved {
      assert Holds(u, ident);
      UpsertSoleHolder(remaining, u, ident);
      var r := Upsert(remaining, u);
      assert LinkResolve(users, session, ident) == Resolution(Ok(u), r);
      forall j | 0 <= j < |users| && Holds(users[j], ident) && users[j].id != session.id
        ensures IndexOfId(r, users[j].id).None?
      {
      }
      forall j | 0 <= j < |users| && !Holds(users[j], ident) && users[j].id != session.id
        ensures users[j] in r
      {
        var n :| 0 <= n < |remaining| && remaining[n] == users[j];
      }
    }
  }
}
