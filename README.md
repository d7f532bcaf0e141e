# PiplMesh account reconciliation, modelled in Dafny

This project models the account code of PiplMesh (`piplmesh/account/`). That code decides how these become one stored `User` document:

- a third-party identity from Facebook, Twitter or Google;
- a username and password;
- the session's lazily created guest user.

The `User` collection is a class `Store.Store`. It holds the documents in natural (insertion) order, plus the next free id.

- `save()` is an upsert by id.
- It validates the username, and only the username: 4 to 30 characters matching `^[\w.@+-]+$`. Python's `$` also matches just before a final newline, so one trailing `\n` is admitted and counted in the length.
- It then checks the unique indexes in this order: username, `facebook_id`, `twitter_id`, `google_id`. The username index comes from the inherited `User` document. The three provider-id indexes, unique and sparse, are an assumption of the model: `models.py` declares neither these fields nor any index on them.
- It answers `Saved`, `Failed(ValidationError)` or `Failed(DuplicateKey(key))`.
- The collection invariant: ids are distinct and every stored document is admissible against the others. Every write is proved to keep it.

Modules follow the three source files:

- `Common` holds shared helpers:
  - Python's `str(n)` for naturals, proved injective;
  - ASCII character classes and case folding;
  - a pigeonhole lemma.
- `Models` covers `models.py`:
  - the `User` record with its declared defaults;
  - `is_authenticated` / `is_anonymous`;
  - the avatar-source choice of `get_image_url`;
  - `get_twitter_link`;
  - the username rule.
- `Store` models the collection together with `create_user` and `set_unusable_password`.
- `Backends` covers `backends.py`:
  - the password backend;
  - the Facebook, Twitter and Google find-or-create resolvers;
  - the guest-account allocator;
  - the two account linkers.
- `Views` covers `views.py`:
  - the Facebook callback's link-conflict decision and the form that applies it;
  - the unlink views;
  - registration of the lazy session user;
  - the `set_language` redirect target;
  - the push-channel subscribe and unsubscribe handlers.

**How the Facebook and Twitter loops are modelled.**

- The two `while True` loops have the same shape, so they are one method, `Backends.ResolveIdentity`, over an `Identity` value that names the provider.
- Each pass looks up the holder of the provider id. If there is one, its credential is refreshed. Otherwise the provider fields and the candidate username go onto the session's user. Then the pass saves.
- Any duplicate-key error moves on to `base + str(i)`. Any other error propagates.
- The loop's control is the generic recursive function `Backends.Retry`, over four functions of the attempt number: the record an attempt saves, the answer its save gets, the collection an accepted save leaves, and the collection an attempt starts from.
- Other requests may write while the loop runs. The method takes `others`: for each attempt, the save another request makes between that attempt's lookup and its own save, if any. The method's specification is `Backends.Race`, the instance of `Retry` over the collections those saves leave. This is how the loop's reason to exist becomes reachable: a request that loses the race to create the account has its save refused on the provider-id index, and the next pass finds the other request's record (`Backends.LostRaceRelogin`).
- `Backends.Resolve` is the instance of `Retry` on a collection no one else writes. `Backends.RaceQuiet` proves that `Race` with no other writes is `Resolve`. The pigeonhole and termination facts are proved for `Resolve`.
- The source loops have no bound. The model gives them an attempt budget, and proves that a budget larger than the store is never used up when no one else writes and either the identity already has a holder or no other record holds a provider id of the session's user (`Backends.StoredSessionKeysFree`: true whenever the session's user is the stored document itself). When another record does hold one, the loop never logs in (`Backends.ForeignIdNeverLogsIn`); see Findings. That case arises only because the model's save writes the whole record (`Store.Store.Save` under Left out).

**The model follows the code as written, also where it does not do what it appears meant to:**

- `process_channel_unsubscribe` removes one matching connection (unset, then pull the nulls). It does not clear all connections.
- `views.py` calls `authenticate(facebook_access_token=...)`. That keyword matches no backend's parameter, so those calls are modelled as outcomes (`Reauthenticate`, `LinkDirectly`, `LogIn`) that carry the token. The model does not send them to the Facebook backend.
- `backends.py` reads and writes database fields that the `User` document in `models.py` does not declare (`facebook_id`, `facebook_token`, `twitter_id`, `google_id`, ...). The record carries both sets of fields, and the unique sparse indexes on the three provider ids are assumed.
- Each operation uses the fields it actually touches.

## Model

| member | source | states |
|---|---|---|
| Common.NatToString | piplmesh/account/backends.py:83-87 | `str(i)` gives a non-empty string of decimal digits with no leading zero |
| Common.NatToStringInjective | piplmesh/account/backends.py:83-87 | different counters give different suffixes, so no retried username repeats |
| Common.Lower | piplmesh/account/backends.py:26 | case folding keeps the length and folds each character |
| Common.Pigeonhole | piplmesh/account/backends.py:62-89 | n distinct names that all lie in a set of m names force n <= m |
| Models.SetPassword | piplmesh/account/models.py:84-95 | the password is usable exactly when a non-empty one was given, and then exactly that password checks; `None` and the empty password give the unusable marker; no other field changes |
| Models.IsAnonymous | piplmesh/account/models.py:77-82 | anonymous iff there is no usable password and all four provider data dictionaries are empty, i.e. exactly the negation of `is_authenticated` |
| Models.ImageSource | piplmesh/account/models.py:103-132 | each avatar source is chosen exactly under its condition: Twitter needs `profile_image_url`, Facebook needs only the choice, Foursquare needs `photo`, Google needs `picture`; otherwise Gravatar when there is an e-mail, else the default. The chosen source carries that provider's URL from the profile data (the Facebook one the record's `facebook_id`) |
| Models.SelectedProviderWithoutPictureFallsThrough | piplmesh/account/models.py:107-132 | a chosen provider whose data lacks its picture key falls through to Gravatar or the default picture |
| Models.TwitterProfileLink | piplmesh/account/models.py:100-101 | the link is the Twitter prefix followed by the name |
| Models.TwitterProfileLinkInjective | piplmesh/account/models.py:100-101 | the link determines the name it was built from |
| Models.GetTwitterLink | piplmesh/account/models.py:100-101 | `get_twitter_link` is the profile link of `twitter_name`, and of the text `None` when the field was never set |
| Models.NewUserTwitterLink | piplmesh/account/models.py:58-101 | a fresh document's Twitter link ends in `None`: the field has no default |
| Models.NewUser | piplmesh/account/models.py:35-68 | a new document has the given id and username, `lazyuser_username` true, `is_online` false, not staff, active, not superuser, no connections, no image choice and no `twitter_name`, and is anonymous |
| Models.ValidUsernameChars | piplmesh/account/models.py:18-43 | `ValidUsername` holds iff the length is 4 to 30 and every character is from `[\w.@+-]`, except that the last may be a newline |
| Models.TrailingNewlineAccepted | piplmesh/account/models.py:18-39 | `abc` followed by a newline is a valid username, though not made of the class's characters alone |
| Models.IntendedAuthentication | piplmesh/account/models.py:80-82 | the corrected `is_authenticated` never counts an account with a provider id as anonymous, and agrees with the written one on accounts without a provider id |
| Store.SaveOutcome | piplmesh/account/models.py:18-43 | a save succeeds iff the username is valid and no other document holds the username or a provider id of the record; a validation error iff the username is invalid; a duplicate names a key that is taken |
| Store.FirstIndex | piplmesh/account/backends.py:26 | `.first()` returns the earliest matching document and reports none only when nothing matches |
| Store.GetOne | piplmesh/account/views.py:127-134 | `objects.get`: missing iff nothing matches, found means the only match, multiple means two matches |
| Store.IndexOfId | piplmesh/account/backends.py:205-210 | the document with a given id, or evidence that there is none |
| Store.IndexOfIdUnique | piplmesh/account/backends.py:205-210 | with distinct ids, the lookup by a stored document's id finds that document |
| Store.Upsert | piplmesh/account/backends.py:79-80 | saving replaces the document with the same id in place, or appends it; every other document is kept |
| Store.RemoveId | piplmesh/account/backends.py:205-210 | `delete()` drops exactly the document with that id, or changes nothing |
| Store.UpsertOrigin | piplmesh/account/backends.py:79-80 | each document after a save is either the saved one or an old one with another id |
| Store.UpsertRecordFree | piplmesh/account/models.py:36-43 | after an admitted save no document collides with another on any index |
| Store.UpsertKeepsInvariant | piplmesh/account/models.py:36-43 | an admitted save keeps ids distinct and every document admissible |
| Store.RemoveAtKeepsInvariant | piplmesh/account/backends.py:205-210 | dropping one document keeps the invariant |
| Store.RemoveIdKeepsInvariant | piplmesh/account/backends.py:205-210 | `delete()` keeps the invariant |
| Store.ResaveStored | piplmesh/account/backends.py:66-68 | re-saving a stored document whose indexed fields are unchanged always succeeds, in place |
| Store.UpsertTwice | piplmesh/account/views.py:268-271 | two saves of the same document in a row amount to the second save alone |
| Store.Store.constructor | piplmesh/account/models.py:35-68 | an empty collection satisfies the invariant |
| Store.Store.Save | piplmesh/account/models.py:36-43 | `save()` answers `SaveOutcome`, writes `Upsert` only when saved, and keeps the invariant |
| Store.Store.Delete | piplmesh/account/backends.py:205-210 | `delete()` leaves `RemoveId` of the collection and keeps the invariant |
| Store.Store.Update | piplmesh/account/views.py:595-617 | an atomic update of a stored document's non-indexed fields replaces it in place; an unknown id changes nothing |
| Store.Store.FreshId | piplmesh/account/models.py:139-150 | the id a new document gets is held by no stored document |
| Store.CreateUser | piplmesh/account/models.py:134-151 | an empty username raises; otherwise the new record carries the username and e-mail, is not staff, is active, is not superuser, has `last_login == date_joined == now`, has a usable password iff a non-empty one was given and then exactly that password checks, and is appended; a failed save changes nothing and reports the save's error |
| Store.SetUnusablePassword | piplmesh/account/models.py:89-92 | the record saved has the unusable marker and nothing else changed; a failed save changes nothing |
| Backends.Candidate | piplmesh/account/backends.py:59-61 | attempt 0 tries the base username, attempt n > 0 tries the base followed by `str(n)` |
| Backends.CandidateInjective | piplmesh/account/backends.py:83-87 | different attempts try different usernames, since the suffix goes onto the fresh base |
| Backends.HolderIndex | piplmesh/account/backends.py:64-65 | the lookup by provider id finds a holder of the identity or shows there is none |
| Backends.RefreshedKeepsAccount | piplmesh/account/backends.py:66-67 | `Refreshed` changes only the stored credential (Facebook token, or Twitter key and secret) and keeps the username, the id and the provider id |
| Backends.FirstLoginFields | piplmesh/account/backends.py:69-80 | a Facebook first login writes the id, the username, first and last name, e-mail, gender, link and token onto the session's user; a Twitter one writes the id, the username, the name, the token key and secret and the link `http://twitter.com/#!/` + screen name (backends.py:152-161) |
| Backends.AllRefusedAt | piplmesh/account/backends.py:62-89 | every attempt in a run of refusals was refused with a duplicate key |
| Backends.RetryAccepted | piplmesh/account/backends.py:62-89 | a loop that returns a user stopped at the first accepted attempt within the budget, after a run of duplicate-key refusals, and wrote that user |
| Backends.RetrySkip | piplmesh/account/backends.py:81-87 | a run of refused attempts can be skipped: the loop continues as if started after them |
| Backends.RetryAt | piplmesh/account/backends.py:62-89 | after refusals 0..n-1, attempt n ends the loop with the user if saved, raises a non-duplicate error, or extends the run of refusals |
| Backends.AllRefusedSnoc | piplmesh/account/backends.py:81-87 | a refused attempt extends the run of refusals |
| Backends.RetryExhausted | piplmesh/account/backends.py:62-89 | running out of attempts means every attempt of the budget was refused as a duplicate |
| Backends.RetryErrors | piplmesh/account/backends.py:88-89 | an error outcome leaves the collection some attempt started from, and a raised error is never a duplicate-key error |
| Backends.RetryAllRefused | piplmesh/account/backends.py:81-87 | a budget whose every attempt was refused ends in `RetriesExhausted` on the collection the next attempt would start from |
| Backends.RetryRefusedThenAccepted | piplmesh/account/backends.py:62-87 | a refused attempt followed by an accepted one returns the second attempt's record and its commit |
| Backends.RetryAcceptedFrom | piplmesh/account/backends.py:62-89 | a loop from the first attempt that returns a user returns the record and commit of an accepted attempt within the budget, every earlier attempt having been refused |
| Backends.RetryReturnsAttempt | piplmesh/account/backends.py:62-89 | a loop from the first attempt that returns a user returns some attempt's record and leaves that attempt's commit |
| Backends.RetryAgree | piplmesh/account/backends.py:62-89 | two loops whose attempts agree on every attempt of the budget end alike |
| Backends.Interleave | piplmesh/account/backends.py:63-80 | another request's save goes through `save()`: admitted, it upserts; refused, it leaves the collection |
| Backends.AfterKeepsInvariant | piplmesh/account/backends.py:63-80 | every collection the loop meets among other requests' saves keeps the store invariant |
| Backends.RaceAt | piplmesh/account/backends.py:62-89 | among other requests, after refusals 0..n-1 attempt n ends the loop with its record if saved, raises a non-duplicate error, or extends the refusals |
| Backends.RaceExhaustedAt | piplmesh/account/backends.py:62-89 | among other requests, a wholly refused budget ends in `RetriesExhausted` on what the other saves left |
| Backends.AfterQuiet | piplmesh/account/backends.py:62-89 | with no other writes every attempt starts from the collection the loop began with |
| Backends.RaceQuiet | piplmesh/account/backends.py:62-89 | with no other writes the loop is `Resolve` on the one collection |
| Backends.RaceDecided | piplmesh/account/backends.py:63-89 | what one pass saw decides the loop: saved returns that record with its commit, a non-duplicate error is raised, a duplicate extends the refusals |
| Backends.Attempt | piplmesh/account/backends.py:63-80 | one pass looks the identity up on the collection it finds, builds the refreshed holder or the first-login record, lets another request's save through, and saves its record into what that save left |
| Backends.ResolveIdentity | piplmesh/account/backends.py:59-91 | the loop, run among other requests' saves, returns exactly what `Race` says, with the new collection it says |
| Backends.FacebookAuthenticate | piplmesh/account/backends.py:47-91 | `FacebookBackend.authenticate` is the loop over the Facebook identity, among other requests' saves |
| Backends.TwitterAuthenticate | piplmesh/account/backends.py:135-172 | `TwitterBackend.authenticate` is the loop over the Twitter identity, among other requests' saves |
| Backends.AttemptHolds | piplmesh/account/backends.py:63-80 | every record an attempt saves holds the identity |
| Backends.RetryOnAnyDuplicate | piplmesh/account/backends.py:81-87 | among other requests, a duplicate on any index is retried alike: the loop goes on with the next attempt, which looks the identity up again on the collection as the other saves left it |
| Backends.RaceAccepted | piplmesh/account/backends.py:62-89 | among other requests, a returned user is the record of some attempt within the budget, holds the identity, and was saved into what that attempt's save met |
| Backends.RaceOutcomeErr | piplmesh/account/backends.py:88-89 | among other requests, an error leaves only the other requests' writes, and a raised error is never a duplicate |
| Backends.ReloginPath | piplmesh/account/backends.py:64-68 | when a holder exists, it is returned with only its credential refreshed, in place; no record is created and the username and id stay |
| Backends.ResolveOutcome | piplmesh/account/backends.py:62-91 | on a collection no one else writes, a returned user holds the identity and is what was written; an error leaves the collection unchanged; a raised error is not a duplicate |
| Backends.FirstLoginResult | piplmesh/account/backends.py:69-87 | without a holder, the result is the session's first-login record under the first accepted candidate, all earlier candidates having been refused |
| Backends.FirstLoginUsername | piplmesh/account/backends.py:59-87 | a first login ends with `BaseUsername` (the Facebook username, else first plus last name; the Twitter screen name) or that base followed by a decimal suffix, on the session's id |
| Backends.KeysFreeAnyUsername | piplmesh/account/backends.py:69-80 | whether the provider ids collide does not depend on the username tried |
| Backends.RejectedUsernameIsTaken | piplmesh/account/backends.py:81-87 | when provider ids are free, a refused candidate is a stored username |
| Backends.ExhaustionNeedsFullStore | piplmesh/account/backends.py:62-89 | when no other document holds a provider id of the session's user, a first login runs out of attempts only if the budget is at most the number of documents |
| Backends.StoredSessionKeysFree | piplmesh/account/backends.py:69-80 | when the session's user is a stored document, only the username can collide on a first login |
| Backends.ResolveNeverExhausted | piplmesh/account/backends.py:62-89 | a budget larger than the collection never runs out, when the identity has a holder or no other document holds a provider id of the session's user |
| Backends.KeysTakenAnyUsername | piplmesh/account/backends.py:69-80 | a provider id of the session's user that another document holds collides under every username |
| Backends.AllRefusedEach | piplmesh/account/backends.py:81-87 | attempts each refused as a duplicate form a run of refusals |
| Backends.ForeignIdRefused | piplmesh/account/backends.py:62-89 | with such a collision and no holder, every attempt whose username passes validation is refused as a duplicate |
| Backends.ForeignIdNeverLogsIn | piplmesh/account/backends.py:62-89 | with such a collision and no holder, the loop never returns a user, whatever its budget |
| Backends.ForeignIdExhausts | piplmesh/account/backends.py:62-89 | with such a collision and no holder, a budget of usernames that all pass validation is used up, and the collection is unchanged |
| Backends.ForeignIdEndsInValidation | piplmesh/account/backends.py:62-89 | with such a collision and no holder, the loop ends at the first username the rule rejects, with `ValidationError` |
| Backends.ScreenedAgreesFree | piplmesh/account/backends.py:62-89 | with no holder and no colliding provider id, the loop that retries only curable duplicates is the loop as written |
| Backends.ScreenedAgrees | piplmesh/account/backends.py:62-89 | on a consistent collection, with a holder or no colliding provider id, the screened loop is the loop as written |
| Backends.ScreenedExhaustedTaken | piplmesh/account/backends.py:62-89 | with no holder, every attempt of a used-up budget of the screened loop was refused on a username some document holds |
| Backends.ScreenedExhaustionNeedsFullStore | piplmesh/account/backends.py:62-89 | with no holder, the screened loop runs out of attempts only if the budget is at most the number of documents, whatever ids the session's user carries |
| Backends.ScreenedNeverExhausted | piplmesh/account/backends.py:62-89 | on a consistent collection, a budget larger than the collection never runs out for the screened loop, with no condition on the session's user |
| Backends.ScreenedRefusesCollision | piplmesh/account/backends.py:62-89 | with a colliding provider id and no holder, the screened loop never returns a user |
| Backends.ScreenedRaisesCollision | piplmesh/account/backends.py:62-89 | with a colliding provider id and no holder, a budget larger than the collection ends the screened loop with a raised error |
| Backends.FirstLoginStaysAnonymous | piplmesh/account/backends.py:69-80 | a first login gives an anonymous session's user the identity but leaves it anonymous |
| Backends.GuestFirstLoginAnonymous | piplmesh/account/backends.py:62-91 | an anonymous session user with no holder of the identity is returned holding it and still anonymous |
| Backends.ResolvedIsAuthenticated | piplmesh/account/backends.py:62-91 | every user the loop returns, among other requests or not, is authenticated under the corrected `is_authenticated` |
| Backends.HolderIndexAt | piplmesh/account/backends.py:64-65 | in a consistent collection the lookup finds the one holder of the identity |
| Backends.HolderRefusesFirstLogin | piplmesh/account/backends.py:79-81 | a first-login record with a valid username is refused as a duplicate by another holder of its identity |
| Backends.AfterAdmitted | piplmesh/account/backends.py:79-80 | another request's admitted save is in the collection the next attempt starts from |
| Backends.LostRaceRefused | piplmesh/account/backends.py:69-83 | the attempt that finds no holder but meets one saved meanwhile is refused as a duplicate |
| Backends.LostRaceFound | piplmesh/account/backends.py:62-68 | the next attempt finds the other request's holder, refreshes its credential and saves it in place |
| Backends.LostRaceRelogin | piplmesh/account/backends.py:62-87 | losing the race to create the account ends with the other request's record returned with only its credential refreshed, saved in place, and no second account |
| Backends.PasswordAuthenticate | piplmesh/account/backends.py:25-30 | a user is returned only for a non-empty password that checks, and it is the first document whose username matches `username__iexact`: equal ignoring case, or equal ignoring case once a final newline of the stored name is dropped; none otherwise |
| Backends.PasswordLogin | piplmesh/account/backends.py:25-30 | a document is found by its own username in any case and its password, when no earlier document matches |
| Backends.NewlineUsernameLogsIn | piplmesh/account/backends.py:25-30 | a stored username `alice` followed by a newline passes the username rule and logs in as `alice` |
| Backends.GoogleHolderIndex | piplmesh/account/backends.py:279-281 | the lookup finds a holder of the Google id or shows there is none |
| Backends.GoogleAuthenticate | piplmesh/account/backends.py:279-292 | `get_or_create` and the token save do what `GoogleResolve` says |
| Backends.GoogleOutcome | piplmesh/account/backends.py:279-292 | `GoogleResolve`: an existing holder gets the token in place; otherwise one record `GoogleCreated` with the Google fields is appended and then gets the token; a failed creation raises at once and changes nothing |
| Backends.GuestUsernameValid | piplmesh/account/backends.py:15 | a guest username is `guest-` plus six alphanumerics, 12 characters, and passes validation |
| Backends.LazyAuthenticate | piplmesh/account/backends.py:295-310 | the allocator loop does what `LazyResolve` says |
| Backends.LazyOutcome | piplmesh/account/backends.py:295-310 | `LazyResolve`: a guest account is a new anonymous record named `guest-` plus a candidate, appended; every earlier candidate was refused as a duplicate username |
| Backends.LazyNeverRaises | piplmesh/account/backends.py:303-308 | with valid candidates the allocator never raises; it can only run out, and then every candidate was a stored username |
| Backends.LazyTerminates | piplmesh/account/backends.py:295-310 | more distinct candidates than documents always yield a guest account |
| Backends.Link | piplmesh/account/backends.py:197-245 | a link deletes the identity's holder, then saves the session's user with the provider fields, as `LinkResolve` says |
| Backends.FacebookLink | piplmesh/account/backends.py:197-218 | `facebookLink` is the link over the Facebook identity |
| Backends.TwitterLink | piplmesh/account/backends.py:220-245 | `twitterLink` is the link over the Twitter identity |
| Backends.HolderUnique | piplmesh/account/backends.py:205-216 | in a consistent collection at most one document holds an identity |
| Backends.WithoutHolder | piplmesh/account/backends.py:205-210 | dropping the holder leaves a consistent collection with no holder, no document with its id, and every other document |
| Backends.LinkRemainingFacts | piplmesh/account/backends.py:205-210 | the deletion step keeps the invariant, leaves no holder, keeps every non-holder, and removes the holder's id |
| Backends.UpsertSoleHolder | piplmesh/account/backends.py:212-216 | saving a holder into a collection without one makes it the only holder and keeps every other document |
| Backends.LinkOutcome | piplmesh/account/backends.py:197-245 | `LinkResolve`: after a link the session's account is the only holder; a prior holder with another id is gone, even when the final save fails; every other document is kept |
| Views.FacebookOwner | piplmesh/account/views.py:127-134 | the owner lookup by returned Facebook id: none, exactly one, or several |
| Views.CallbackDecision | piplmesh/account/views.py:89-151 | each outcome happens exactly under its conditions: home iff no code; log in iff anonymous; already linked iff the stored id is the returned one; {nothing, unlink_and_overwrite} when linked elsewhere and owned; {nothing, overwrite} when linked elsewhere and unowned; {nothing, unlink} when unlinked and owned; link directly when unlinked and unowned; a crash on missing `id` or several owners |
| Views.ClearFacebook | piplmesh/account/views.py:73-83 | the Facebook token and data are cleared and the image choice is reset only if it was Facebook; every other field is unchanged |
| Views.ClearTwitter | piplmesh/account/views.py:260-272 | the Twitter token and data are cleared and the image choice is reset only if it was Twitter; every other field is unchanged |
| Views.ClearingIsIdempotentAndSeparate | piplmesh/account/views.py:162-173 | clearing twice is clearing once, and clearing one provider never unlinks the other |
| Views.ClearFacebookAuthentication | piplmesh/account/views.py:162-173 | after clearing Facebook the account stays authenticated iff it has a usable password or other provider data |
| Views.FormValid | piplmesh/account/views.py:66-87 | `nothing` changes nothing; `overwrite` changes nothing and re-authenticates; the unlink choices clear the single owner in place and re-authenticate, report a missing owner without changes, or crash on several owners |
| Views.FacebookUnlink | piplmesh/account/views.py:162-173 | anonymous: login required with nothing changed; not linked: nothing changed; linked: the cleared record is saved, or the save error is reported with nothing changed |
| Views.SecondSave | piplmesh/account/views.py:268-271 | after one successful save, a second save of a copy with the same indexed fields succeeds and the pair amounts to saving the copy alone |
| Views.TwitterUnlink | piplmesh/account/views.py:260-272 | the same for Twitter, over its two saves: the first decides the outcome and the second cannot fail |
| Views.Converted | piplmesh/account/views.py:389-398 | registration writes the form's username, first and last name, e-mail, gender and birthdate, sets `lazyuser_username` false and the form's password, which is usable and checks exactly when non-empty; every other field, the id, connections and provider ids included, is the session's |
| Views.Register | piplmesh/account/views.py:387-405 | the converted record is saved in place and then looked up by its new credentials; a failed save changes nothing |
| Views.RegistrationLogsIn | piplmesh/account/views.py:387-405 | with a non-empty password and no other username matching `username__iexact`, the lookup after registration returns the converted record, and a stored session keeps the collection's size |
| Views.NextTarget | piplmesh/account/views.py:580-584 | the redirect target is `next` when non-empty, else the referer when non-empty, else `/` |
| Views.FirstConnection | piplmesh/account/views.py:607-612 | the first connection equal to the given one in all three fields, or none |
| Views.Lift | piplmesh/account/views.py:612 | the connections as a null-able array, entry by entry |
| Views.CompactLift | piplmesh/account/views.py:614-615 | pulling nulls from an array without nulls gives it back |
| Views.CompactAppend | piplmesh/account/views.py:614-615 | pulling nulls distributes over concatenation |
| Views.CompactUnset | piplmesh/account/views.py:605-617 | `Compact` after unsetting entry i removes exactly entry i |
| Views.WithoutFirstRemovesOne | piplmesh/account/views.py:605-617 | `WithoutFirst` removes one occurrence and keeps every other entry with its multiplicity; with no match the list is unchanged |
| Views.SubscribeThenUnsubscribe | piplmesh/account/views.py:595-617 | subscribing a new connection and then unsubscribing it gives the list back |
| Views.WithConnection | piplmesh/account/views.py:595-603 | subscribe appends exactly one connection at the end, duplicates allowed, and nothing else changes |
| Views.WithoutConnection | piplmesh/account/views.py:605-617 | unsubscribe leaves the list without its first equal entry and stamps the time; nothing else changes |
| Views.Subscribe | piplmesh/account/views.py:595-603 | the stored record gets `WithConnection` in place; an unknown id changes nothing |
| Views.PullNulls | piplmesh/account/views.py:614-615 | `pull__connections=None` keeps the non-null entries in order |
| Views.Unsubscribe | piplmesh/account/views.py:605-617 | the stored record gets `WithoutConnection` in place, built by unset, pull and stamp; an unknown id changes nothing |

## Left out

- Network and OAuth exchanges (`getFacebookData`, tweepy, the Google token fetch) are left out. Their answers are parameters: a normalised profile and a token.
- Models.NewUser: `last_login` and `date_joined` are left unset. The inherited `User` document (mongoengine's, not part of this model) defaults both to the current time, so in the source a guest account (`Backends.LazyOutcome`) and a Google-created account (`Backends.GoogleOutcome`) carry timestamps where the model has none. `Store.CreateUser` sets both to the given time, as `create_user` does.
- Backends.BaseUsername: the Facebook profile is assumed to carry `id`, `first_name` and `last_name`. The source evaluates the default `fb.get('first_name') + fb.get('last_name')` (backends.py:59) even when `username` is present, so a profile without `first_name` or `last_name` raises `TypeError` there; the model has no such case.
- Django plumbing is left out: redirects, `messages`, forms, templates, `auth.login` and the session. Outcomes are datatype values instead.
- Password hashing is abstracted as an injective tag `Hashed(raw)`.
- Gravatar URL building (MD5, URL encoding, static files) is left out. Only the chosen source is modelled.
- Time and randomness are parameters:
  - `timezone.now()` is passed in;
  - the guest allocator takes a sequence of candidate six-character suffixes in place of `get_random_string`.
- Concurrency is modelled only for the Facebook and Twitter loops, and only as an interleaving: the other requests' writes are a given sequence of saves, at most one per attempt, each landing between that attempt's lookup and its own save. Deletes and updates by other requests, and several writes in one attempt, are not modelled. Every other operation runs on a collection no one else writes.
- Backends.ResolveNeverExhausted: the bound on the attempt budget is proved for runs with no other writes (`Resolve`, equal to `Race` with no other writes by `Backends.RaceQuiet`). It also needs a holder of the identity or no other record holding a provider id of the session's user (`Backends.StoredSessionKeysFree` shows this holds when the session's user is stored as is); without that the loop never logs in (Findings). Among other requests, each admitted save of another request can take a username, and no bound is stated.
- Store.Store.Save: the model writes the whole in-memory record and checks every unique index against it. mongoengine writes only the assigned fields of a document loaded from the database, with `$set`/`$unset` (`request.user` and every `objects.get` result are loaded), so a field the code did not assign, stale or not, is neither written nor checked there. The condition on `Backends.ExhaustionNeedsFullStore` and `Backends.ResolveNeverExhausted` (no other record holding a provider id of the session's user), and a lost update of a field another request wrote in between, come from this whole-record write.
- Store.SaveOutcome: only the username is validated. The other declared fields (the inherited `first_name`, `last_name` and `email`, `gender`'s field type, the birthdate limits) have validators declared in files not part of this model, so a save never fails on them.
- Store.CreateUser: `email` is taken as given. The `normalize_email` call and the `email or None` conversion (models.py:139-142) are left out.
- Whether username uniqueness ignores case is not visible in these files, so uniqueness is exact.
- Backends.ResolveIdentity: the source loops are unbounded; the model adds an attempt budget `maxAttempts` that ends in `RetriesExhausted`, and proves that a budget larger than the collection is never used up when no one else writes and either the identity already has a holder or no other record holds a provider id of the session's user.
- Backends.LazyAuthenticate: the source loop is unbounded; the model stops, with `RetriesExhausted`, when the supplied candidates run out.
- Backends.ResolveIdentity: the source retries only when the duplicate error message contains `User`, a case-sensitive test (backends.py:83, 164). The model assumes that every duplicate-key message passes it, and so retries every duplicate-key error. The message text comes from mongoengine and the database server, which are not part of this model. If the collection is named `user` in lower case, as mongoengine names it for a class `User` by default, the test never holds: the source then re-raises the first duplicate, and neither the username retry nor the lost-race recovery runs.
- Backends.LazyAuthenticate: the source retries when the duplicate error message mentions `username`. The model retries exactly on a username duplicate.
- Backends.Link: the source linkers return `None`. The model returns the saved record so that a caller can see the result.
- Backends.GoogleOutcome: every error it states is the creation's, with the collection unchanged. The token save after a successful creation never fails in the model, since the record was just admitted with the same keys.
- Backends.GoogleAuthenticate: the profile fetches and `urllib` calls are left out.
- After a failed save, the source leaves the changed `request.user` object in memory. Only the collection is modelled.
- Views.Unsubscribe: the source query has no `$elemMatch`, so it matches a document whenever each field matches some entry, possibly different entries. The model unsets the first entry equal in all three fields.
- Views.Subscribe and Views.Unsubscribe: an unsaved `request.user` is reported as not found with nothing changed. The source would raise from `update()`.
- The language save in `set_language` (views.py:586-592) depends on Django's `check_for_language` and is left out. Only the redirect target is modelled.
- The re-authentication after `form_valid` and in the callback goes through `authenticate(facebook_access_token=...)`. That matches no backend in these files, so it is returned as an outcome and not modelled further.
- The Foursquare and Google callback views, the login views and the e-mail confirmation flow are not part of this model.
- `piplmesh/urls.py` and `piplmesh/frontend/context_processors.py` are not part of this model.

## Findings

| source | as written | input that shows it | evidently intended | confidence | as-written member | corrected member |
|---|---|---|---|---|---|---|
| piplmesh/account/models.py:80-82 | `is_authenticated` looks only at a usable password and the four `*_profile_data` dictionaries, and the Facebook and Twitter resolvers (backends.py:69-80, 154-161) write the provider id and fields but no profile data | a guest session user (unusable password, empty profile data) logging in with Twitter, or Facebook, for the first time: the returned user holds the identity and is still anonymous, so `assert user.is_authenticated()` at views.py:232 fails | an account with a provider identity attached is authenticated | not executed; high | Backends.GuestFirstLoginAnonymous | Backends.ResolvedIsAuthenticated |
| piplmesh/account/backends.py:62-89 | every duplicate-key error is retried under the next username (lines 83-87), also one on a provider-id index other than the identity's own, which no username can clear | a session user whose in-memory `twitter_id` another stored document holds (a stale copy of the session's record) logs in with a new Facebook identity, with `save()` writing the whole in-memory record as the model does (see `Store.Store.Save` under Left out): every attempt is refused on `twitter_id`, the loop goes through `base`, `base1`, `base2` and so on, and never logs in, and it ends only at the first candidate the username rule rejects (at the latest once it grows past 30 characters), where `save()` raises `ValidationError`. Under mongoengine's field-wise save of a loaded document the first login writes only `facebook_id`, `username` and unindexed fields, the stale `twitter_id` is never written, and this input does not collide | retry only the duplicates a retry can cure, the username and the identity's own id (the lost race), and raise any other at once | not executed; low: depends on the whole-record write | Backends.ForeignIdNeverLogsIn | Backends.ScreenedNeverExhausted |

The corrected reading is `Models.IsAuthenticatedIntended`: authenticated as written, or holding a provider id. The view-side checks (`Views.CallbackDecision`, the unlink views) keep the written `is_authenticated`, since they evaluate it on the session's user as the code does. The callback that asserts the result of a provider login (views.py:231-232) is not part of this model.

The second row's corrected loop is `Backends.ResolveScreened`. `Backends.ScreenedNeverExhausted` proves that it never runs out of a budget larger than the collection, with no condition on the session's user, and `Backends.ScreenedRaisesCollision` that it raises the collision. `Backends.ScreenedAgrees` proves it equal to the loop as written whenever the identity has a holder or no provider id of the session's user collides, which is every case where the session's user is the stored document (`Backends.StoredSessionKeysFree`). The method `Backends.ResolveIdentity` keeps the loop as written. `Backends.ForeignIdExhausts` and `Backends.ForeignIdEndsInValidation` give the rest of the written behaviour.
