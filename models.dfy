/** The account record of piplmesh/account/models.py and the predicates defined on it.

    The record also carries the provider fields that piplmesh/account/backends.py writes
    (`facebook_id`, `facebook_token`, `facebook_link`, `twitter_id`, `twitter_token_key`,
    `twitter_token_secret`, `twitter_link`, `google_id`, `google_token`, ...), which the
    document class itself does not declare; each operation uses the fields it touches. */
module Models {
  import opened Common

  type UserId = nat

  /** A point in time as `timezone.now()` would return it; supplied by the caller. */
  type Time = int

  const UsernameMinLength: nat := 4
  const UsernameMaxLength: nat := 30
  const TwitterLinkPrefix: string := "http://twitter.com/#!/"

  /** One live push-channel subscription. */
  datatype Connection = Connection(httpIfNoneMatch: string, httpIfModifiedSince: string, channelId: string)

  datatype TwitterAccessToken = TwitterAccessToken(key: string, secret: string)

  /** The values `profile_image` takes in these files; `NoImage` stands for `None`. */
  datatype ProfileImage = NoImage | FacebookImage | TwitterImage | FoursquareImage | GoogleImage

  /** The stored password: never set, deliberately unusable, or a usable hash of `secret`. */
  datatype Password = NoPassword | Unusable | Hashed(secret: string)

  /** A profile's dictionary of provider data; `None` and `{}` are both the empty map. */
  type ProfileData = map<string, string>

  datatype User = User(
    id: UserId,
    username: string,
    password: Password,
    lazyuserUsername: bool,
    firstName: string,
    lastName: string,
    email: string,           // "" stands for no address
    gender: string,
    birthdate: Option<Time>,
    language: string,
    profileImage: ProfileImage,
    isStaff: bool,
    isActive: bool,
    isSuperuser: bool,
    lastLogin: Option<Time>,
    dateJoined: Option<Time>,
    // declared in models.py
    facebookAccessToken: Option<string>,
    facebookProfileData: ProfileData,
    twitterAccessToken: Option<TwitterAccessToken>,
    twitterProfileData: ProfileData,
    twitterName: Option<string>,
    googleAccessToken: Option<string>,
    googleProfileData: ProfileData,
    foursquareAccessToken: Option<string>,
    foursquareProfileData: ProfileData,
    connections: seq<Connection>,
    connectionLastUnsubscribe: Option<Time>,
    isOnline: bool,
    // written by backends.py only
    facebookId: Option<string>,
    facebookToken: Option<string>,
    facebookLink: string,
    twitterId: Option<string>,
    twitterTokenKey: Option<string>,
    twitterTokenSecret: Option<string>,
    twitterLink: string,
    googleId: Option<string>,
    googleToken: Option<string>,
    googleLink: string,
    googlePictureUrl: string
  )

  // ---------------------------------------------------------------------------
  // Username constraints: 4 to 30 characters matching `^[\w.@+-]+$`.

  predicate IsUsernameChar(c: char) {
    IsWordChar(c) || c == '.' || c == '@' || c == '+' || c == '-'
  }

  /** One or more characters of the class `[\w.@+-]`. */
  predicate UsernameChars(s: string) {
    |s| > 0 && forall k :: 0 <= k < |s| ==> IsUsernameChar(s[k])
  }

  /** Python's `$` matches at the very end and also just before a final newline, so
      the pattern accepts the class's characters optionally followed by one `\n`. */
  predicate MatchesUsernamePattern(s: string) {
    || UsernameChars(s)
    || (|s| > 0 && s[|s| - 1] == '\n' && UsernameChars(s[..|s| - 1]))
  }

  /** The length bounds count every character, a final newline included. */
  predicate ValidUsername(s: string) {
    && UsernameMinLength <= |s| <= UsernameMaxLength
    && MatchesUsernamePattern(s)
  }

  /** A valid username is made of the class's characters, except that its last one
      may be a newline; and every such string of allowed length is valid. */
  lemma ValidUsernameChars(s: string)
    ensures ValidUsername(s) <==>
              && UsernameMinLength <= |s| <= UsernameMaxLength
              && forall k :: 0 <= k < |s| ==> IsUsernameChar(s[k]) || (k == |s| - 1 && s[k] == '\n')
  {
    if UsernameMinLength <= |s| <= UsernameMaxLength
       && forall k :: 0 <= k < |s| ==> IsUsernameChar(s[k]) || (k == |s| - 1 && s[k] == '\n')
    {
      if !UsernameChars(s) {
        var t := s[..|s| - 1];
        assert forall k :: 0 <= k < |t| ==> t[k] == s[k];
        assert !IsUsernameChar(s[|s| - 1]);
      }
    }
    if ValidUsername(s) && !UsernameChars(s) {
      var t := s[..|s| - 1];
      assert forall k :: 0 <= k < |t| ==> IsUsernameChar(s[k]);
    }
  }

  /** A name of the class's characters with a trailing newline passes validation. */
  lemma TrailingNewlineAccepted()
    ensures ValidUsername("abc\n") && !UsernameChars("abc\n")
  {
    var s := "abc\n";
    assert s[..|s| - 1] == "abc";
    assert IsUsernameChar('a') && IsUsernameChar('b') && IsUsernameChar('c');
    assert !IsUsernameChar('\n');
  }

  // ---------------------------------------------------------------------------
  // Passwords; hashing is abstracted as an injective tag.

  predicate HasUsablePassword(u: User) {
    u.password.Hashed?
  }

  /** `check_password(raw)`: an empty raw password never checks. */
  predicate CheckPassword(u: User, raw: string) {
    raw != "" && u.password == Hashed(raw)
  }

  /** `set_password(raw)`: a usable hash of `raw`, or the unusable marker for `None`
      and for the empty password, which the hasher treats alike. */
  function SetPassword(u: User, raw: Option<string>): (r: User)
    ensures HasUsablePassword(r) <==> raw.Some? && raw.value != ""
    ensures forall p :: CheckPassword(r, p) <==> raw == Some(p) && p != ""
    ensures r.(password := u.password) == u
  {
    u.(password := if raw.Some? && raw.value != "" then Hashed(raw.value) else Unusable)
  }

  // ---------------------------------------------------------------------------
  // is_authenticated / is_anonymous.

  predicate IsAuthenticated(u: User) {
    || HasUsablePassword(u)
    || u.facebookProfileData != map[]
    || u.twitterProfileData != map[]
    || u.googleProfileData != map[]
    || u.foursquareProfileData != map[]
  }

  function IsAnonymous(u: User): (r: bool)
    ensures r <==> && !HasUsablePassword(u)
                   && u.facebookProfileData == map[] && u.twitterProfileData == map[]
                   && u.googleProfileData == map[] && u.foursquareProfileData == map[]
  {
    !IsAuthenticated(u)
  }

  /** The account carries a provider id. */
  predicate HoldsAnIdentity(u: User) {
    u.facebookId.Some? || u.twitterId.Some? || u.googleId.Some?
  }

  /** `is_authenticated` as the provider login flows rely on it: an account that an
      identity has been attached to counts as authenticated, whatever its password
      and profile data. */
  predicate IsAuthenticatedIntended(u: User) {
    IsAuthenticated(u) || HoldsAnIdentity(u)
  }

  /** The intended reading agrees with the written one wherever no provider id is
      attached, and never counts an account with one as anonymous. */
  lemma IntendedAuthentication(u: User)
    ensures HoldsAnIdentity(u) ==> IsAuthenticatedIntended(u)
    ensures !HoldsAnIdentity(u) ==> (IsAuthenticatedIntended(u) <==> IsAuthenticated(u))
  {
  }

  // ---------------------------------------------------------------------------
  // get_image_url, reduced to which source supplies the avatar.

  datatype AvatarSource =
    | TwitterPicture(url: string)
    | FacebookPicture(facebookId: Option<string>)
    | FoursquarePhoto(url: string)
    | GooglePicture(url: string)
    | Gravatar(email: string)
    | DefaultPicture

  function ImageSource(u: User): (r: AvatarSource)
    ensures r.TwitterPicture? <==> u.profileImage == TwitterImage && "profile_image_url" in u.twitterProfileData
    ensures r.FacebookPicture? <==> u.profileImage == FacebookImage
    ensures r.FoursquarePhoto? <==> u.profileImage == FoursquareImage && "photo" in u.foursquareProfileData
    ensures r.GooglePicture? <==> u.profileImage == GoogleImage && "picture" in u.googleProfileData
    ensures r.TwitterPicture? ==> r.url == u.twitterProfileData["profile_image_url"]
    ensures r.FacebookPicture? ==> r.facebookId == u.facebookId
    ensures r.FoursquarePhoto? ==> r.url == u.foursquareProfileData["photo"]
    ensures r.GooglePicture? ==> r.url == u.googleProfileData["picture"]
    ensures r.Gravatar? ==> u.email != "" && r.email == u.email
    ensures r.DefaultPicture? ==> u.email == ""
  {
    if u.profileImage == TwitterImage && u.twitterProfileData != map[] && "profile_image_url" in u.twitterProfileData then
      TwitterPicture(u.twitterProfileData["profile_image_url"])
    else if u.profileImage == FacebookImage then
      FacebookPicture(u.facebookId)
    else if u.profileImage == FoursquareImage && u.foursquareProfileData != map[] && "photo" in u.foursquareProfileData then
      FoursquarePhoto(u.foursquareProfileData["photo"])
    else if u.profileImage == GoogleImage && u.googleProfileData != map[] && "picture" in u.googleProfileData then
      GooglePicture(u.googleProfileData["picture"])
    else if u.email != "" then
      Gravatar(u.email)
    else
      DefaultPicture
  }

  /** A provider selected as the image source whose data lacks the picture key falls
      through to the e-mail based avatar or the default picture; Facebook never does. */
  lemma SelectedProviderWithoutPictureFallsThrough(u: User)
    requires || (u.profileImage == TwitterImage && "profile_image_url" !in u.twitterProfileData)
             || (u.profileImage == FoursquareImage && "photo" !in u.foursquareProfileData)
             || (u.profileImage == GoogleImage && "picture" !in u.googleProfileData)
             || u.profileImage == NoImage
    ensures ImageSource(u) == if u.email != "" then Gravatar(u.email) else DefaultPicture
  {
  }

  // ---------------------------------------------------------------------------
  // get_twitter_link.

  function TwitterProfileLink(twitterName: string): (r: string)
    ensures |r| == |TwitterLinkPrefix| + |twitterName|
    ensures r[..|TwitterLinkPrefix|] == TwitterLinkPrefix
    ensures r[|TwitterLinkPrefix|..] == twitterName
  {
    TwitterLinkPrefix + twitterName
  }

  /** The link determines the name it was built from. */
  lemma TwitterProfileLinkInjective(a: string, b: string)
    ensures TwitterProfileLink(a) == TwitterProfileLink(b) ==> a == b
  {
    if TwitterProfileLink(a) == TwitterProfileLink(b) {
      assert a == TwitterProfileLink(a)[|TwitterLinkPrefix|..];
    }
  }

  /** `%s` of a string field that was never set renders Python's `None`. */
  function GetTwitterLink(u: User): (r: string)
    ensures u.twitterName.Some? ==> r == TwitterProfileLink(u.twitterName.value)
    ensures u.twitterName.None? ==> r == TwitterProfileLink("None")
  {
    TwitterLinkPrefix + match u.twitterName case Some(name) => name case None => "None"
  }

  // ---------------------------------------------------------------------------
  // A freshly constructed document: every field at its declared default.

  function NewUser(id: UserId, username: string): (u: User)
    ensures u.id == id && u.username == username
    ensures u.lazyuserUsername && !u.isOnline
    ensures !u.isStaff && u.isActive && !u.isSuperuser
    ensures u.connections == [] && u.profileImage == NoImage
    ensures u.facebookId.None? && u.twitterId.None? && u.googleId.None?
    ensures u.twitterName.None?
    ensures IsAnonymous(u)
  {
    User(
      id := id, username := username, password := NoPassword, lazyuserUsername := true,
      firstName := "", lastName := "", email := "", gender := "", birthdate := None,
      language := "", profileImage := NoImage,
      isStaff := false, isActive := true, isSuperuser := false,
      lastLogin := None, dateJoined := None,
      facebookAccessToken := None, facebookProfileData := map[],
      twitterAccessToken := None, twitterProfileData := map[], twitterName := None,
      googleAccessToken := None, googleProfileData := map[],
      foursquareAccessToken := None, foursquareProfileData := map[],
      connections := [], connectionLastUnsubscribe := None, isOnline := false,
      facebookId := None, facebookToken := None, facebookLink := "",
      twitterId := None, twitterTokenKey := None, twitterTokenSecret := None, twitterLink := "",
      googleId := None, googleToken := None, googleLink := "", googlePictureUrl := ""
    )
  }

  /** `twitter_name` has no default and nothing in these files sets it, so the link of
      a fresh document ends in the text `None`. */
  lemma NewUserTwitterLink(id: UserId, username: string)
    ensures GetTwitterLink(NewUser(id, username)) == "http://twitter.com/#!/None"
  {
  }
}
