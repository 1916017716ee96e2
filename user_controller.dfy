/** User registration and token issue (src/controllers/user.controller.js)
    over an in-memory user collection. Tokens are opaque strings that the
    caller supplies: signing them is not modelled. */
module UserController {
  import opened Js
  import opened Api
  import opened Cloudinary

  type Token = string

  const MsgFillAll := "Please fill in all fields"
  const MsgExists := "User already exists"
  const MsgAvatar := "Error uploading avatar"
  const MsgToken := "Error generating token"

  /** A stored user, with the fields register writes and the refresh token
      the token helper writes. The user schema is not part of this model. */
  datatype User = User(
    fname: string, lname: string, fullName: string, username: string,
    email: string, password: string, avatar: string, refreshToken: Option<Token>)

  /** A user as register returns it: `select("-password")`. */
  datatype UserView = UserView(
    id: Id, fname: string, lname: string, fullName: string, username: string,
    email: string, avatar: string, refreshToken: Option<Token>)

  datatype TokenPair = TokenPair(accessToken: Token, refreshToken: Token)

  /** The stored user without its password. */
  function View(id: Id, u: User): UserView
  {
    UserView(id, u.fname, u.lname, u.fullName, u.username, u.email, u.avatar, u.refreshToken)
  }

  /** `email.split("@")[0]`: the part of the email before its first `@`,
      or the whole email when it has none. */
  function Username(email: string): (u: string)
    ensures '@' !in u && u <= email
    ensures '@' !in email ==> u == email
    ensures '@' in email ==> |u| < |email| && email[|u|] == '@'
  {
    SplitFirstPiece(email, '@');
    Split(email, '@')[0]
  }

  /** The username of `local@domain` is `local` when `local` has no `@`. */
  lemma UsernameOfAddress(local: string, domain: string)
    requires '@' !in local
    ensures Username(local + "@" + domain) == local
  {
    SplitAfterPiece(local, domain, '@');
  }

  /** `${fname} ${lname}`: fname, one space, then lname. */
  function FullName(fname: string, lname: string): (name: string)
    ensures |name| == |fname| + 1 + |lname|
    ensures name[..|fname|] == fname && name[|fname|] == ' ' && name[|fname| + 1..] == lname
  {
    fname + " " + lname
  }

  /** A full name built from two one-word names splits back into them. */
  lemma FullNameSplitsBack(fname: string, lname: string)
    requires ' ' !in fname && ' ' !in lname
    ensures Split(FullName(fname, lname), ' ') == [fname, lname]
  {
    SplitAfterPiece(fname, lname, ' ');
    SplitWithoutSeparator(lname, ' ');
  }

  /** `(field === field?.trim()) === ""`: the per-field test of register's
      blank check. The inner comparison yields a boolean, which is then
      compared with a string. */
  function BlankTest(field: string): bool
  {
    StrictEquals(Bool(StrictEquals(Str(field), Str(Trim(field)))), Str(""))
  }

  /** `[fname, lname, email, password].some(BlankTest)`. */
  predicate AnyBlank(fields: seq<string>)
  {
    exists i :: 0 <= i < |fields| && BlankTest(fields[i])
  }

  /** The blank check rejects nothing, not even empty or all-space fields. */
  lemma BlankCheckNeverRejects(fields: seq<string>)
    ensures !AnyBlank(fields)
  {
  }

  /** `User.findOne({ email })` finds a user. */
  predicate EmailTaken(users: map<Id, User>, email: string)
  {
    exists id :: id in users && users[id].email == email
  }

  /** No two stored users share an email. */
  ghost predicate UniqueEmails(users: map<Id, User>)
  {
    forall a, b :: a in users && b in users && users[a].email == users[b].email ==> a == b
  }

  /** With unique emails, `User.findOne({ email })` has exactly one user to
      find when the email is taken: the one stored under `id`. */
  lemma FindOneByEmail(users: map<Id, User>, email: string) returns (id: Id)
    requires UniqueEmails(users) && EmailTaken(users, email)
    ensures id in users && users[id].email == email
    ensures forall other :: other in users && users[other].email == email ==> other == id
  {
    id :| id in users && users[id].email == email;
  }

  /** The avatar step of register: upload only when the request carries a
      file path, then read `.url` of the upload's answer. Reading `.url` of
      `undefined` (no file) or `null` (upload failed) throws; a missing url
      is rejected with 500. */
  function AvatarUrl(avatarLocalPath: Option<string>, hostResult: Option<UploadResponse>): (r: Result<string>)
    ensures r.Ok? <==> Given(avatarLocalPath) && hostResult.Some? && Given(hostResult.value.url)
    ensures r.Ok? ==> r.value != "" && hostResult == Some(UploadResponse(Some(r.value)))
    ensures !Given(avatarLocalPath) ==> r == Err(Uncaught(TypeError))
    ensures Given(avatarLocalPath) && hostResult == None ==> r == Err(Uncaught(TypeError))
    ensures Given(avatarLocalPath) && hostResult.Some? && !Given(hostResult.value.url) ==>
              r == Err(ApiError(500, MsgAvatar))
  {
    if !Given(avatarLocalPath) then Err(Uncaught(TypeError))
    else
      match UploadOnCloudinary(avatarLocalPath, hostResult)
      case None => Err(Uncaught(TypeError))
      case Some(response) =>
        if !Given(response.url) then Err(ApiError(500, MsgAvatar))
        else Ok(response.url.value)
  }

  /** The user collection of the database. Every stored user has a
      well-formed id, and no two users share an email. */
  class UserCollection {
    const isValidId: IdCheck
    var records: map<Id, User>

    ghost predicate Valid()
      reads this
    {
      && (forall id :: id in records ==> isValidId(id))
      && UniqueEmails(records)
    }

    constructor (isValidId: IdCheck)
      ensures Valid()
      ensures this.isValidId == isValidId && records == map[]
    {
      this.isValidId := isValidId;
      records := map[];
    }

    /** register. `newId` is the fresh id the database assigns; the avatar
        upload's answer is the parameter `hostResult`. */
    method Register(newId: Id, fname: string, lname: string, email: string, password: string,
                    avatarLocalPath: Option<string>, hostResult: Option<UploadResponse>)
      returns (r: Result<Reply<UserView>>)
      requires Valid()
      requires isValidId(newId) && newId !in records
      modifies this
      ensures Valid()
      ensures EmailTaken(old(records), email) ==> r == Err(ApiError(400, MsgExists))
      ensures !EmailTaken(old(records), email) && AvatarUrl(avatarLocalPath, hostResult).Err? ==>
        r == Err(AvatarUrl(avatarLocalPath, hostResult).error)
      ensures r.Ok? <==> !EmailTaken(old(records), email) && AvatarUrl(avatarLocalPath, hostResult).Ok?
      ensures r.Err? ==> records == old(records)
      ensures r.Ok? ==>
        var user := User(fname, lname, FullName(fname, lname), Username(email), email, password,
                         AvatarUrl(avatarLocalPath, hostResult).value, None);
        && records == old(records)[newId := user]
        && r.value == Reply(201, View(newId, user))
      ensures r.Ok? ==> forall id :: id in records && records[id].email == email ==> id == newId
    {
      if AnyBlank([fname, lname, email, password]) {
        return Err(ApiError(400, MsgFillAll));
      }
      var username := Username(email);
      var fullName := FullName(fname, lname);
      if EmailTaken(records, email) {
        return Err(ApiError(400, MsgExists));
      }
      var avatar := AvatarUrl(avatarLocalPath, hostResult);
      if avatar.Err? {
        return Err(avatar.error);
      }
      records := records[newId := User(fname, lname, fullName, username, email, password, avatar.value, None)];
      r := Ok(Reply(201, View(newId, records[newId])));
    }

    /** generateAccessTokenAndRefreshToken: stores the new refresh token on
        the user, replacing the previous one, and returns both tokens. The
        signed values are the parameters. A malformed id (the ObjectId cast
        of `findById` throws) and a missing user (reading a field of `null`
        throws) both end in the helper's catch, which answers 500. */
    method GenerateAccessTokenAndRefreshToken(userId: Id, accessToken: Token, refreshToken: Token)
      returns (r: Result<TokenPair>)
      requires Valid()
      modifies this
      ensures Valid()
      ensures r.Ok? <==> isValidId(userId) && userId in old(records)
      ensures !isValidId(userId) || userId !in old(records) ==> r == Err(ApiError(500, MsgToken))
      ensures r.Err? ==> records == old(records)
      ensures r.Ok? ==>
        && r.value == TokenPair(accessToken, refreshToken)
        && records == old(records)[userId := old(records)[userId].(refreshToken := Some(refreshToken))]
        && records[userId].refreshToken == Some(r.value.refreshToken)
    {
      if !isValidId(userId) || userId !in records {
        return Err(ApiError(500, MsgToken));
      }
      var user := records[userId].(refreshToken := Some(refreshToken));
      records := records[userId := user];
      r := Ok(TokenPair(accessToken, records[userId].refreshToken.value));
    }
  }
}
