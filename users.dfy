/**
 * The user record, the payload returned to clients (`formatDatatoSend`) and the username
 * derivation (`generateUsername`) of server.js. The store, the token signer and nanoid are
 * parameters: `usernameTaken` answers `User.exists` for a username, `sign` stands for `jwt.sign`
 * with the process secret, and `nanoid` is the string one call to nanoid returned.
 */
module Users {
  import opened Wrappers
  import opened JsStrings

  type UserId = string

  /** `personal_info`; a field the record was built without is `None`. */
  datatype PersonalInfo = PersonalInfo(
    fullname: string,
    email: string,
    username: string,
    password: Option<string>,
    profileImg: Option<string>)

  /** A record built with `new User(...)`, before the store has accepted it. */
  datatype Draft = Draft(info: PersonalInfo, googleAuth: bool)

  /** A record held by the store, with its `_id`. */
  datatype User = User(id: UserId, info: PersonalInfo, googleAuth: bool)

  /** The JSON object `formatDatatoSend` builds. */
  datatype Profile = Profile(accessToken: string, profileImg: Option<string>, username: string, fullname: string)

  /**
   * The document `save()` resolves with: the draft under the id the store gave it, with the
   * schema's default picture (unknown here, so an input) where the draft set none.
   */
  function Stored(d: Draft, id: UserId, defaultImg: Option<string>): User
  {
    var img := if d.info.profileImg.Some? then d.info.profileImg else defaultImg;
    User(id, d.info.(profileImg := img), d.googleAuth)
  }

  /** `formatDatatoSend(user)`: a token signed over the id alone, and three profile fields. */
  function FormatDataToSend(u: User, sign: UserId -> string): Profile
  {
    Profile(sign(u.id), u.info.profileImg, u.info.username, u.info.fullname)
  }

  /**
   * The payload shows the user's picture, username and full name and a token that depends on
   * the id alone: two records agree on their payloads exactly when they agree on those three
   * fields and on the signed id. E-mail, password hash and the Google flag never reach it.
   */
  lemma FormatDataToSendSpec(u: User, v: User, sign: UserId -> string)
    ensures FormatDataToSend(u, sign).accessToken == sign(u.id)
    ensures FormatDataToSend(u, sign) == FormatDataToSend(v, sign) <==>
      && sign(u.id) == sign(v.id)
      && u.info.profileImg == v.info.profileImg
      && u.info.username == v.info.username
      && u.info.fullname == v.info.fullname
  {
  }

  /** The name `generateUsername` starts from: `email.split("@")[0]`. */
  function BaseUsername(email: string): string
  {
    BeforeFirst(email, '@')
  }

  /**
   * `generateUsername(email)`: the base name, or, when the store reports it taken, the base
   * name followed by `nanoid().substring(0, 4)`. A rejected lookup rejects the call.
   */
  function GenerateUsername(email: string, usernameTaken: string -> Outcome<bool>, nanoid: string): Outcome<string>
  {
    var base := BaseUsername(email);
    match usernameTaken(base)
    case Rejected(m) => Rejected(m)
    case Resolved(taken) => Resolved(if taken then base + Take(nanoid, 4) else base)
  }

  /**
   * The username always starts with the text before the first `@` (all of the e-mail when it
   * has none). A free base name is used as it is; a taken one gets exactly four more
   * characters when nanoid supplied at least four (nanoid's default length is 21).
   */
  lemma {:induction false} GenerateUsernameSpec(email: string, usernameTaken: string -> Outcome<bool>, nanoid: string)
    ensures var base := BaseUsername(email);
      && (forall j :: 0 <= j < |base| ==> base[j] != '@')
      && base == email[..|base|]
      && (base == email || email[|base|] == '@')
    ensures var base := BaseUsername(email);
      && (usernameTaken(base).Rejected? <==> GenerateUsername(email, usernameTaken, nanoid).Rejected?)
      && (usernameTaken(base) == Resolved(false) ==> GenerateUsername(email, usernameTaken, nanoid) == Resolved(base))
      && (usernameTaken(base) == Resolved(true) && |nanoid| >= 4 ==>
            var name := GenerateUsername(email, usernameTaken, nanoid).value;
            |name| == |base| + 4 && name[..|base|] == base && name[|base|..] == nanoid[..4])
  {
    BeforeFirstSpec(email, '@');
  }

  /**
   * The store is asked about the base name only: two stores that agree on it give the same
   * username, whatever they say about the suffixed name.
   */
  lemma GenerateUsernameAsksOnce(email: string, f: string -> Outcome<bool>, g: string -> Outcome<bool>, nanoid: string)
    requires f(BaseUsername(email)) == g(BaseUsername(email))
    ensures GenerateUsername(email, f, nanoid) == GenerateUsername(email, g, nanoid)
  {
  }

  /**
   * The suffixed name is not checked again, so the result can be a name the store already
   * holds: when both the base name and the base name with the first four nanoid characters
   * are taken, the latter is returned all the same.
   */
  lemma GenerateUsernameMayCollide(email: string, nanoid: string)
    requires |nanoid| >= 4
    ensures var base := BaseUsername(email);
      var taken := (n: string) => Resolved(n == base || n == base + nanoid[..4]);
      && GenerateUsername(email, taken, nanoid) == Resolved(base + nanoid[..4])
      && taken(GenerateUsername(email, taken, nanoid).value) == Resolved(true)
  {
  }
}
