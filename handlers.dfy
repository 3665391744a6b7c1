/**
 * The three request handlers of server.js, each a function from the request and the answers
 * of its collaborators to what the handler writes and what the client receives. The store
 * (`User.exists`, `findOne`, `save`), bcrypt, `jwt.sign`, Firebase's `verifyIdToken` and
 * nanoid are parameters; each handler consults them in the order the source does.
 */
module Handlers {
  import opened Wrappers
  import opened JsStrings
  import opened Patterns
  import opened Users

  /** The JSON body of a reply: `{ error: message }` or the payload of `formatDatatoSend`. */
  datatype Body = ErrorBody(message: string) | ProfileBody(profile: Profile)

  /**
   * What the client receives first: a status and a body, or nothing at all (the handler
   * returned without answering, or threw where nothing catches it).
   */
  datatype Response = Reply(status: int, body: Body) | NoReply

  /** The handler's effect: the record it handed to `save()`, if any, and the client's answer. */
  datatype Exchange = Exchange(written: Option<Draft>, response: Response)

  /** How `user.save()` settles: with the stored id and schema default picture, or with an error. */
  datatype SaveOutcome = Saved(id: UserId, defaultImg: Option<string>) | SaveFailed(code: Option<int>, message: string)

  /** How `bcrypt.compare` calls back: with an error, or with whether the password matches. */
  datatype CompareResult = CompareError | Compared(matches: bool)

  /** The claims of a verified Google ID token that the handler reads. */
  datatype Claims = Claims(email: string, name: string, picture: Option<string>)

  datatype SignUpRequest = SignUpRequest(email: string, password: string, fullname: string)
  datatype SignInRequest = SignInRequest(email: string, password: string)
  datatype GoogleAuthRequest = GoogleAuthRequest(accessToken: string)

  const DuplicateKey := 11000
  const EmailExists := "Email already exists"
  const InternalError := "Internal server error"
  const UserNotFound := "User not found for this email"
  const InvalidPassword := "Invalid password"
  const UseGoogle := "Please login with Google"
  const RegisteredWithoutGoogle := "User already registered without google account, please use email and password"
  const GoogleFailed := "Failed to authenticate with Google, Try Again Later"

  // ---------------------------------------------------------------------------------------
  // Sign-up

  /** The five sign-up checks, in the order they run. */
  datatype SignUpError = ShortFullname | MissingEmail | InvalidEmail | ShortPassword | WeakPassword

  function Message(e: SignUpError): string
  {
    match e
    case ShortFullname => "Full Name must be at least 3 characters long"
    case MissingEmail => "Email is required"
    case InvalidEmail => "Invalid email"
    case ShortPassword => "Password must be at least 8 characters long"
    case WeakPassword => "Password must contain at least one uppercase letter, one lowercase letter, one number and one special character"
  }

  /** Each failed check has its own message, so the client can tell which one failed. */
  lemma MessageDistinct(e1: SignUpError, e2: SignUpError)
    ensures Message(e1) == Message(e2) ==> e1 == e2
  {
  }

  /** The guards of `/signup`: the first check that fails decides the answer. */
  function ValidateSignUp(fullname: string, email: string, password: string): Option<SignUpError>
  {
    if Utf16Length(fullname) < 3 then Some(ShortFullname)
    else if email == [] then Some(MissingEmail)
    else if !MatchesEmail(email) then Some(InvalidEmail)
    else if Utf16Length(password) < 8 then Some(ShortPassword)
    else if !MatchesPassword(password) then Some(WeakPassword)
    else None
  }

  /**
   * Each check fails exactly when every earlier one passed and its own condition, stated
   * against the regular expressions' languages, is violated; the request passes exactly when
   * all five hold. An empty e-mail is "required", not "invalid", and a password shorter than
   * 8 code units always gets the length message, never the complexity one.
   */
  lemma ValidateSignUpSpec(fullname: string, email: string, password: string)
    ensures var r := ValidateSignUp(fullname, email, password);
      && (r == Some(ShortFullname) <==> Utf16Length(fullname) < 3)
      && (r == Some(MissingEmail) <==> Utf16Length(fullname) >= 3 && email == [])
      && (r == Some(InvalidEmail) <==> Utf16Length(fullname) >= 3 && email != [] && !EmailPattern(email))
      && (r == Some(ShortPassword) <==>
            Utf16Length(fullname) >= 3 && EmailPattern(email) && Utf16Length(password) < 8)
      && (r == Some(WeakPassword) <==>
            Utf16Length(fullname) >= 3 && EmailPattern(email) && Utf16Length(password) >= 8 && !PasswordPattern(password))
      && (r == None <==> Utf16Length(fullname) >= 3 && EmailPattern(email) && PasswordPattern(password))
  {
    MatchesEmailIsPattern(email);
    MatchesPasswordIsPattern(password);
    if EmailPattern(email) {
      var a: nat, k: nat :| EmailSplit(email, a, k);
    }
  }

  const SampleFullname := "Ann Lee"
  const SampleEmail := "a@b.com"
  const SamplePassword := "Abcdef1!"
  /** Four emoji: four characters, eight UTF-16 code units. */
  const EmojiPassword := "\U{1F600}\U{1F600}\U{1F600}\U{1F600}"

  lemma SampleEmailMatches()
    ensures MatchesEmail(SampleEmail)
  {
    assert EmailSplit(SampleEmail, 1, 3);
    EmailSplitGivesMatch(SampleEmail, 1, 3);
  }

  /** A well-formed request passes all five checks. */
  lemma ValidateSignUpAccepts()
    ensures ValidateSignUp(SampleFullname, SampleEmail, SamplePassword) == None
  {
    SampleEmailMatches();
    var p := SamplePassword;
    assert Utf16Length(p) == 8 by {
      assert forall i :: 0 <= i < |p| ==> !IsAstral(p[i]);
    }
    assert MatchesPassword(p) by {
      assert IsLower(p[1]) && IsUpper(p[0]) && IsDigit(p[6]) && IsSpecial(p[7]);
    }
  }

  /**
   * A five-letter password gets the length message though it is also too weak, while four
   * emoji pass the length check (eight code units) and fail the pattern.
   */
  lemma ValidatePasswordSamples()
    ensures ValidateSignUp(SampleFullname, SampleEmail, "wrong") == Some(ShortPassword)
    ensures ValidateSignUp(SampleFullname, SampleEmail, EmojiPassword) == Some(WeakPassword)
  {
    SampleEmailMatches();
    assert Utf16Length(EmojiPassword) == 8;
    assert !MatchesPassword(EmojiPassword) by {
      assert !IsPasswordChar(EmojiPassword[0]);
    }
  }

  /** An e-mail without a top-level label is invalid. */
  lemma ValidateEmailSample()
    ensures ValidateSignUp(SampleFullname, "a@b", SamplePassword) == Some(InvalidEmail)
  {
    var bad := "a@b";
    assert IndexOf(bad, "@") == Some(1) by {
      OccursAtChar(bad, '@', 0);
      OccursAtChar(bad, '@', 1);
    }
    assert LastIndex(bad[2..], '.') == None;
  }

  /** The record `/signup` builds: the request's name and e-mail, the hash and the username. */
  function NewLocalUser(fullname: string, email: string, hash: string, username: string): Draft
  {
    Draft(PersonalInfo(fullname, email, username, Some(hash), None), false)
  }

  /** The reply to a settled `save()` of a sign-up record. */
  function SignUpReply(d: Draft, saved: SaveOutcome, sign: UserId -> string): Response
  {
    match saved
    case Saved(id, img) => Reply(200, ProfileBody(FormatDataToSend(Stored(d, id, img), sign)))
    case SaveFailed(code, _) => Reply(500, ErrorBody(if code == Some(DuplicateKey) then EmailExists else InternalError))
  }

  /**
   * `POST /signup`. `hash` is what bcrypt produced for the password. A failed username
   * lookup rejects inside bcrypt's callback, where nothing catches it: no reply.
   */
  function SignUp(req: SignUpRequest, hash: string, usernameTaken: string -> Outcome<bool>, nanoid: string,
                  save: Draft -> SaveOutcome, sign: UserId -> string): Exchange
  {
    match ValidateSignUp(req.fullname, req.email, req.password)
    case Some(e) => Exchange(None, Reply(403, ErrorBody(Message(e))))
    case None =>
      match GenerateUsername(req.email, usernameTaken, nanoid)
      case Rejected(_) => Exchange(None, NoReply)
      case Resolved(username) =>
        var d := NewLocalUser(req.fullname, req.email, hash, username);
        Exchange(Some(d), SignUpReply(d, save(d), sign))
  }

  /**
   * A request that fails a check gets 403 with that check's message, and nothing is hashed,
   * looked up or saved: the answer is the same whatever the collaborators would have said.
   */
  lemma SignUpRejectsEarly(req: SignUpRequest, hash: string, usernameTaken: string -> Outcome<bool>, nanoid: string,
                           save: Draft -> SaveOutcome, sign: UserId -> string)
    requires ValidateSignUp(req.fullname, req.email, req.password).Some?
    ensures var e := ValidateSignUp(req.fullname, req.email, req.password).value;
      SignUp(req, hash, usernameTaken, nanoid, save, sign) == Exchange(None, Reply(403, ErrorBody(Message(e))))
  {
  }

  /**
   * A request that passes the checks has a well-formed e-mail, so its username starts with the
   * e-mail's whole local part: non-empty, of `[A-Za-z0-9._-]`, and followed in the e-mail by `@`.
   */
  lemma SignUpUsernameIsLocalPart(req: SignUpRequest, hash: string, usernameTaken: string -> Outcome<bool>,
                                  nanoid: string, save: Draft -> SaveOutcome, sign: UserId -> string)
    requires ValidateSignUp(req.fullname, req.email, req.password).None?
    ensures var base := BaseUsername(req.email);
      && 0 < |base| < |req.email| && req.email[|base|] == '@' && All(base, IsLocalChar)
      && (SignUp(req, hash, usernameTaken, nanoid, save, sign).written.Some? ==>
            var name := SignUp(req, hash, usernameTaken, nanoid, save, sign).written.value.info.username;
            |base| <= |name| && name[..|base|] == base)
  {
    ValidateSignUpSpec(req.fullname, req.email, req.password);
    var email := req.email;
    var a: nat, k: nat :| EmailSplit(email, a, k);
    var base := BaseUsername(email);
    BeforeFirstSpec(email, '@');
    assert |base| == a;
    assert base == email[..a];
  }

  /**
   * A request that passes the checks writes the record carrying the request's full name and
   * e-mail, the hash and the derived username, with no Google flag; a successful save answers
   * 200 with that username and full name and a token for the stored id; a duplicate-key error
   * (code 11000) answers 500 "Email already exists" and any other error 500 "Internal server
   * error". A failed username lookup writes nothing and never answers.
   */
  lemma SignUpOutcomes(req: SignUpRequest, hash: string, usernameTaken: string -> Outcome<bool>, nanoid: string,
                       save: Draft -> SaveOutcome, sign: UserId -> string)
    requires ValidateSignUp(req.fullname, req.email, req.password).None?
    ensures var x := SignUp(req, hash, usernameTaken, nanoid, save, sign);
      && (GenerateUsername(req.email, usernameTaken, nanoid).Rejected? ==> x == Exchange(None, NoReply))
      && (GenerateUsername(req.email, usernameTaken, nanoid).Resolved? ==>
            && x.written.Some?
            && x.written.value.info.fullname == req.fullname
            && x.written.value.info.email == req.email
            && x.written.value.info.password == Some(hash)
            && x.written.value.info.username == GenerateUsername(req.email, usernameTaken, nanoid).value
            && !x.written.value.googleAuth
            && match save(x.written.value)
               case Saved(id, img) =>
                 x.response.Reply? && x.response.status == 200 && x.response.body.ProfileBody?
                 && x.response.body.profile.username == x.written.value.info.username
                 && x.response.body.profile.fullname == req.fullname
                 && x.response.body.profile.accessToken == sign(id)
                 && x.response.body.profile.profileImg == img
               case SaveFailed(code, _) =>
                 x.response == Reply(500, ErrorBody(if code == Some(11000) then "Email already exists" else "Internal server error")))
  {
  }

  // ---------------------------------------------------------------------------------------
  // Sign-in

  /**
   * `POST /signin`. `find` answers `findOne` by e-mail and `compare` stands for
   * `bcrypt.compare(password, hash)`. A rejected lookup has no `.catch`: no reply.
   */
  function SignIn(req: SignInRequest, find: string -> Outcome<Option<User>>,
                  compare: (string, Option<string>) -> CompareResult, sign: UserId -> string): Response
  {
    match find(req.email)
    case Rejected(_) => NoReply
    case Resolved(None) => Reply(403, ErrorBody(UserNotFound))
    case Resolved(Some(u)) =>
      if !u.googleAuth then
        match compare(req.password, u.info.password)
        case CompareError => Reply(500, ErrorBody(InternalError))
        case Compared(false) => Reply(403, ErrorBody(InvalidPassword))
        case Compared(true) => Reply(200, ProfileBody(FormatDataToSend(u, sign)))
      else
        Reply(403, ErrorBody(UseGoogle))
  }

  /**
   * No record for the e-mail: 403 "User not found for this email". A Google account: 403
   * "Please login with Google". A password account: 500 on a comparison error, 403 "Invalid
   * password" on a mismatch, 200 with the account's payload on a match. A 200 is answered
   * exactly when a password account was found and the password matched.
   */
  lemma SignInOutcomes(req: SignInRequest, find: string -> Outcome<Option<User>>,
                       compare: (string, Option<string>) -> CompareResult, sign: UserId -> string)
    ensures var r := SignIn(req, find, compare, sign);
      && (find(req.email).Rejected? <==> r == NoReply)
      && (find(req.email) == Resolved(None) ==> r == Reply(403, ErrorBody("User not found for this email")))
      && (r.Reply? && r.status == 200 <==>
            find(req.email).Resolved? && find(req.email).value.Some?
            && !find(req.email).value.value.googleAuth
            && compare(req.password, find(req.email).value.value.info.password) == Compared(true))
      && (find(req.email).Resolved? && find(req.email).value.Some? ==>
            var u := find(req.email).value.value;
            && (u.googleAuth ==> r == Reply(403, ErrorBody("Please login with Google")))
            && (!u.googleAuth && compare(req.password, u.info.password) == CompareError ==>
                  r == Reply(500, ErrorBody("Internal server error")))
            && (!u.googleAuth && compare(req.password, u.info.password) == Compared(false) ==>
                  r == Reply(403, ErrorBody("Invalid password")))
            && (!u.googleAuth && compare(req.password, u.info.password) == Compared(true) ==>
                  r == Reply(200, ProfileBody(FormatDataToSend(u, sign)))))
  {
  }

  /**
   * For a Google account no password comparison is made: the answer is the same whatever the
   * comparison would have said.
   */
  lemma SignInGoogleSkipsCompare(req: SignInRequest, find: string -> Outcome<Option<User>>,
                                 c1: (string, Option<string>) -> CompareResult,
                                 c2: (string, Option<string>) -> CompareResult, sign: UserId -> string)
    requires find(req.email).Resolved? && find(req.email).value.Some? && find(req.email).value.value.googleAuth
    ensures SignIn(req, find, c1, sign) == SignIn(req, find, c2, sign) == Reply(403, ErrorBody("Please login with Google"))
  {
  }

  /**
   * Round trip: once sign-up's record is stored, signing in with the same e-mail and a
   * password the hash matches answers with the very payload sign-up answered with.
   */
  lemma SignUpThenSignIn(req: SignUpRequest, hash: string, usernameTaken: string -> Outcome<bool>, nanoid: string,
                         save: Draft -> SaveOutcome, sign: UserId -> string,
                         find: string -> Outcome<Option<User>>, compare: (string, Option<string>) -> CompareResult)
    requires SignUp(req, hash, usernameTaken, nanoid, save, sign).written.Some?
    requires var d := SignUp(req, hash, usernameTaken, nanoid, save, sign).written.value;
      save(d).Saved? && find(req.email) == Resolved(Some(Stored(d, save(d).id, save(d).defaultImg)))
    requires compare(req.password, Some(hash)) == Compared(true)
    ensures SignUp(req, hash, usernameTaken, nanoid, save, sign).response
         == SignIn(SignInRequest(req.email, req.password), find, compare, sign)
    ensures SignUp(req, hash, usernameTaken, nanoid, save, sign).response.Reply?
         && SignUp(req, hash, usernameTaken, nanoid, save, sign).response.status == 200
  {
  }

  // ---------------------------------------------------------------------------------------
  // Google sign-in

  /** The size segments of a Google profile-picture URL: 96 and 384 pixels, cropped. */
  const SmallPicture := "s96-c"
  const LargePicture := "s384-c"

  /** `picture.replace("s96-c", "s384-c")`: asks Google for the 384-pixel picture. */
  function UpscalePicture(picture: string): string
  {
    ReplaceFirst(picture, SmallPicture, LargePicture)
  }

  /** A URL without "s96-c" is left unchanged. */
  lemma UpscalePictureAbsent(picture: string)
    requires forall j: nat :: !OccursAt(picture, "s96-c", j)
    ensures UpscalePicture(picture) == picture
  {
    ReplaceFirstAbsent(picture, SmallPicture, LargePicture);
  }

  /**
   * Only the first "s96-c" is rewritten, to "s384-c", everything around it kept, so the URL
   * grows by exactly one character.
   */
  lemma UpscalePictureFirst(picture: string, i: nat)
    requires OccursAt(picture, "s96-c", i)
    requires forall j: nat :: j < i ==> !OccursAt(picture, "s96-c", j)
    ensures UpscalePicture(picture) == picture[..i] + "s384-c" + picture[i + 5..]
    ensures |UpscalePicture(picture)| == |picture| + 1
  {
    ReplaceFirstAt(picture, SmallPicture, LargePicture, i);
  }

  /** The record the Google branch builds: the token's name, e-mail and picture, flagged `google_auth`. */
  function NewGoogleUser(name: string, email: string, username: string, picture: string): Draft
  {
    Draft(PersonalInfo(name, email, username, None, Some(picture)), true)
  }

  /**
   * The reply to a settled `save()` in the Google branch. On failure the `.catch` answers 500
   * with the error's message; the 200 the handler then attempts cannot reach the client.
   */
  function GoogleSaveReply(d: Draft, saved: SaveOutcome, sign: UserId -> string): Response
  {
    match saved
    case Saved(id, img) => Reply(200, ProfileBody(FormatDataToSend(Stored(d, id, img), sign)))
    case SaveFailed(_, m) => Reply(500, ErrorBody(m))
  }

  /**
   * `POST /google-auth` as coded. `verify` stands for Firebase's `verifyIdToken`. Because of
   * how the braces nest, an existing Google account does not sign in: a new record is built
   * and saved, and an e-mail with no account gets no reply at all. A missing picture throws
   * in `replace`, and a failed username lookup rejects; the outer `.catch` answers both.
   * A failed `findOne` is answered 500 by its own `.catch`.
   */
  function GoogleAuth(req: GoogleAuthRequest, verify: string -> Outcome<Claims>, find: string -> Outcome<Option<User>>,
                      usernameTaken: string -> Outcome<bool>, nanoid: string,
                      save: Draft -> SaveOutcome, sign: UserId -> string): Exchange
  {
    match verify(req.accessToken)
    case Rejected(_) => Exchange(None, Reply(500, ErrorBody(GoogleFailed)))
    case Resolved(claims) =>
      match claims.picture
      case None => Exchange(None, Reply(500, ErrorBody(GoogleFailed)))
      case Some(pic) =>
        var picture := UpscalePicture(pic);
        match find(claims.email)
        case Rejected(m) => Exchange(None, Reply(500, ErrorBody(m)))
        case Resolved(None) => Exchange(None, NoReply)
        case Resolved(Some(u)) =>
          if !u.googleAuth then Exchange(None, Reply(403, ErrorBody(RegisteredWithoutGoogle)))
          else
            match GenerateUsername(claims.email, usernameTaken, nanoid)
            case Rejected(_) => Exchange(None, Reply(500, ErrorBody(GoogleFailed)))
            case Resolved(username) =>
              var d := NewGoogleUser(claims.name, claims.email, username, picture);
              Exchange(Some(d), GoogleSaveReply(d, save(d), sign))
  }

  /**
   * A token that fails verification, or carries no picture, gets 500 "Failed to authenticate
   * with Google, Try Again Later" and writes nothing.
   */
  lemma GoogleAuthFailures(req: GoogleAuthRequest, verify: string -> Outcome<Claims>, find: string -> Outcome<Option<User>>,
                           usernameTaken: string -> Outcome<bool>, nanoid: string,
                           save: Draft -> SaveOutcome, sign: UserId -> string)
    requires verify(req.accessToken).Rejected? || verify(req.accessToken).value.picture.None?
    ensures GoogleAuth(req, verify, find, usernameTaken, nanoid, save, sign)
         == Exchange(None, Reply(500, ErrorBody("Failed to authenticate with Google, Try Again Later")))
  {
  }

  /**
   * With a verified token: a failed lookup is answered 500 with the error's message; no
   * account for its e-mail means no reply and no record; a password
   * account means 403 and no record; a Google account means a NEW record with `google_auth`,
   * the token's name and e-mail, the derived username and the upscaled picture is handed to `save()`, and a
   * successful save answers 200 with that new record's payload, a failed one 500 with the
   * error's message. A failed username lookup answers 500 through the outer `.catch`. A record
   * is written exactly when a Google account was found and the username lookup succeeded.
   */
  lemma GoogleAuthOutcomes(req: GoogleAuthRequest, verify: string -> Outcome<Claims>, find: string -> Outcome<Option<User>>,
                           usernameTaken: string -> Outcome<bool>, nanoid: string,
                           save: Draft -> SaveOutcome, sign: UserId -> string)
    requires verify(req.accessToken).Resolved? && verify(req.accessToken).value.picture.Some?
    ensures var c := verify(req.accessToken).value;
      var x := GoogleAuth(req, verify, find, usernameTaken, nanoid, save, sign);
      && (find(c.email).Rejected? ==> x == Exchange(None, Reply(500, ErrorBody(find(c.email).message))))
      && (find(c.email) == Resolved(None) ==> x == Exchange(None, NoReply))
      && (find(c.email).Resolved? && find(c.email).value.Some? && !find(c.email).value.value.googleAuth ==>
            x == Exchange(None, Reply(403, ErrorBody("User already registered without google account, please use email and password"))))
      && (x.written.Some? <==>
            find(c.email).Resolved? && find(c.email).value.Some? && find(c.email).value.value.googleAuth
            && GenerateUsername(c.email, usernameTaken, nanoid).Resolved?)
      && (x.written.Some? ==>
            && x.written.value.googleAuth
            && x.written.value.info.fullname == c.name
            && x.written.value.info.email == c.email
            && x.written.value.info.username == GenerateUsername(c.email, usernameTaken, nanoid).value
            && x.written.value.info.password == None
            && x.written.value.info.profileImg == Some(UpscalePicture(c.picture.value))
            && (save(x.written.value).Saved? ==>
                  var s := save(x.written.value);
                  x.response == Reply(200, ProfileBody(FormatDataToSend(Stored(x.written.value, s.id, s.defaultImg), sign))))
            && (save(x.written.value).SaveFailed? ==>
                  x.response == Reply(500, ErrorBody(save(x.written.value).message))))
      && (find(c.email).Resolved? && find(c.email).value.Some? && find(c.email).value.value.googleAuth
          && GenerateUsername(c.email, usernameTaken, nanoid).Rejected? ==>
            x == Exchange(None, Reply(500, ErrorBody("Failed to authenticate with Google, Try Again Later"))))
  {
  }

  /**
   * An account created through Google sign-in can never sign in with a password: whatever
   * password is offered, the answer is 403 "Please login with Google".
   */
  lemma GoogleUserCannotSignIn(greq: GoogleAuthRequest, verify: string -> Outcome<Claims>, find: string -> Outcome<Option<User>>,
                               usernameTaken: string -> Outcome<bool>, nanoid: string,
                               save: Draft -> SaveOutcome, sign: UserId -> string,
                               req: SignInRequest, find2: string -> Outcome<Option<User>>,
                               compare: (string, Option<string>) -> CompareResult)
    requires GoogleAuth(greq, verify, find, usernameTaken, nanoid, save, sign).written.Some?
    requires var d := GoogleAuth(greq, verify, find, usernameTaken, nanoid, save, sign).written.value;
      save(d).Saved? && find2(req.email) == Resolved(Some(Stored(d, save(d).id, save(d).defaultImg)))
    ensures SignIn(req, find2, compare, sign) == Reply(403, ErrorBody("Please login with Google"))
  {
  }

  /**
   * An account created by sign-up cannot use Google sign-in: a verified token for its e-mail
   * gets 403 and no record is written.
   */
  lemma LocalUserCannotUseGoogle(sreq: SignUpRequest, hash: string, usernameTaken: string -> Outcome<bool>, nanoid: string,
                                 save: Draft -> SaveOutcome, sign: UserId -> string,
                                 greq: GoogleAuthRequest, verify: string -> Outcome<Claims>,
                                 find: string -> Outcome<Option<User>>, nanoid2: string)
    requires SignUp(sreq, hash, usernameTaken, nanoid, save, sign).written.Some?
    requires verify(greq.accessToken).Resolved? && verify(greq.accessToken).value.picture.Some?
    requires var d := SignUp(sreq, hash, usernameTaken, nanoid, save, sign).written.value;
      save(d).Saved? && find(verify(greq.accessToken).value.email) == Resolved(Some(Stored(d, save(d).id, save(d).defaultImg)))
    ensures GoogleAuth(greq, verify, find, usernameTaken, nanoid2, save, sign)
         == Exchange(None, Reply(403, ErrorBody("User already registered without google account, please use email and password")))
  {
  }
}
