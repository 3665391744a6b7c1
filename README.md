# techbichitra_server authentication core, modelled in Dafny

The server (`server.js`) exposes three endpoints: `POST /signup`, `POST /signin` and
`POST /google-auth`. They are backed by a MongoDB `User` collection, bcrypt password hashes,
JSON Web Token access tokens and Firebase ID-token verification. This project models the
decision logic of those handlers as pure Dafny functions. Every external collaborator becomes
a parameter, so each property holds for every answer the collaborators could give:

- `usernameTaken`: `User.exists`
- `find`: `User.findOne` by e-mail
- `save`: `user.save()`
- `compare`: `bcrypt.compare`
- `sign`: `jwt.sign` with the process secret
- `verify`: Firebase's `verifyIdToken`
- the hash and the nanoid string: plain inputs

A promise's settlement is `Outcome` (`Resolved` or `Rejected`). What the client receives first
is a `Response`: `Reply(status, body)`, or `NoReply` when the handler returns without answering
or throws where nothing catches the error.

Files and modules:

- `wrappers.dfy` (`Wrappers`): `Option` and `Outcome`.
- `js_strings.dfy` (`JsStrings`): the JavaScript string operations the handlers use.
  - `Utf16Length` is `.length`, counted in UTF-16 code units.
  - `FindFrom`/`IndexOf` is `indexOf` for a non-empty pattern.
  - `BeforeFirst` is `split(sep)[0]`.
  - `Take` is `substring(0, n)`.
  - `ReplaceFirst` is `replace` with a string pattern and a replacement free of `$`.
- `patterns.dfy` (`Patterns`): `emailRegex` and `passwordRegex`, each written twice.
  - A ghost predicate gives the language of the anchored pattern (`EmailPattern`,
    `PasswordPattern`, with the lookaheads `(?=.*[…])` spelled out).
  - A deterministic matcher (`MatchesEmail`, `MatchesPassword`) is what the sign-up checks
    call.
  - Lemmas prove that each matcher decides its pattern's language.
  - The classes are ASCII. So matching over Dafny's `char` (Unicode scalar values) gives the
    same answer as JavaScript's matching over UTF-16 code units, for every string without
    unpaired surrogates (see "## Left out").
- `users.dfy` (`Users`):
  - the user record;
  - `FormatDataToSend` (`formatDatatoSend`);
  - `GenerateUsername` (`generateUsername`);
  - `Stored`, the document `save()` resolves with.
- `handlers.dfy` (`Handlers`):
  - `ValidateSignUp`, the five ordered guards;
  - `SignUp`, `SignIn` and `GoogleAuth`, the three handlers;
  - the lemmas that give their outcome tables and tie them together.

The Google handler is modelled as the code is written:

- An existing Google account does not sign in. Because of how the braces nest, a new record
  is built and saved for it.
- An e-mail with no account gets no reply at all.

The evident intent is the opposite: returning Google users sign in, and new ones are created.
The model follows the code as written.

## Model

| member | source | states |
|---|---|---|
| JsStrings.Utf16Length | server.js:70-79 | `.length` counts UTF-16 code units: between the character count and twice it, and equal to it exactly when no character lies outside the Basic Multilingual Plane |
| JsStrings.FindFrom | server.js:171 | `indexOf` of a non-empty pattern finds an occurrence with none before it, or reports that the pattern occurs nowhere |
| JsStrings.BeforeFirstSpec | server.js:52-54 | `split("@")[0]` is the longest prefix holding no `@`: all of the string, or the text that an `@` follows |
| JsStrings.ReplaceFirstAbsent | server.js:171 | `replace` (replacement free of `$`, as `"s384-c"` is) with a pattern that does not occur returns the string unchanged |
| JsStrings.ReplaceFirstAt | server.js:171 | `replace` with a replacement free of `$` (as `"s384-c"` is) swaps only the first occurrence, inserting the replacement literally, and keeps what surrounds it; the length changes by the difference of the two strings' lengths |
| Patterns.EmailSplitGivesMatch | server.js:29 | every string that the anchored e-mail pattern matches passes the matcher |
| Patterns.MatchGivesEmailSplit | server.js:29 | every string that the matcher accepts splits into local part, `@`, domain, `.` and a 2-6 letter label as the pattern requires |
| Patterns.MatchesEmailIsPattern | server.js:29 | the e-mail matcher accepts exactly the language of `emailRegex` |
| Patterns.EmailPatternShape | server.js:29 | an accepted e-mail holds exactly one `@`, after a non-empty local part of `[A-Za-z0-9._-]`, and ends in `.` followed by 2 to 6 ASCII letters |
| Patterns.LookaheadIsHas | server.js:30 | in a string of password characters, a lookahead `(?=.*[P])` holds exactly when a character of class P occurs |
| Patterns.MatchesPasswordIsPattern | server.js:30 | the password matcher accepts exactly the language of `passwordRegex` |
| Patterns.PasswordPatternShape | server.js:30 | a password matches exactly when it has at least 8 characters, all from `[A-Za-z0-9@$!%*?&]`, including a lower-case letter, an upper-case letter, a digit and one of `@$!%*?&`; its `.length` then equals its character count |
| Users.FormatDataToSendSpec | server.js:38-49 | the payload's token is the signature over the id alone; two users get the same payload exactly when they agree on the signed id, picture, username and full name |
| Users.GenerateUsernameSpec | server.js:51-63 | the username starts from the text before the first `@`; a free name is used unchanged; a taken name gets exactly the first four nanoid characters appended; a failed lookup fails the call |
| Users.GenerateUsernameAsksOnce | server.js:55-59 | the store is asked about the base name only: stores that agree on it yield the same username |
| Users.GenerateUsernameMayCollide | server.js:59-61 | the suffixed name is never re-checked, so a name the store already holds can be returned |
| Handlers.MessageDistinct | server.js:70-84 | each of the five sign-up failures has its own message |
| Handlers.ValidateSignUpSpec | server.js:70-84 | checks run in order and the first failure wins: fullname under 3 code units, then empty e-mail ("required", not "invalid"), then e-mail pattern, then password under 8 code units (never the complexity message), then password pattern; the request passes exactly when all five hold |
| Handlers.ValidateSignUpAccepts | server.js:70-84 | "Ann Lee", "a@b.com", "Abcdef1!" passes every check |
| Handlers.ValidatePasswordSamples | server.js:79-84 | "wrong" gets the length message; four emoji (eight code units) pass the length check and get the complexity message |
| Handlers.ValidateEmailSample | server.js:76-78 | "a@b" gets "Invalid email" |
| Handlers.SignUpRejectsEarly | server.js:70-86 | a request failing a check gets 403 with that check's message, and nothing is written, whatever hashing, the store or nanoid would have answered |
| Handlers.SignUpUsernameIsLocalPart | server.js:91 | for a request that passes the checks, the username starts with the e-mail's whole local part, which is non-empty and of `[A-Za-z0-9._-]` |
| Handlers.SignUpOutcomes | server.js:86-109 | the written record carries the request's fullname and e-mail, the hash, the derived username and no Google flag; a save answers 200 with the stored record's username, fullname, picture and a token for its id; code 11000 answers 500 "Email already exists"; other errors answer 500 "Internal server error"; a failed username lookup writes nothing and never answers |
| Handlers.SignInOutcomes | server.js:123-141 | no user answers 403 "User not found for this email"; a Google account answers 403 "Please login with Google"; a compare error answers 500; a mismatch answers 403 "Invalid password"; a 200 comes exactly from a password account whose hash matches, and carries that account's payload; a failed lookup never answers |
| Handlers.SignInGoogleSkipsCompare | server.js:128-140 | for a Google account the answer does not depend on the password comparison |
| Handlers.SignUpThenSignIn | server.js:93-136 | once sign-up's record is stored, signing in with the same e-mail and a matching password answers 200 with the same picture, username and full name and a token signed for the same id |
| Handlers.UpscalePictureAbsent | server.js:171 | a picture URL without "s96-c" is unchanged |
| Handlers.UpscalePictureFirst | server.js:171 | only the first "s96-c" becomes "s384-c" and the URL grows by exactly one character |
| Handlers.GoogleAuthFailures | server.js:167-205 | a token that fails verification or carries no picture gets 500 "Failed to authenticate with Google, Try Again Later" and writes nothing |
| Handlers.GoogleAuthOutcomes | server.js:170-201 | as coded: a failed lookup gets 500 with the error's message; no account gets no reply and no record; a password account gets 403 and no record; a Google account gets a new `google_auth` record with the token's name and e-mail, the username `generateUsername` derived and the rewritten picture, then 200 with that record's payload after a successful save or 500 with the error's message after a failed one; a failed username lookup gets 500 "Failed to authenticate with Google, Try Again Later"; a record is written exactly when a Google account was found and the username lookup succeeded |
| Handlers.GoogleUserCannotSignIn | server.js:128-140 | a record created by Google sign-in always gets 403 "Please login with Google" at sign-in, whatever the password |
| Handlers.LocalUserCannotUseGoogle | server.js:179-181 | a record created by sign-up gets 403 at Google sign-in, and no record is written |

The functions these lemmas are about model the following source lines:

- `ValidateSignUp`: lines 70-84.
- `SignUp`: lines 66-118.
- `SignIn`: lines 120-145.
- `GoogleAuth`: lines 164-206.
- `GenerateUsername`: lines 51-63.
- `FormatDataToSend`: lines 38-49.
- `UpscalePicture`: line 171.
- `Stored`, the document `save()` resolves with: lines 102-103 and 193-195.
- `MatchesEmail`: line 29.
- `MatchesPassword`: line 30.

## Left out

- Express setup, CORS, `server.listen`, `mongoose.connect` and Firebase initialisation (lines 18-36 and 208-210) are process and network setup.
- bcrypt hashing (lines 86-89) is foreign cryptography. The hash is an input. The ignored `err` of its callback, which would store an undefined hash, is not modelled.
- bcrypt comparison (line 129) is the `compare` parameter.
- `jwt.sign` (line 40) is the `sign` parameter, a function of the id alone. The real library also adds an `iat` claim holding the current time, so two tokens signed for the same id at different moments differ; the clock is not modelled, and where a lemma equates two tokens it means tokens signed for the same id. The token has no expiry, so none is modelled.
- Firebase `verifyIdToken` (lines 167-169) is the `verify` parameter. Only a missing `picture` claim is modelled; the `email` and `name` claims are taken to be present strings.
- nanoid randomness (line 59) is an input string.
- The Mongoose store is modelled only through its answers. `Schema/User.js` is not part of this model, so its defaults (the default picture) are an input and no uniqueness constraint is assumed beyond the handling of error code 11000. Concurrent requests and their races are not modelled.
- Stored: the document `save()` resolves with is taken to be the draft, field for field, under the store's id and with the default picture where none was set. Schema setters or casts (`lowercase`, `trim` and the like) that could rewrite a field on save are not modelled, so the payload fields that the sign-up and Google lemmas equate with the request's are equal only under that assumption.
- The `.select(...)` projection at line 172 is not modelled: the found record is whole, and the handler reads only `google_auth`.
- Strings holding unpaired UTF-16 surrogates, which `express.json()` accepts from escapes such as `"\ud800"`, are outside the model: a Dafny `char` is a Unicode scalar value and cannot hold a lone surrogate. `Utf16Length` and the regular-expression lemmas therefore cover well-formed strings only. Such an input would still behave as the lemmas describe: each lone half counts one code unit and belongs to none of the patterns' classes.
- `replace` expands `$&`, `$$`, `` $` `` and `$'` in its replacement string, and `indexOf` with an empty pattern clamps its start index; neither is modelled, because server.js:171 replaces with `"s384-c"` searching from index 0 for the non-empty `"s96-c"`.
- Request bodies are taken to carry string fields; other values are not modelled. An `undefined` or `null` field throws a TypeError at its `.length` (lines 70-79), which Express answers with 500. A number or boolean has no `length`, so `undefined < 3` and `undefined < 8` are false and those length checks pass, while `!email.length` is true and such an e-mail gets "Email is required"; the regular expressions then test the value's string form.
- After a failed `findOne` (lines 175-177) or a failed `save` (lines 196-200) in the Google handler, only the first reply (500 with the error's message) is modelled. The handler then tries a second reply, which throws `ERR_HTTP_HEADERS_SENT`, and the outer `.catch` throws again; those effects are not modelled.
- An unhandled rejection is modelled as `NoReply`: a failed `findOne` at sign-in, or a failed username lookup at sign-up. Node's default of terminating the process on such a rejection is not modelled.
- The commented-out sign-in checks (lines 147-159) are dead code.
- Users.GenerateUsernameSpec: states the four-character suffix only when nanoid returns at least four characters (its default length is 21). With a shorter string, `substring` clamps and the whole string is appended.
- `Take` counts Dafny characters where `substring` counts UTF-16 code units; nanoid's alphabet (`A-Za-z0-9_-`) is ASCII, so the two agree at line 59.
