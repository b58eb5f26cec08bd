# Notes app server: authentication and notes, modelled in Dafny

This project models the server side of a notes application. An Express API issues one-time passcodes (OTPs) by email, links Google accounts, mints 7-day JWT session tokens, authenticates requests by token, and stores per-user notes in MongoDB through Mongoose. What is modelled:

- The `User` model (`server/src/models/User.ts`): the fields, the `lowercase`/`trim` setters on email, the name, password and date-of-birth validators, the pre-save hashing hook, `comparePassword`, and the unique index on email. Bcrypt is an abstract injective hash. Mongoose's collection is the class `UserModel.UserCollection`, a map from id to record whose methods write it.
- The authentication routes (`server/src/routes/auth.ts`): `/register`, `/signin`, `/send-otp`, `/verify-otp`, `/google/verify` and `generateToken`. Each is a method over a `UserCollection`. The clock (`Date.now()`), the generated code, the isEmail verdict, the email delivery result and Google's `verifyIdToken` are parameters.
- The Google OAuth strategy's verify callback and passport's session (de)serialisers (`server/src/config/passport.ts`).
- The `authenticate` middleware (`server/src/middleware/auth.ts`):
  - header selection, then `jwt.verify` as a parameter that returns expired, invalid, or the verified claims;
  - the `id ?? userId` subject, then the account lookup;
  - finally attaching `req.user` and calling `next`.
- The `Note` schema (`server/src/models/Note.ts`) as a validity predicate, and the owner-scoped notes routes (`server/src/routes/notes.ts`) over the class `NotesRoutes.NoteCollection`.

Document ids are natural numbers. Their string form is their decimal digits. Casting a string that is not such a form fails, as casting a malformed ObjectId does.

Where the code and a prose description of the system disagree, the model follows the code. There is one exception: the two schema rules listed under Findings. The modelled store enforces those rules as the schema evidently intends, not as it declares them. Left out names the handlers whose answers differ as a result.

- `/register` reads only `email` and `password`; no name or date of birth is validated there.
- `/verify-otp` reports a missing code as "Invalid OTP". There is no separate "no code pending" outcome.
- `/verify-otp` accepts a code at exactly its expiry instant, since it fails only when `otpExpires < now`.
- `/google/verify` looks an account up by email only and never overwrites an existing Google id. The passport callback looks up by Google id first and overwrites the Google id of an account found by email.
- The googleId path is declared `sparse` but not `unique`, so the database enforces no Google-id uniqueness. See Findings.

## Model

| member | source | states |
|---|---|---|
| Text.Trim | server/src/middleware/auth.ts:26-28 | `String.prototype.trim`: the result is the slice of the input between its leading and trailing whitespace, everything removed is whitespace, the result is trimmed, and it is empty exactly when the input is blank |
| Text.TrimIdempotent | server/src/routes/notes.ts:28-33 | trimming a trimmed string changes nothing (the title setter after `title.trim()`) |
| Text.Lower | server/src/models/User.ts:30 | the lowercase setter keeps the length, and each character is lowercased as `LowerChar` states |
| Text.LowerChar | server/src/models/User.ts:30 | an ASCII capital becomes its lowercase letter (code point plus 32), and every other character is left as it is |
| Text.ReplaceLeadingOccurrence | server/src/middleware/auth.ts:26-27 | for a header starting with the prefix, `replace(prefix, '')` removes exactly that prefix |
| Text.IndexOfFrom | server/src/middleware/auth.ts:27 | the search for `replace` finds the first occurrence at or after the start, and no earlier one exists |
| ObjectIds.IdString | server/src/config/passport.ts:49-51 | an id's string form is a non-empty run of digits |
| ObjectIds.ParseIdString | server/src/config/passport.ts:49-58 | every id casts back from its string form to itself |
| ObjectIds.IdStringInjective | server/src/config/passport.ts:49-58 | distinct ids have distinct string forms |
| ObjectIds.DigitsValueOfIdString | server/src/config/passport.ts:49-58 | the digits of an id's string form have that id as their value |
| ObjectIds.ParseId | server/src/config/passport.ts:55 | the cast succeeds exactly on a non-empty run of digits, and yields their value; a string containing any other character fails |
| Session.GenerateToken | server/src/routes/auth.ts:13-19 | the claims carry the account id under `userId` (no `id`) and its email, `iat` is the issue time in whole seconds, and `exp` is seven days later |
| Session.CheckExpiry | server/src/routes/auth.ts:17 | the expiry test never calls a token invalid, and a token that passes keeps its claims |
| Session.TokenLifetime | server/src/routes/auth.ts:13-19 | a minted token passes the expiry test exactly while the clock is before seven days after its issue second |
| Session.TokenAcceptedWithinWindow | server/src/routes/auth.ts:17 | a minted token is accepted at every instant of its first seven days minus one second |
| UserModel.MinAgeCutoff | server/src/models/User.ts:36-41 | the cutoff is 13 years before today at the same time of day, and a well-formed date gives a well-formed cutoff |
| UserModel.ThirteenthBirthdayAccepted | server/src/models/User.ts:36-41 | someone born exactly 13 years ago to the millisecond passes, and one millisecond later fails |
| UserModel.LeapDayCutoff | server/src/models/User.ts:38-39 | on 29 February, `setFullYear` rolls the cutoff to 1 March 13 years earlier |
| UserModel.OlderIsAccepted | server/src/models/User.ts:40 | anyone born no later than an accepted date of birth is accepted |
| UserModel.NormalizeEmail | server/src/models/User.ts:26-32 | a normalised email has no capital and no surrounding whitespace, is no longer than the input, and is empty exactly when the input is blank (which the required rule then refuses); its result type `EmailKey` is the type of every record's email |
| UserModel.NormalizeEmailIgnoresCase | server/src/models/User.ts:30 | two addresses that differ only in the case of ASCII letters normalise to the same key, so a lookup with either finds the same account |
| UserModel.CapitalisedAddressNormalised | server/src/models/User.ts:30-31 | `"A@x.com"` normalises to `"a@x.com"` |
| UserModel.StoredEmailIsItsOwnKey | server/src/models/User.ts:30-31 | normalising a stored email gives back that email, so a filter on it searches for exactly that address |
| UserModel.NormalizeEmailIdempotent | server/src/models/User.ts:30-31 | normalising an already normalised email changes nothing, so the setters on a query filter find stored emails |
| UserModel.NameValidity | server/src/models/User.ts:20-25 | a blank name fails the 2-50 length rule, and the trim setter is stable on a valid name |
| UserModel.CredentiallessAccountPassesAsWritten | server/src/models/User.ts:45-55 | an account with neither password nor googleId passes the password validator as declared, without having a credential |
| UserModel.NewUserDefaults | server/src/models/User.ts:60-63 | a new account is unverified, has no OTP, holds the normalised email, and keeps the given password and googleId |
| UserModel.CreationValidIsSchemaValid | server/src/models/User.ts:33-44 | without a date of birth the full schema check is the creation check |
| UserModel.PreSaveTouchesOnlyPassword | server/src/models/User.ts:77-78 | the hook changes only the password, and nothing when the password is unmodified or empty |
| UserModel.PreSaveKeepsCredential | server/src/models/User.ts:77-83 | hashing keeps an account with a credential reachable |
| UserModel.ComparePassword | server/src/models/User.ts:90-93 | a match implies a stored, non-empty password |
| UserModel.HashedPasswordMatchesOnlyItself | server/src/models/User.ts:77-93 | after the hook hashed password p, comparePassword accepts p and no other candidate |
| UserModel.IndexesKeepUniqueness | server/src/models/User.ts:29 | a write the email index and a sparse-unique googleId index admit keeps both emails and Google ids unique |
| UserModel.SharedGoogleIdAdmittedAsWritten | server/src/models/User.ts:56-59 | with the indexes as declared, for any two distinct emails and any non-empty Google id g, linking g to the second account while the first holds it is admitted, and the two accounts then share g |
| UserModel.ResaveAdmitted | server/src/models/User.ts:29 | re-saving a stored account with its email and Google id unchanged is never refused by an index |
| UserModel.FindByIdString | server/src/config/passport.ts:55 | `findById` on an id's string form finds exactly that account, or none |
| UserModel.UserCollection.constructor | server/src/models/User.ts:99 | the collection starts empty and valid |
| UserModel.UserCollection.FindByEmail | server/src/models/User.ts:30-31 | `findOne({ email })` normalises the filter, returns an account holding the normalised email, or reports that none exists |
| UserModel.UserCollection.FindByEmailKey | server/src/routes/auth.ts:39 | the scan returns an account with the key as its email, or none exists |
| UserModel.UserCollection.FindByGoogleId | server/src/config/passport.ts:15 | `findOne({ googleId })` returns an account with that Google id, or none exists |
| UserModel.UserCollection.Insert | server/src/models/User.ts:19-87 | saving a new document succeeds exactly when the creation validators and the indexes admit it; it then stores the hashed record with both timestamps under the next id, and otherwise changes nothing |
| UserModel.UserCollection.Save | server/src/models/User.ts:72-74 | saving an existing document succeeds exactly when it has a credential and the indexes admit it; it then stores it with `updatedAt = now` |
| AuthRoutes.StatusCode | server/src/routes/auth.ts:28-75 | 201 exactly for a registration, 500 exactly for an internal failure, 400 for every other failure, and 200 otherwise |
| AuthRoutes.CheckOtpAccepts | server/src/routes/auth.ts:203-217 | a code is accepted exactly when it equals the non-empty stored code and now is not past its expiry |
| AuthRoutes.MismatchBeforeExpiry | server/src/routes/auth.ts:203-208 | a wrong code is reported as invalid whatever the expiry |
| AuthRoutes.IssuedCodeWindow | server/src/routes/auth.ts:58 | an issued code is accepted up to and including ten minutes after issue, and is expired afterwards |
| AuthRoutes.ReissueSupersedes | server/src/routes/auth.ts:104-107 | issuing again overwrites code and expiry, and the earlier code is then refused |
| AuthRoutes.VerificationIsSingleUse | server/src/routes/auth.ts:220-223 | after success the account is verified and every code, the spent one included, is refused |
| AuthRoutes.RegisteredAccountShape | server/src/routes/auth.ts:48-59 | a registered account holds the normalised email and the hash of its password, which comparePassword accepts and nothing else matches; it has no Google id, is unverified, and accepts its code for ten minutes |
| AuthRoutes.NewGoogleUserShape | server/src/routes/auth.ts:330-334 | a federated account is verified, holds the Google id and the normalised email, has no password the hook would hash, and passes creation with a non-empty subject and email |
| AuthRoutes.NewPasswordAccountAdmitted | server/src/routes/auth.ts:39-53 | a password account for an email no account holds passes the indexes, and the validators exactly when the email is not blank |
| AuthRoutes.Register | server/src/routes/auth.ts:22-76 | validation errors and an existing email give 400 and change nothing; otherwise the account is stored with its hashed password and code, and delivery decides between 201 and 500 |
| AuthRoutes.CreateAccountWithOtp | server/src/routes/auth.ts:48-59 | the two saves leave exactly the registered account under the next id, and fail only for a blank email |
| AuthRoutes.StoreOtp | server/src/routes/auth.ts:104-107 | the stored account gets the new code, its ten-minute expiry and `updatedAt`, and nothing else changes |
| AuthRoutes.IssueOtp | server/src/routes/auth.ts:95-107 | without an account nothing changes; otherwise exactly that account's code is overwritten |
| AuthRoutes.SignIn | server/src/routes/auth.ts:79-124 | an unknown email gives "User not found" and creates nothing; a known one gets a fresh code and its id is returned |
| AuthRoutes.SendOtp | server/src/routes/auth.ts:127-171 | the same transition as sign-in, with a reply that carries no id |
| AuthRoutes.VerifyOtp | server/src/routes/auth.ts:174-246 | format errors, an unknown email, a wrong code and an expired code each fail and change nothing; success marks the account verified, clears its code, and returns its token and public view |
| AuthRoutes.GoogleVerify | server/src/routes/auth.ts:288-358 | a missing credential, a rejected credential, and a payload without email fail without change; otherwise the email lookup reuses the account, links a Google id only where none is set, or creates a verified federated account |
| Passport.GoogleStrategyVerify | server/src/config/passport.ts:12-45 | a Google-id match is returned unchanged; else an email match is linked and verified; else a federated account is created; every success returns an account whose googleId is the profile id, and a profile with an id and email always succeeds |
| Passport.LinkAdmitted | server/src/config/passport.ts:22-28 | linking a Google id no account holds violates no index |
| Passport.SerializeUser | server/src/config/passport.ts:49-51 | the session string casts back to the account id |
| Passport.DeserializeUser | server/src/config/passport.ts:53-60 | a string that is not an id is an error, an unknown id yields no account, and a known id yields its account |
| Passport.SessionRoundTrip | server/src/config/passport.ts:49-58 | deserialising a serialised id gives back the account while it exists |
| Middleware.FirstHeader | server/src/middleware/auth.ts:25 | the or-chain over two headers and `''` gives the first non-empty header, and is empty exactly when both are missing or empty |
| Middleware.TokenFromAuthorization | server/src/middleware/auth.ts:26-28 | with a "Bearer " prefix the rest is trimmed, otherwise the whole header is trimmed |
| Middleware.AlternativeToken | server/src/middleware/auth.ts:31 | the fallback token is empty exactly when the first non-empty of `x-access-token`/`token` is blank |
| Middleware.SelectToken | server/src/middleware/auth.ts:33 | a non-empty Authorization token wins, otherwise the fallback is used, and the token is empty exactly when both are |
| Middleware.ResolveSubject | server/src/middleware/auth.ts:62 | the subject is `id` whenever it is set, else `userId`, and is missing exactly when both are |
| Middleware.Authenticate | server/src/middleware/auth.ts:18-88 | every outcome (no token, expired, invalid, invalid payload, unknown user, authenticated) as an if-and-only-if on the token, the verifier's verdict and the store |
| Middleware.NoTokenSkipsVerification | server/src/middleware/auth.ts:35-40 | without a token the outcome does not depend on the verifier |
| Middleware.BearerTokenExtracted | server/src/middleware/auth.ts:26-27 | "Bearer " followed by a token yields the trimmed token |
| Middleware.BearerHeaderSelected | server/src/middleware/auth.ts:25-33 | a request whose only header is "Bearer t" presents t |
| Middleware.EmptyIdShadowsUserId | server/src/middleware/auth.ts:62-68 | a set but empty `id` claim shadows `userId`, and the token is refused as an invalid payload |
| Middleware.MintedTokenAuthenticates | server/src/middleware/auth.ts:18-80 | a token that generateToken minted for an existing account and sent as a bearer token authenticates as that account while unexpired |
| Middleware.AuthRequest.constructor | server/src/middleware/auth.ts:6-8 | a request starts with its headers and no attached user |
| Middleware.AuthenticateRequest | server/src/middleware/auth.ts:70-80 | `next` is called and the user attached exactly on success; on failure the request is unchanged |
| NoteModel.NewNote | server/src/models/Note.ts:12-31 | a new note has the trimmed title (empty exactly when blank), content defaulting to `''`, its owner, and both timestamps |
| NoteModel.InsertByNewest | server/src/routes/notes.ts:15 | inserting adds exactly the one note |
| NoteModel.InsertKeepsOrder | server/src/routes/notes.ts:15 | inserting keeps a sequence ordered newest first |
| NotesRoutes.ErrorStatus | server/src/routes/notes.ts:29-92 | 400 exactly for a missing title, 404 exactly for not found, 500 exactly for an internal failure |
| NotesRoutes.KeepUnlessBlank | server/src/routes/notes.ts:61-62 | a missing or blank value keeps the current one, otherwise the trimmed value replaces it |
| NotesRoutes.TrimmedOrEmpty | server/src/routes/notes.ts:34 | missing content becomes `''`, and present content becomes its trim |
| NotesRoutes.Revised | server/src/routes/notes.ts:61-63 | an update changes title, content and `updatedAt` as above and nothing else |
| NotesRoutes.FindOwned | server/src/routes/notes.ts:52-55 | a bad id fails the cast; a match exists exactly when the note exists and belongs to the caller |
| NotesRoutes.FindOwnedById | server/src/routes/notes.ts:99-102 | looking up a note by its id string finds it exactly when the caller owns it |
| NotesRoutes.NoteCollection.constructor | server/src/models/Note.ts:36 | the notes collection starts empty and valid |
| NotesRoutes.NoteCollection.List | server/src/routes/notes.ts:13-21 | the result is exactly the caller's notes, each once, ordered newest first |
| NotesRoutes.NoteCollection.Create | server/src/routes/notes.ts:24-44 | a missing or blank title gives 400 and adds nothing; otherwise the trimmed title, the trimmed content or `''`, and the caller as owner are stored under a new id when the length rules allow |
| NotesRoutes.NoteCollection.Update | server/src/routes/notes.ts:47-71 | a note that is missing or another user's gives 404 and nothing changes; otherwise exactly that note is revised |
| NotesRoutes.NoteCollection.Store | server/src/routes/notes.ts:65 | saving replaces exactly the one note |
| NotesRoutes.NoteCollection.Delete | server/src/routes/notes.ts:74-92 | a note that is missing or another user's gives 404; otherwise exactly that note is removed |
| NotesRoutes.NoteCollection.Get | server/src/routes/notes.ts:95-113 | a note is returned exactly when it exists and belongs to the caller, otherwise 404 (or 500 for a bad id) |
| NotesRoutes.OthersNotesHidden | server/src/routes/notes.ts:99-106 | another user's note is not found |
| NotesRoutes.DeleteKeepsOthers | server/src/routes/notes.ts:78-85 | deleting one note leaves every other note, and every other user's notes, unchanged |
| NotesRoutes.RevisedTitleTrimmed | server/src/models/Note.ts:16 | the title's trim setter leaves a revised title as it is |
| NotesRoutes.UpdateFallsBack | server/src/routes/notes.ts:61-62 | a blank field keeps the stored value, and a non-blank title replaces it, trimmed |

## Left out

- Lowercasing covers ASCII letters only. The model has no Unicode case mapping.
- String lengths count Dafny characters, not UTF-16 code units as JavaScript does.
- Dates of birth are compared as local calendar instants. Time zones and the conversion from milliseconds are not modelled.
- ObjectIds are natural numbers written in decimal, not 12-byte hexadecimal values.
- Concurrent requests are not modelled: each handler is one sequential transition. So are uniqueness races between simultaneous saves.
- The `/google` and `/google/callback` redirect routes and the URLs they build are I/O.
- OTP generation, email sending, bcrypt, `jwt.sign`/`jwt.verify`, Google's `verifyIdToken`, and express-validator's `isEmail`/`normalizeEmail` are parameters. Their internals, salts and signatures are not modelled.
- Console logging is not modelled.
- Passport.GoogleStrategyVerify: for a profile without an email, `findOne({ email: undefined })` is read as matching no account. Mongoose's treatment of an undefined filter value is not modelled.
- UserModel.UserCollection.Insert: enforces the corrected rules from Findings. It refuses a new account that has neither password nor Google id, and one whose Google id another account holds. The declared schema saves both.
- UserModel.UserCollection.Save: enforces the same corrected rules. It refuses a save that gives an account a Google id another account already holds, which the declared schema admits.
- AuthRoutes.GoogleVerify: because the store enforces the corrected rules, two inputs get a different answer from the source. A payload `sub` that another account already holds, and an empty `sub` on the create path, both answer `Failed(Internal)` (500) and change nothing. The source instead links or creates the account and answers 200.
- Passport.GoogleStrategyVerify: for the same reason, an empty `profile.id` can yield an error. That happens when the account it would create or link would then have neither a password nor a non-empty Google id. The source saves that account. A non-empty profile id is never held by another account at that point, because the Google-id lookup ran first.
- UserModel.UserCollection.Insert: requires the record to have no date of birth. No code in this core sets one, so the date-of-birth validator is modelled only as the predicate `DateOfBirthValid`.
- UserModel.UserCollection.Save: requires the email to be unchanged. No handler here reassigns a stored email.
- UserModel.UserCollection.Save: re-runs only the credential rule and the indexes on an existing record. It does not re-run the name and password length validators on paths the handlers never modify.
- NotesRoutes.NoteCollection.Update: does not apply the title's trim setter. NotesRoutes.RevisedTitleTrimmed proves that setter changes nothing there.
- Middleware.AuthenticateRequest: looks users up in a map rather than through the collection class. The middleware only reads the store.
- Middleware.Authenticate: does not model the outer catch for an error other than a failed cast. The store lookup is the only call there that can throw.

## Findings

| source | as written | input that shows it | evidently intended | confidence | as-written member | corrected member |
|---|---|---|---|---|---|---|
| server/src/models/User.ts:56-59 | `googleId` has `sparse: true` but no `unique: true`, so no index makes Google ids unique | account 0 holds googleId "g"; account 1 ("b@x.com") has none; `/google/verify` with payload `{ sub: "g", email: "b@x.com" }` links "g" to account 1 and the save is admitted | sparse uniqueness: at most one account per set Google id, as the comment says | not executed | UserModel.SharedGoogleIdAdmittedAsWritten | UserModel.IndexesKeepUniqueness |
| server/src/models/User.ts:45-55 | the "password or googleId" rule is a validator on the password path, and Mongoose skips a path's non-required validators when the path is unset | `new User({ email: "a@x.com" })` with neither password nor googleId passes validation and saves | every account has a password or a Google id | not executed | UserModel.CredentiallessAccountPassesAsWritten | UserModel.UserCollection.Insert |
