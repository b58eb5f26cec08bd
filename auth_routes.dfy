/**
 * The authentication routes of server/src/routes/auth.ts as transitions of
 * the account collection: register, sign-in, send-otp, verify-otp and the
 * direct Google verification. Each handler fetches an account, changes its
 * fields step by step and saves it back.
 *
 * Inputs standing for what the model does not run: `emailIsValid` is
 * express-validator's isEmail verdict on the address (the address passed is
 * the one normalizeEmail produced); `code` is the freshly generated OTP;
 * `now` is Date.now() in milliseconds; `delivered` is whether sending the OTP
 * email succeeded; `hash` is bcrypt; `verifyIdToken` is Google's check of a
 * credential.
 */
module AuthRoutes {
  import opened Wrappers
  import opened Text
  import opened ObjectIds
  import opened UserModel
  import opened Session

  /** `10 * 60 * 1000`: an OTP is valid for ten minutes. */
  const OtpLifetimeMs: nat := 10 * 60 * 1000
  /** `isLength({ min: 6, max: 6 })` on the submitted OTP. */
  const OtpLength: nat := 6

  datatype Failure =
    | ValidationErrors
    | UserAlreadyExists
    | UserNotFound
    | InvalidOtp
    | OtpExpired
    | CredentialRequired
    | InvalidGoogleToken
    | Internal

  /** The `user` object of a successful authentication reply. */
  datatype PublicUser = PublicUser(id: UserId, email: string, isEmailVerified: bool)

  datatype Reply =
    | Registered(userId: UserId)
    | OtpSent(userId: UserId)
    | OtpResent
    | SignedIn(token: Claims, user: PublicUser)
    | Failed(error: Failure)

  /** The HTTP status of a reply: 201 for a registration, 500 for an internal failure, 400 for every other failure. */
  function StatusCode(r: Reply): (code: nat)
    ensures code == 500 <==> r == Failed(Internal)
    ensures code == 201 <==> r.Registered?
    ensures r.Failed? && r.error != Internal ==> code == 400
    ensures !r.Failed? && !r.Registered? ==> code == 200
  {
    match r
    case Registered(_) => 201
    case Failed(e) => if e == Internal then 500 else 400
    case _ => 200
  }

  // ---------------------------------------------------------------------------
  // The OTP on an account record
  // ---------------------------------------------------------------------------

  /** Issuing a code: `user.otp = otp; user.otpExpires = now + 10 minutes`. */
  function WithOtp(u: User, code: string, now: nat): User {
    u.(otp := Some(code), otpExpires := Some(now + OtpLifetimeMs))
  }

  datatype OtpCheck = CodeMismatch | CodeExpired | CodeAccepted

  /** The two checks of verify-otp, in their order: the code matches, then it has not expired. */
  function CheckOtp(u: User, submitted: string, now: nat): OtpCheck {
    if !Present(u.otp) || u.otp.value != submitted then CodeMismatch
    else if u.otpExpires.None? || u.otpExpires.value < now then CodeExpired
    else CodeAccepted
  }

  /** A successful verification: the email is verified and both OTP fields are cleared. */
  function MarkVerified(u: User): User {
    u.(isEmailVerified := true, otp := None, otpExpires := None)
  }

  /** A code is accepted exactly when it is the stored one and its expiry has not passed. */
  lemma CheckOtpAccepts(u: User, submitted: string, now: nat)
    ensures CheckOtp(u, submitted, now) == CodeAccepted <==>
      u.otp == Some(submitted) && submitted != "" && u.otpExpires.Some? && now <= u.otpExpires.value
  {
  }

  /** A wrong code is reported as wrong whatever the expiry: the code is checked first. */
  lemma MismatchBeforeExpiry(u: User, submitted: string, now: nat)
    requires u.otp != Some(submitted)
    ensures CheckOtp(u, submitted, now) == CodeMismatch
  {
  }

  /** A code issued at `issued` is accepted up to and including its expiry instant, and expired after it. */
  lemma IssuedCodeWindow(u: User, code: string, issued: nat, now: nat)
    requires code != ""
    ensures now <= issued + OtpLifetimeMs ==> CheckOtp(WithOtp(u, code, issued), code, now) == CodeAccepted
    ensures now > issued + OtpLifetimeMs ==> CheckOtp(WithOtp(u, code, issued), code, now) == CodeExpired
  {
  }

  /** Issuing again replaces the code and its expiry: the earlier code is then refused. */
  lemma ReissueSupersedes(u: User, first: string, second: string, t1: nat, t2: nat, now: nat)
    requires first != second
    ensures WithOtp(WithOtp(u, first, t1), second, t2) == WithOtp(u, second, t2)
    ensures CheckOtp(WithOtp(WithOtp(u, first, t1), second, t2), first, now) == CodeMismatch
  {
  }

  /** After a successful verification no code is pending, so replaying it (or any code) fails. */
  lemma VerificationIsSingleUse(u: User, submitted: string, now: nat)
    ensures CheckOtp(MarkVerified(u), submitted, now) == CodeMismatch
    ensures MarkVerified(u).isEmailVerified
  {
  }

  // ---------------------------------------------------------------------------
  // The records the handlers create
  // ---------------------------------------------------------------------------

  /** The account register leaves behind: saved once with the hashed password, then again with the OTP. */
  function RegisteredAccount(email: string, password: string, code: string, now: nat,
                             hash: string -> string): User
  {
    WithOtp(PreSave(NewUser(email, Some(password), None, None), true, hash).(createdAt := now, updatedAt := now),
            code, now).(updatedAt := now)
  }

  /**
   * A registered account holds the normalised email, the hash of its password
   * (which comparePassword accepts and no other password matches), no Google
   * id, is unverified, and accepts its code for ten minutes.
   */
  lemma RegisteredAccountShape(email: string, password: string, code: string, now: nat,
                               hash: string -> string, candidate: string, later: nat)
    requires IsPasswordHash(hash) && password != "" && code != ""
    ensures var u := RegisteredAccount(email, password, code, now, hash);
      && u.email == NormalizeEmail(email)
      && u.password == Some(hash(password))
      && (ComparePassword(u, candidate, hash) <==> candidate == password)
      && u.googleId.None? && !u.isEmailVerified
      && u.createdAt == now && u.updatedAt == now
      && (later <= now + OtpLifetimeMs ==> CheckOtp(u, code, later) == CodeAccepted)
  {
    var initial := NewUser(email, Some(password), None, None);
    var hashed := PreSave(initial, true, hash);
    var base := hashed.(createdAt := now, updatedAt := now);
    var u := RegisteredAccount(email, password, code, now, hash);
    assert u == WithOtp(base, code, now).(updatedAt := now);
    assert u.password == hashed.password;
    HashedPasswordMatchesOnlyItself(initial, candidate, hash);
    assert ComparePassword(u, candidate, hash) == ComparePassword(hashed, candidate, hash);
    IssuedCodeWindow(base, code, now, later);
  }

  /** Linking Google to an account found by email (in /google/verify and in the passport strategy). */
  function LinkGoogle(u: User, sub: string): User {
    u.(googleId := Some(sub), isEmailVerified := true)
  }

  /** A federated-only account: email, Google id, verified, no password. */
  function NewGoogleUser(email: string, sub: string): User {
    NewUser(email, None, Some(sub), Some(true))
  }

  /** A federated account is verified, holds the Google id and the normalised email, and has no password. */
  lemma NewGoogleUserShape(email: string, sub: string, hash: string -> string, now: nat)
    ensures var u := NewGoogleUser(email, sub);
      && u.isEmailVerified && u.googleId == Some(sub) && u.password.None?
      && u.email == NormalizeEmail(email) && NormalizeEmail(u.email) == u.email
      && PreSave(u, true, hash) == u
      && (Present(Some(sub)) && u.email != "" ==> CreationValid(u))
  {
    NormalizeEmailIdempotent(email);
  }

  // ---------------------------------------------------------------------------
  // Handlers
  // ---------------------------------------------------------------------------

  /** POST /register. */
  method Register(db: UserCollection, emailIsValid: bool, email: string, password: string, code: string,
                  now: nat, hash: string -> string, delivered: bool) returns (r: Reply)
    requires db.Valid() && IsPasswordHash(hash)
    modifies db
    ensures db.Valid()
    ensures !emailIsValid || |password| < MinPasswordLength ==>
      r == Failed(ValidationErrors) && db.users == old(db.users) && db.nextId == old(db.nextId)
    ensures emailIsValid && |password| >= MinPasswordLength && HasEmail(old(db.users), NormalizeEmail(email)) ==>
      r == Failed(UserAlreadyExists) && db.users == old(db.users) && db.nextId == old(db.nextId)
    ensures emailIsValid && |password| >= MinPasswordLength && !HasEmail(old(db.users), NormalizeEmail(email))
            && NormalizeEmail(email) == "" ==>
      r == Failed(Internal) && db.users == old(db.users) && db.nextId == old(db.nextId)
    ensures emailIsValid && |password| >= MinPasswordLength && !HasEmail(old(db.users), NormalizeEmail(email))
            && NormalizeEmail(email) != "" ==>
      && old(db.nextId) !in old(db.users)
      && db.nextId == old(db.nextId) + 1
      && db.users == old(db.users)[old(db.nextId) := RegisteredAccount(email, password, code, now, hash)]
      && r == (if delivered then Registered(old(db.nextId)) else Failed(Internal))
  {
    if !emailIsValid || |password| < MinPasswordLength {
      return Failed(ValidationErrors);
    }
    var existing := db.FindByEmail(email);
    if existing.Some? {
      return Failed(UserAlreadyExists);
    }
    var created := CreateAccountWithOtp(db, email, password, code, now, hash);
    if created.None? {
      return Failed(Internal);
    }
    // sendOTP runs after the save: a failed delivery leaves the code stored.
    if !delivered {
      return Failed(Internal);
    }
    return Registered(created.value);
  }

  /** Register's writes: insert the new account, which hashes its password, then save it again with its code. */
  method CreateAccountWithOtp(db: UserCollection, email: string, password: string, code: string, now: nat,
                              hash: string -> string) returns (created: Option<UserId>)
    requires db.Valid() && IsPasswordHash(hash) && |password| >= MinPasswordLength
    requires !HasEmail(db.users, NormalizeEmail(email))
    modifies db
    ensures db.Valid()
    ensures created.None? <==> NormalizeEmail(email) == ""
    ensures created.None? ==> db.users == old(db.users) && db.nextId == old(db.nextId)
    ensures created.Some? ==>
      && created.value == old(db.nextId) && created.value !in old(db.users)
      && db.nextId == old(db.nextId) + 1
      && db.users == old(db.users)[created.value := RegisteredAccount(email, password, code, now, hash)]
  {
    var account := NewUser(email, Some(password), None, None);
    NewPasswordAccountAdmitted(db.users, db.nextId, email, password);
    created := db.Insert(account, hash, now);
    if created.None? {
      return;
    }
    var id := created.value;
    ghost var inserted := db.users;
    ghost var registered := RegisteredAccount(email, password, code, now, hash);
    assert inserted[id] == PreSave(account, true, hash).(createdAt := now, updatedAt := now);
    StoreOtp(db, id, code, now);
    assert WithOtp(inserted[id], code, now).(updatedAt := now) == registered;
    UpdateTwice(old(db.users), id, inserted[id], registered);
  }

  /** A new password account for a free email passes the indexes, and the validators exactly when its email is not blank. */
  lemma NewPasswordAccountAdmitted(users: map<UserId, User>, nextId: UserId, email: string, password: string)
    requires !HasEmail(users, NormalizeEmail(email)) && |password| >= MinPasswordLength
    ensures IndexesAdmit(users, nextId, NewUser(email, Some(password), None, None))
    ensures CreationValid(NewUser(email, Some(password), None, None)) <==> NormalizeEmail(email) != ""
    ensures NewUser(email, Some(password), None, None).dateOfBirth.None?
  {
  }

  /** Lines shared by register, signin and send-otp: put a fresh code and its expiry on a stored account and save it. */
  method StoreOtp(db: UserCollection, id: UserId, code: string, now: nat)
    requires db.Valid() && id in db.users
    modifies db
    ensures db.Valid() && db.nextId == old(db.nextId)
    ensures db.users == old(db.users)[id := WithOtp(old(db.users)[id], code, now).(updatedAt := now)]
  {
    var user := db.users[id];
    user := user.(otp := Some(code));
    user := user.(otpExpires := Some(now + OtpLifetimeMs));
    ResaveAdmitted(db.users, id, user);
    assert HasCredential(user) by {
      assert StoredRecord(db.users[id]);
    }
    var saved := db.Save(id, user, now);
    assert saved;
  }

  /** Sign-in and send-otp share this: find the account by email and overwrite its code. */
  method IssueOtp(db: UserCollection, email: string, code: string, now: nat) returns (found: Option<UserId>)
    requires db.Valid()
    modifies db
    ensures db.Valid() && db.nextId == old(db.nextId)
    ensures found.None? ==> !HasEmail(old(db.users), NormalizeEmail(email)) && db.users == old(db.users)
    ensures found.Some? ==>
      && HasEmail(old(db.users), NormalizeEmail(email))
      && found.value == OwnerOf(old(db.users), NormalizeEmail(email))
      && db.users == old(db.users)[found.value := WithOtp(old(db.users)[found.value], code, now).(updatedAt := now)]
  {
    found := db.FindByEmail(email);
    if found.None? {
      return;
    }
    StoreOtp(db, found.value, code, now);
  }

  /** POST /signin: only an existing account gets a code; sign-in never creates one. */
  method SignIn(db: UserCollection, emailIsValid: bool, email: string, code: string, now: nat,
                delivered: bool) returns (r: Reply)
    requires db.Valid()
    modifies db
    ensures db.Valid() && db.nextId == old(db.nextId)
    ensures !emailIsValid ==> r == Failed(ValidationErrors) && db.users == old(db.users)
    ensures emailIsValid && !HasEmail(old(db.users), NormalizeEmail(email)) ==>
      r == Failed(UserNotFound) && db.users == old(db.users)
    ensures emailIsValid && HasEmail(old(db.users), NormalizeEmail(email)) ==>
      var id := OwnerOf(old(db.users), NormalizeEmail(email));
      && db.users == old(db.users)[id := WithOtp(old(db.users)[id], code, now).(updatedAt := now)]
      && r == (if delivered then OtpSent(id) else Failed(Internal))
  {
    if !emailIsValid {
      return Failed(ValidationErrors);
    }
    var found := IssueOtp(db, email, code, now);
    if found.None? {
      return Failed(UserNotFound);
    }
    if !delivered {
      return Failed(Internal);
    }
    return OtpSent(found.value);
  }

  /** POST /send-otp: the same transition as sign-in, with a reply that carries no id. */
  method SendOtp(db: UserCollection, emailIsValid: bool, email: string, code: string, now: nat,
                 delivered: bool) returns (r: Reply)
    requires db.Valid()
    modifies db
    ensures db.Valid() && db.nextId == old(db.nextId)
    ensures !emailIsValid ==> r == Failed(ValidationErrors) && db.users == old(db.users)
    ensures emailIsValid && !HasEmail(old(db.users), NormalizeEmail(email)) ==>
      r == Failed(UserNotFound) && db.users == old(db.users)
    ensures emailIsValid && HasEmail(old(db.users), NormalizeEmail(email)) ==>
      var id := OwnerOf(old(db.users), NormalizeEmail(email));
      && db.users == old(db.users)[id := WithOtp(old(db.users)[id], code, now).(updatedAt := now)]
      && r == (if delivered then OtpResent else Failed(Internal))
  {
    if !emailIsValid {
      return Failed(ValidationErrors);
    }
    var found := IssueOtp(db, email, code, now);
    if found.None? {
      return Failed(UserNotFound);
    }
    if !delivered {
      return Failed(Internal);
    }
    return OtpResent;
  }

  /** POST /verify-otp: on success the account is verified, its code is spent and a token is issued. */
  method VerifyOtp(db: UserCollection, emailIsValid: bool, email: string, otp: string, now: nat)
    returns (r: Reply)
    requires db.Valid()
    modifies db
    ensures db.Valid() && db.nextId == old(db.nextId)
    ensures !emailIsValid || |otp| != OtpLength ==> r == Failed(ValidationErrors) && db.users == old(db.users)
    ensures emailIsValid && |otp| == OtpLength && !HasEmail(old(db.users), NormalizeEmail(email)) ==>
      r == Failed(UserNotFound) && db.users == old(db.users)
    ensures emailIsValid && |otp| == OtpLength && HasEmail(old(db.users), NormalizeEmail(email)) ==>
      var id := OwnerOf(old(db.users), NormalizeEmail(email));
      var u := old(db.users)[id];
      && (CheckOtp(u, otp, now) == CodeMismatch ==> r == Failed(InvalidOtp) && db.users == old(db.users))
      && (CheckOtp(u, otp, now) == CodeExpired ==> r == Failed(OtpExpired) && db.users == old(db.users))
      && (CheckOtp(u, otp, now) == CodeAccepted ==>
            && db.users == old(db.users)[id := MarkVerified(u).(updatedAt := now)]
            && r == SignedIn(GenerateToken(id, u.email, now), PublicUser(id, u.email, true)))
  {
    if !emailIsValid || |otp| != OtpLength {
      return Failed(ValidationErrors);
    }
    var found := db.FindByEmail(email);
    if found.None? {
      return Failed(UserNotFound);
    }
    var id := found.value;
    var user := db.users[id];
    if !Present(user.otp) || user.otp.value != otp {
      return Failed(InvalidOtp);
    }
    if user.otpExpires.None? || user.otpExpires.value < now {
      return Failed(OtpExpired);
    }
    user := user.(isEmailVerified := true);
    user := user.(otp := None);
    user := user.(otpExpires := None);
    ResaveAdmitted(db.users, id, user);
    var saved := db.Save(id, user, now);
    assert saved;
    var token := GenerateToken(id, user.email, now);
    return SignedIn(token, PublicUser(id, user.email, user.isEmailVerified));
  }

  /** The outcome of Google's check of a credential: it throws, or yields a possibly missing payload. */
  datatype GooglePayload = GooglePayload(sub: string, email: Option<string>)
  datatype TicketCheck = TicketRejected | Ticket(payload: Option<GooglePayload>)

  /**
   * POST /google/verify. The account is looked up by email only. One found
   * with no Google id gets the credential's subject and becomes verified; one
   * that already has a Google id is used as it is, that id never overwritten.
   * Without an account a verified federated one is created.
   */
  method GoogleVerify(db: UserCollection, credential: Option<string>, verifyIdToken: string -> TicketCheck,
                      now: nat, hash: string -> string) returns (r: Reply)
    requires db.Valid() && IsPasswordHash(hash)
    modifies db
    ensures db.Valid()
    ensures !Present(credential) ==>
      r == Failed(CredentialRequired) && db.users == old(db.users) && db.nextId == old(db.nextId)
    ensures Present(credential) && verifyIdToken(credential.value).TicketRejected? ==>
      r == Failed(Internal) && db.users == old(db.users) && db.nextId == old(db.nextId)
    ensures Present(credential) && verifyIdToken(credential.value).Ticket? ==>
      var ticket := verifyIdToken(credential.value);
      && (ticket.payload.None? || !Present(ticket.payload.value.email) ==>
            r == Failed(InvalidGoogleToken) && db.users == old(db.users) && db.nextId == old(db.nextId))
      && (ticket.payload.Some? && Present(ticket.payload.value.email) ==>
            GoogleVerifyEffect(old(db.users), old(db.nextId), db.users, db.nextId,
                               ticket.payload.value.sub, ticket.payload.value.email.value, now, r))
  {
    if !Present(credential) {
      return Failed(CredentialRequired);
    }
    var ticket := verifyIdToken(credential.value);
    if ticket.TicketRejected? {
      return Failed(Internal);
    }
    if ticket.payload.None? || !Present(ticket.payload.value.email) {
      return Failed(InvalidGoogleToken);
    }
    var payload := ticket.payload.value;
    var email := payload.email.value;
    var found := db.FindByEmail(email);
    ghost var before := db.users;
    var id: UserId;
    if found.Some? {
      id := found.value;
      var user := db.users[id];
      if !Present(user.googleId) {
        user := user.(googleId := Some(payload.sub));
        user := user.(isEmailVerified := true);
        var saved := db.Save(id, user, now);
        if !saved {
          return Failed(Internal);
        }
      }
    } else {
      NewGoogleUserShape(email, payload.sub, hash, now);
      var created := db.Insert(NewGoogleUser(email, payload.sub), hash, now);
      if created.None? {
        return Failed(Internal);
      }
      id := created.value;
    }
    var account := db.users[id];
    r := SignedIn(GenerateToken(id, account.email, now), PublicUser(id, account.email, account.isEmailVerified));
  }

  /** What /google/verify does with a verified payload `{ sub, email }`, from the collection before to after. */
  ghost predicate GoogleVerifyEffect(users: map<UserId, User>, nextId: UserId, users': map<UserId, User>,
                                     nextId': UserId, sub: string, email: string, now: nat, r: Reply)
  {
    var key := NormalizeEmail(email);
    if HasEmail(users, key) then
      var id := OwnerOf(users, key);
      var u := users[id];
      nextId' == nextId &&
      if Present(u.googleId) then
        users' == users && r == SignedIn(GenerateToken(id, u.email, now), PublicUser(id, u.email, u.isEmailVerified))
      else if HasCredential(LinkGoogle(u, sub)) && IndexesAdmit(users, id, LinkGoogle(u, sub)) then
        && users' == users[id := LinkGoogle(u, sub).(updatedAt := now)]
        && r == SignedIn(GenerateToken(id, u.email, now), PublicUser(id, u.email, true))
      else
        users' == users && r == Failed(Internal)
    else
      var created := NewGoogleUser(email, sub);
      if CreationValid(created) && IndexesAdmit(users, nextId, created) then
        && users' == users[nextId := created.(createdAt := now, updatedAt := now)] && nextId' == nextId + 1
        && r == SignedIn(GenerateToken(nextId, created.email, now), PublicUser(nextId, created.email, true))
      else
        users' == users && nextId' == nextId && r == Failed(Internal)
  }
}
