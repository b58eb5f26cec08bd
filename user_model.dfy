/**
 * The account record (server/src/models/User.ts): its fields, the setters and
 * validators of its schema, the pre-save hook that hashes the password,
 * comparePassword, and the collection of accounts with its unique indexes.
 */
module UserModel {
  import opened Wrappers
  import opened Text
  import opened ObjectIds

  type UserId = nat

  const MinPasswordLength: nat := 6
  const MinNameLength: nat := 2
  const MaxNameLength: nat := 50
  const MinimumAge: nat := 13
  const MsPerDay: nat := 24 * 60 * 60 * 1000

  // ---------------------------------------------------------------------------
  // Calendar dates, for the dateOfBirth validator
  // ---------------------------------------------------------------------------

  /** A local calendar instant: year, month 1..12, day of month, milliseconds into the day. */
  datatype CalendarTime = CalendarTime(year: int, month: int, day: int, msOfDay: int)

  predicate IsLeapYear(y: int) {
    (y % 4 == 0 && y % 100 != 0) || y % 400 == 0
  }

  function DaysInMonth(year: int, month: int): int {
    if month == 2 then (if IsLeapYear(year) then 29 else 28)
    else if month == 4 || month == 6 || month == 9 || month == 11 then 30
    else 31
  }

  predicate WellFormedTime(t: CalendarTime) {
    1 <= t.month <= 12 && 1 <= t.day <= DaysInMonth(t.year, t.month) && 0 <= t.msOfDay < MsPerDay
  }

  /** Chronological order of two instants (the validator's `date <= minAge`). */
  predicate NotAfter(a: CalendarTime, b: CalendarTime) {
    || a.year < b.year
    || (a.year == b.year && a.month < b.month)
    || (a.year == b.year && a.month == b.month && a.day < b.day)
    || (a.year == b.year && a.month == b.month && a.day == b.day && a.msOfDay <= b.msOfDay)
  }

  /**
   * `minAge.setFullYear(minAge.getFullYear() - 13)` on the current instant: the
   * same month, day and time of day 13 years earlier, where a 29 February that
   * the earlier year lacks becomes 1 March.
   */
  function MinAgeCutoff(today: CalendarTime): (c: CalendarTime)
    ensures WellFormedTime(today) ==> WellFormedTime(c)
    ensures c.year == today.year - MinimumAge && c.msOfDay == today.msOfDay
  {
    var y := today.year - MinimumAge;
    if today.month == 2 && today.day == 29 && !IsLeapYear(y) then CalendarTime(y, 3, 1, today.msOfDay)
    else CalendarTime(y, today.month, today.day, today.msOfDay)
  }

  /** The dateOfBirth validator: the account holder is at least 13 years old at `today`. */
  predicate DateOfBirthValid(dob: CalendarTime, today: CalendarTime) {
    NotAfter(dob, MinAgeCutoff(today))
  }

  /**
   * On a non-leap-day, a person born exactly 13 years earlier to the
   * millisecond is accepted, and one born a millisecond later the same day is not.
   */
  lemma ThirteenthBirthdayAccepted(today: CalendarTime)
    requires WellFormedTime(today) && !(today.month == 2 && today.day == 29)
    ensures DateOfBirthValid(today.(year := today.year - MinimumAge), today)
    ensures today.msOfDay + 1 < MsPerDay ==>
      && WellFormedTime(today.(year := today.year - MinimumAge, msOfDay := today.msOfDay + 1))
      && !DateOfBirthValid(today.(year := today.year - MinimumAge, msOfDay := today.msOfDay + 1), today)
  {
  }

  /** On 29 February the cutoff is 1 March 13 years earlier, a year that is never a leap year. */
  lemma {:induction false} LeapDayCutoff(today: CalendarTime)
    requires today.month == 2 && today.day == 29 && IsLeapYear(today.year)
    ensures MinAgeCutoff(today) == CalendarTime(today.year - MinimumAge, 3, 1, today.msOfDay)
  {
    var y := today.year;
    assert y % 4 == 0 by {
      if y % 400 == 0 { ModFour(y, 100 * (y / 400), 0); }
    }
    ModFour(y - 13, y / 4 - 4, 3);
    ModFour(y - 13, 100 * ((y - 13) / 400), (y - 13) % 400);
  }

  /** Adding a multiple of four leaves the remainder modulo four unchanged. */
  lemma ModFour(m: int, k: int, r: int)
    requires m == 4 * k + r
    ensures m % 4 == r % 4
  {
  }

  /** Anyone born no later than an accepted date of birth is accepted too. */
  lemma OlderIsAccepted(older: CalendarTime, dob: CalendarTime, today: CalendarTime)
    requires NotAfter(older, dob) && DateOfBirthValid(dob, today)
    ensures DateOfBirthValid(older, today)
  {
  }

  // ---------------------------------------------------------------------------
  // The record and its schema
  // ---------------------------------------------------------------------------

  /**
   * The value the email path can hold. Its setters run on every assignment, so
   * a document's email is always lowercase and trimmed.
   */
  type EmailKey = s: string | IsLowercase(s) && IsTrimmed(s)

  /** An account: the schema's paths; the timestamps are milliseconds of the server clock. */
  datatype User = User(
    name: Option<string>,
    email: EmailKey,
    dateOfBirth: Option<CalendarTime>,
    password: Option<string>,
    googleId: Option<string>,
    isEmailVerified: bool,
    otp: Option<string>,
    otpExpires: Option<nat>,
    createdAt: nat,
    updatedAt: nat)

  /** An optional string that is set and non-empty: how JavaScript tests such a field. */
  predicate Present(s: Option<string>) {
    s.Some? && s.value != ""
  }

  /** The email path's setters, `lowercase` then `trim`; they also run on query filters. */
  function NormalizeEmail(e: string): (r: EmailKey)
    ensures IsLowercase(r) && IsTrimmed(r)
    ensures |r| <= |e|
    ensures r == "" <==> Blank(e)
  {
    assert Blank(Lower(e)) <==> Blank(e);
    TrimKeepsLowercase(Lower(e));
    Trim(Lower(e))
  }

  /** Normalising a normalised address changes nothing. */
  lemma NormalizeEmailIdempotent(e: string)
    ensures NormalizeEmail(NormalizeEmail(e)) == NormalizeEmail(e)
  {
    var n := NormalizeEmail(e);
    LowerOfLowercase(n);
    TrimmedIsFixpoint(n);
  }

  /** Two addresses that differ only in the case of ASCII letters normalise alike, so each finds the other's account. */
  lemma NormalizeEmailIgnoresCase(a: string, b: string)
    requires |a| == |b| && forall i :: 0 <= i < |a| ==> LowerChar(a[i]) == LowerChar(b[i])
    ensures NormalizeEmail(a) == NormalizeEmail(b)
  {
    assert Lower(a) == Lower(b);
  }

  /** A capitalised address normalises to the stored lowercase form. */
  lemma CapitalisedAddressNormalised()
    ensures NormalizeEmail("A@x.com") == "a@x.com"
  {
    var lowered := Lower("A@x.com");
    assert lowered == "a@x.com" by {
      assert lowered[0] == LowerChar('A');
    }
    TrimmedIsFixpoint(lowered);
  }

  /** A stored email is its own query key: `findOne({ email: u.email })` looks for exactly that address. */
  lemma StoredEmailIsItsOwnKey(u: User)
    ensures NormalizeEmail(u.email) == u.email
  {
    LowerOfLowercase(u.email);
    TrimmedIsFixpoint(u.email);
  }

  /** The name path's setter, `trim`. */
  function NormalizeName(raw: string): string {
    Trim(raw)
  }

  /** minlength 2 and maxlength 50 on the (trimmed) name. */
  predicate NameValid(name: string) {
    MinNameLength <= |name| <= MaxNameLength
  }

  /** A name of whitespace only is rejected, and surrounding whitespace never counts toward the length. */
  lemma NameValidity(raw: string)
    ensures Blank(raw) ==> !NameValid(NormalizeName(raw))
    ensures NameValid(NormalizeName(raw)) ==> NameValid(NormalizeName(NormalizeName(raw)))
  {
    TrimIdempotent(raw);
  }

  /** minlength 6 on the password path; Mongoose skips it when no password is set. */
  predicate PasswordLengthValid(password: Option<string>) {
    password.None? || |password.value| >= MinPasswordLength
  }

  /** The rule the schema means to enforce: an account can be reached by a Google id or a password. */
  predicate HasCredential(u: User) {
    Present(u.googleId) || Present(u.password)
  }

  /**
   * The same rule as the schema declares it: a custom validator on the
   * password path, and Mongoose runs a path's validators (other than
   * `required`) only when the path holds a value.
   */
  predicate PasswordValidatorAsWritten(u: User) {
    u.password.None? || Present(u.googleId) || Present(u.password)
  }

  /** An account with neither a password nor a Google id passes the validator as declared. */
  lemma CredentiallessAccountPassesAsWritten(u: User)
    requires u.password.None? && u.googleId.None?
    ensures PasswordValidatorAsWritten(u) && !HasCredential(u)
  {
  }

  /** The validators run when a new account is saved, all but the date-of-birth one. */
  predicate CreationValid(u: User) {
    && u.email != ""
    && (u.name.Some? ==> NameValid(u.name.value))
    && PasswordLengthValid(u.password)
    && HasCredential(u)
  }

  /** All of the schema's validators. */
  predicate SchemaValid(u: User, today: CalendarTime) {
    CreationValid(u) && (u.dateOfBirth.Some? ==> DateOfBirthValid(u.dateOfBirth.value, today))
  }

  /** `new User({ email, password, googleId, isEmailVerified })`: setters run, absent paths stay unset. */
  function NewUser(email: string, password: Option<string>, googleId: Option<string>,
                   isEmailVerified: Option<bool>): User
  {
    User(None, NormalizeEmail(email), None, password, googleId, isEmailVerified.GetOr(false),
         None, None, 0, 0)
  }

  /** A new account is unverified unless the creator says otherwise, holds a normalised email and no OTP. */
  lemma NewUserDefaults(email: string, password: Option<string>, googleId: Option<string>)
    ensures var u := NewUser(email, password, googleId, None);
      && !u.isEmailVerified && u.otp.None? && u.otpExpires.None?
      && u.email == NormalizeEmail(email) && NormalizeEmail(u.email) == u.email
      && u.password == password && u.googleId == googleId
  {
    NormalizeEmailIdempotent(email);
  }

  /** For the records the server creates (no date of birth), the creation validators are the whole schema. */
  lemma CreationValidIsSchemaValid(u: User, today: CalendarTime)
    requires u.dateOfBirth.None?
    ensures SchemaValid(u, today) <==> CreationValid(u)
  {
  }

  // ---------------------------------------------------------------------------
  // Password hashing
  // ---------------------------------------------------------------------------

  /** What the model assumes of bcrypt: distinct passwords hash apart and a hash is never empty. */
  ghost predicate IsPasswordHash(hash: string -> string) {
    && (forall a, b :: hash(a) == hash(b) ==> a == b)
    && (forall p :: hash(p) != "")
  }

  /** The pre-save hook: hash the password when that path was modified and is non-empty. */
  function PreSave(u: User, passwordModified: bool, hash: string -> string): User {
    if !passwordModified || !Present(u.password) then u
    else u.(password := Some(hash(u.password.value)))
  }

  /** The hook changes the password path and nothing else, and rehashes nothing unless it was modified. */
  lemma PreSaveTouchesOnlyPassword(u: User, passwordModified: bool, hash: string -> string)
    ensures PreSave(u, passwordModified, hash) == u.(password := PreSave(u, passwordModified, hash).password)
    ensures !passwordModified ==> PreSave(u, passwordModified, hash) == u
    ensures !Present(u.password) ==> PreSave(u, passwordModified, hash) == u
  {
  }

  /** Hashing keeps an account reachable. */
  lemma PreSaveKeepsCredential(u: User, passwordModified: bool, hash: string -> string)
    requires IsPasswordHash(hash) && HasCredential(u)
    ensures HasCredential(PreSave(u, passwordModified, hash))
  {
    if passwordModified && Present(u.password) {
      assert hash(u.password.value) != "";
    }
  }

  /** comparePassword: false when no password is stored, else whether the candidate hashes to it. */
  function ComparePassword(u: User, candidate: string, hash: string -> string): (r: bool)
    ensures r ==> Present(u.password)
  {
    if !Present(u.password) then false else hash(candidate) == u.password.value
  }

  /** After the hook hashed password p, comparePassword accepts p and nothing else. */
  lemma HashedPasswordMatchesOnlyItself(u: User, candidate: string, hash: string -> string)
    requires IsPasswordHash(hash) && Present(u.password)
    ensures ComparePassword(PreSave(u, true, hash), candidate, hash) <==> candidate == u.password.value
  {
    var stored := PreSave(u, true, hash);
    assert stored.password == Some(hash(u.password.value));
    assert hash(u.password.value) != "";
    if hash(candidate) == hash(u.password.value) {
      assert candidate == u.password.value;
    }
  }

  // ---------------------------------------------------------------------------
  // The collection and its indexes
  // ---------------------------------------------------------------------------

  ghost predicate HasEmail(users: map<UserId, User>, email: string) {
    exists id :: id in users && users[id].email == email
  }

  ghost predicate HasGoogleId(users: map<UserId, User>, googleId: string) {
    exists id :: id in users && users[id].googleId == Some(googleId)
  }

  /** No two accounts share an email (the unique index on email). */
  ghost predicate EmailsUnique(users: map<UserId, User>) {
    forall a, b :: a in users && b in users && users[a].email == users[b].email ==> a == b
  }

  /** No two accounts share a set Google id (the intended sparse unique index on googleId). */
  ghost predicate GoogleIdsUnique(users: map<UserId, User>) {
    forall a, b ::
      (a in users && b in users && Present(users[a].googleId) && users[a].googleId == users[b].googleId) ==> a == b
  }

  /** Storing u under id violates neither the email index nor a sparse unique googleId index. */
  predicate IndexesAdmit(users: map<UserId, User>, id: UserId, u: User) {
    && (forall other :: other in users && other != id ==> users[other].email != u.email)
    && (Present(u.googleId) ==>
          forall other :: other in users && other != id ==> users[other].googleId != u.googleId)
  }

  /** The indexes as declared: only email is unique; `sparse: true` alone adds no uniqueness. */
  predicate IndexesAdmitAsWritten(users: map<UserId, User>, id: UserId, u: User) {
    forall other :: other in users && other != id ==> users[other].email != u.email
  }

  /** A save the indexes admit keeps both uniqueness properties. */
  lemma IndexesKeepUniqueness(users: map<UserId, User>, id: UserId, u: User)
    requires EmailsUnique(users) && GoogleIdsUnique(users) && IndexesAdmit(users, id, u)
    ensures EmailsUnique(users[id := u]) && GoogleIdsUnique(users[id := u])
  {
  }

  /**
   * With the indexes as declared, linking a Google id that another account
   * already holds is admitted, and two accounts then share it: for any two
   * distinct emails and any non-empty Google id.
   */
  lemma SharedGoogleIdAdmittedAsWritten(emailA: EmailKey, emailB: EmailKey, g: string)
    requires emailA != emailB && g != ""
    ensures var a := User(None, emailA, None, None, Some(g), true, None, None, 0, 0);
            var b := User(None, emailB, None, Some("secret1"), None, false, None, None, 0, 0);
            var users := map[0 := a, 1 := b];
            var linked := b.(googleId := Some(g), isEmailVerified := true);
            && EmailsUnique(users) && GoogleIdsUnique(users)
            && IndexesAdmitAsWritten(users, 1, linked)
            && !GoogleIdsUnique(users[1 := linked])
            && !IndexesAdmit(users, 1, linked)
  {
    var a := User(None, emailA, None, None, Some(g), true, None, None, 0, 0);
    var b := User(None, emailB, None, Some("secret1"), None, false, None, None, 0, 0);
    var linked := b.(googleId := Some(g), isEmailVerified := true);
    var users := map[0 := a, 1 := b];
    assert users[0] == a && users[1] == b;
    var after := users[1 := linked];
    assert after[0].googleId == after[1].googleId;
  }

  /** Two writes to the same key leave the second. */
  lemma UpdateTwice(m: map<UserId, User>, k: UserId, a: User, b: User)
    ensures m[k := a][k := b] == m[k := b]
  {
  }

  /** Saving a stored account again with its email and Google id unchanged is always admitted. */
  lemma ResaveAdmitted(users: map<UserId, User>, id: UserId, u: User)
    requires EmailsUnique(users) && GoogleIdsUnique(users) && id in users
    requires u.email == users[id].email && u.googleId == users[id].googleId
    ensures IndexesAdmit(users, id, u)
  {
  }

  /** The account holding an email, when there is one (unique when EmailsUnique holds). */
  ghost function OwnerOf(users: map<UserId, User>, email: string): (id: UserId)
    requires HasEmail(users, email)
    ensures id in users && users[id].email == email
  {
    var id :| id in users && users[id].email == email; id
  }

  /** What every stored account satisfies. */
  ghost predicate StoredRecord(u: User) {
    u.email != "" && HasCredential(u)
  }

  /** The result of `findById`. */
  datatype Lookup = CastError | Missing | Found(id: UserId, user: User)

  /** `User.findById(s)`: cast the string to an id (failing when it is none), then look it up. */
  function FindById(users: map<UserId, User>, s: string): Lookup {
    match ParseId(s)
    case None => CastError
    case Some(id) => if id in users then Found(id, users[id]) else Missing
  }

  /** Looking an account up by the string form of its id finds exactly that account. */
  lemma FindByIdString(users: map<UserId, User>, id: UserId)
    ensures FindById(users, IdString(id)) == if id in users then Found(id, users[id]) else Missing
  {
    ParseIdString(id);
  }

  /** The `User` model: the stored accounts and the next id to assign. */
  class UserCollection {
    var users: map<UserId, User>
    var nextId: UserId

    ghost predicate Valid()
      reads this
    {
      && (forall id :: id in users ==> id < nextId)
      && EmailsUnique(users)
      && GoogleIdsUnique(users)
      && (forall id :: id in users ==> StoredRecord(users[id]))
    }

    constructor ()
      ensures Valid() && users == map[] && nextId == 0
    {
      users := map[];
      nextId := 0;
    }

    /** `User.findOne({ email })`; the filter value goes through the email setters. */
    method FindByEmail(email: string) returns (r: Option<UserId>)
      ensures r.Some? ==> r.value in users && users[r.value].email == NormalizeEmail(email)
      ensures r.None? ==> !HasEmail(users, NormalizeEmail(email))
    {
      r := FindByEmailKey(NormalizeEmail(email));
    }

    /** The scan behind `findOne({ email })`, for an already normalised key. */
    method FindByEmailKey(key: string) returns (r: Option<UserId>)
      ensures r.Some? ==> r.value in users && users[r.value].email == key
      ensures r.None? ==> !HasEmail(users, key)
    {
      var pending := users.Keys;
      while pending != {}
        invariant pending <= users.Keys
        invariant forall id :: id in users && id !in pending ==> users[id].email != key
        decreases pending
      {
        var id :| id in pending;
        if users[id].email == key {
          return Some(id);
        }
        pending := pending - {id};
      }
      return None;
    }

    /** `User.findOne({ googleId })`. */
    method FindByGoogleId(googleId: string) returns (r: Option<UserId>)
      ensures r.Some? ==> r.value in users && users[r.value].googleId == Some(googleId)
      ensures r.None? ==> !HasGoogleId(users, googleId)
    {
      var pending := users.Keys;
      while pending != {}
        invariant pending <= users.Keys
        invariant forall id :: id in users && id !in pending ==> users[id].googleId != Some(googleId)
        decreases pending
      {
        var id :| id in pending;
        if users[id].googleId == Some(googleId) {
          return Some(id);
        }
        pending := pending - {id};
      }
      return None;
    }

    /**
     * `save()` of a new document: the validators run, then the pre-save hook
     * (the password of a new document counts as modified), then the insert,
     * which the unique indexes may refuse. On success the account gets the next
     * id and both timestamps.
     */
    method Insert(u: User, hash: string -> string, now: nat) returns (r: Option<UserId>)
      requires Valid() && IsPasswordHash(hash)
      requires u.dateOfBirth.None?
      modifies this
      ensures Valid()
      ensures r.Some? <==> CreationValid(u) && IndexesAdmit(old(users), old(nextId), u)
      ensures r.Some? ==> && r.value == old(nextId) && r.value !in old(users)
                          && nextId == old(nextId) + 1
                          && users == old(users)[r.value := PreSave(u, true, hash).(createdAt := now, updatedAt := now)]
      ensures r.None? ==> users == old(users) && nextId == old(nextId)
    {
      if !CreationValid(u) || !IndexesAdmit(users, nextId, u) {
        return None;
      }
      var stored := PreSave(u, true, hash);
      PreSaveKeepsCredential(u, true, hash);
      stored := stored.(createdAt := now, updatedAt := now);
      assert IndexesAdmit(users, nextId, stored);
      IndexesKeepUniqueness(users, nextId, stored);
      users := users[nextId := stored];
      r := Some(nextId);
      nextId := nextId + 1;
    }

    /**
     * `save()` of an existing document. The required rules (email, and a
     * credential as the schema intends) and the unique indexes apply; the
     * pre-save hook leaves the record alone because the core never modifies a
     * stored password; updatedAt becomes now.
     */
    method Save(id: UserId, u: User, now: nat) returns (ok: bool)
      requires Valid() && id in users && u.email == users[id].email
      modifies this
      ensures Valid() && nextId == old(nextId)
      ensures ok <==> HasCredential(u) && IndexesAdmit(old(users), id, u)
      ensures users == if ok then old(users)[id := u.(updatedAt := now)] else old(users)
    {
      ok := HasCredential(u) && IndexesAdmit(users, id, u);
      if ok {
        var stored := u.(updatedAt := now);
        IndexesKeepUniqueness(users, id, stored);
        users := users[id := stored];
      }
    }
  }
}
