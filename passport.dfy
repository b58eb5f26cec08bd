/**
 * The Google OAuth strategy and the session (de)serialisers of
 * server/src/config/passport.ts. Passport itself, the OAuth redirects and the
 * access and refresh tokens are not modelled: the strategy's verify callback
 * receives the profile Google returned.
 */
module Passport {
  import opened Wrappers
  import opened ObjectIds
  import opened UserModel
  import opened AuthRoutes

  /** The parts of a Google profile the callback reads: `profile.id` and `profile.emails?.[0]?.value`. */
  datatype GoogleProfile = GoogleProfile(id: string, email: Option<string>)

  /** What the callback hands to `done`: an account, or an error. */
  datatype Done = DoneUser(id: UserId, user: User) | DoneError

  /**
   * The verify callback: an account holding the Google id is returned as it
   * is; otherwise an account with the profile's email is linked (its Google id
   * overwritten, its email marked verified); otherwise a verified federated
   * account is created. A profile without an email matches no account, and
   * creating one then fails the required email rule.
   */
  method GoogleStrategyVerify(db: UserCollection, profile: GoogleProfile, now: nat, hash: string -> string)
    returns (d: Done)
    requires db.Valid() && IsPasswordHash(hash)
    modifies db
    ensures db.Valid()
    ensures d.DoneUser? ==> d.id in db.users && d.user == db.users[d.id] && d.user.googleId == Some(profile.id)
    ensures profile.id != "" && profile.email.Some? && NormalizeEmail(profile.email.value) != "" ==> d.DoneUser?
    ensures StrategyEffect(old(db.users), old(db.nextId), db.users, db.nextId, profile, now, d)
  {
    var byGoogle := db.FindByGoogleId(profile.id);
    if byGoogle.Some? {
      return DoneUser(byGoogle.value, db.users[byGoogle.value]);
    }
    var byEmail: Option<UserId> := None;
    if profile.email.Some? {
      byEmail := db.FindByEmail(profile.email.value);
    }
    if byEmail.Some? {
      var id := byEmail.value;
      var user := db.users[id];
      user := user.(googleId := Some(profile.id));
      user := user.(isEmailVerified := true);
      assert user == LinkGoogle(db.users[id], profile.id);
      LinkAdmitted(db.users, id, profile.id);
      var saved := db.Save(id, user, now);
      if !saved {
        return DoneError;
      }
      return DoneUser(id, db.users[id]);
    }
    var created := db.Insert(NewGoogleUser(profile.email.GetOr(""), profile.id), hash, now);
    if created.None? {
      return DoneError;
    }
    return DoneUser(created.value, db.users[created.value]);
  }

  /** Linking a Google id that no account holds violates no index. */
  lemma LinkAdmitted(users: map<UserId, User>, id: UserId, sub: string)
    requires EmailsUnique(users) && id in users && !HasGoogleId(users, sub)
    ensures IndexesAdmit(users, id, LinkGoogle(users[id], sub))
  {
  }

  /** The callback's effect, from the collection before to after. */
  ghost predicate StrategyEffect(users: map<UserId, User>, nextId: UserId, users': map<UserId, User>,
                                 nextId': UserId, profile: GoogleProfile, now: nat, d: Done)
  {
    if HasGoogleId(users, profile.id) then
      users' == users && nextId' == nextId && d.DoneUser? && d.id in users && d.user == users[d.id]
    else if profile.email.Some? && HasEmail(users, NormalizeEmail(profile.email.value)) then
      var id := OwnerOf(users, NormalizeEmail(profile.email.value));
      var linked := LinkGoogle(users[id], profile.id);
      nextId' == nextId &&
      if HasCredential(linked) then
        users' == users[id := linked.(updatedAt := now)] && d == DoneUser(id, linked.(updatedAt := now))
      else
        users' == users && d == DoneError
    else
      var created := NewGoogleUser(profile.email.GetOr(""), profile.id);
      if CreationValid(created) && IndexesAdmit(users, nextId, created) then
        && users' == users[nextId := created.(createdAt := now, updatedAt := now)] && nextId' == nextId + 1
        && d == DoneUser(nextId, created.(createdAt := now, updatedAt := now))
      else
        users' == users && nextId' == nextId && d == DoneError
  }

  /** `serializeUser`: the session stores the account's id as a string, which casts back to the id. */
  function SerializeUser(id: UserId): (s: string)
    ensures ParseId(s) == Some(id)
  {
    ParseIdString(id);
    IdString(id)
  }

  /**
   * `deserializeUser`: a string that is not an id is an error, an unknown id
   * yields no account, and a known one its account.
   */
  function DeserializeUser(users: map<UserId, User>, s: string): (r: Lookup)
    ensures r.CastError? <==> ParseId(s).None?
    ensures r.Missing? <==> ParseId(s).Some? && ParseId(s).value !in users
    ensures r.Found? ==> ParseId(s) == Some(r.id) && r.id in users && r.user == users[r.id]
  {
    FindById(users, s)
  }

  /** A session written by serializeUser reads back the same account while it exists. */
  lemma SessionRoundTrip(users: map<UserId, User>, id: UserId)
    ensures DeserializeUser(users, SerializeUser(id)) == if id in users then Found(id, users[id]) else Missing
  {
    FindByIdString(users, id);
  }
}
