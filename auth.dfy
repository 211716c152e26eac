/** Authentication state: registration, sessions, the failed-login lockout
    and single-use password reset tokens, over in-memory tables. */
module Auth {
  import opened Common
  import opened Password
  import opened LoginAttempts
  import opened PasswordResets

  const SecondsPerMinute := 60
  const SecondsPerDay := 86400
  /** A reset token lives 24 hours. */
  const ResetLifetime := 24 * 3600
  /** The default `days_valid` of a session. */
  const DefaultSessionDays := 7

  const EmailTakenMessage := "Email already registered"
  const UnknownTokenMessage := "Invalid or expired reset token"
  const SpentTokenMessage := "Reset token has already been used or expired"
  const UserNotFoundMessage := "User not found"

  /** `LOCKOUT_SCHEDULE`: failed-attempt count to lockout minutes; counts
      above nine fall back to the entry for nine. */
  const LockoutSchedule: map<int, nat> := map[6 := 1, 7 := 5, 8 := 15, 9 := 30]

  /** The lockout that follows the `count`-th consecutive failure: none
      below six, then 1, 5, 15 and 30 minutes. */
  function LockoutMinutes(count: int): (m: Option<nat>)
    ensures m == None <==> count < 6
    ensures count == 6 ==> m == Some(1)
    ensures count == 7 ==> m == Some(5)
    ensures count == 8 ==> m == Some(15)
    ensures count >= 9 ==> m == Some(30)
  {
    if count >= 6 then
      Some(if count in LockoutSchedule then LockoutSchedule[count] else LockoutSchedule[9])
    else None
  }

  /** More failures never shorten the lockout. */
  lemma LockoutMonotone(c1: int, c2: int)
    requires 6 <= c1 <= c2
    ensures LockoutMinutes(c1).value <= LockoutMinutes(c2).value
  {
  }

  /** One row of `users`. */
  datatype User = User(
    id: Id,
    email: string,
    passwordHash: string,
    displayName: string,
    isAdmin: bool,
    createdAt: int,
    updatedAt: int)

  /** One row of `sessions`; `token` is unique across rows. */
  datatype Session = Session(
    id: Id,
    userId: Id,
    token: string,
    createdAt: int,
    expiresAt: int,
    userAgent: Option<string>,
    ipAddress: Option<string>)

  /** `register_user`'s normal form of an e-mail: `email.lower().strip()`. */
  function NormalizeEmail(email: string): (e: string)
    ensures Lower(e) == e
    ensures e == [] || (!IsSpace(e[0]) && !IsSpace(e[|e| - 1]))
  {
    StripKeepsLower(email);
    Strip(Lower(email))
  }

  /** The normal form is the lower-cased e-mail with only the whitespace
      around it removed: a contiguous piece of `Lower(email)` with nothing
      but whitespace before and after it. */
  lemma NormalizeEmailTrims(email: string) returns (i: nat)
    ensures i + |NormalizeEmail(email)| <= |email|
    ensures NormalizeEmail(email) == Lower(email)[i..i + |NormalizeEmail(email)|]
    ensures AllSpace(Lower(email)[..i]) && AllSpace(Lower(email)[i + |NormalizeEmail(email)|..])
  {
    i := StripIsSlice(Lower(email));
  }

  /** `_get_user_by_email`: compares `lower(users.email)` with
      `email.lower()`. */
  function FindUserByEmail(users: seq<User>, email: string): (r: Option<nat>)
    ensures r.Some? ==> r.value < |users| && Lower(users[r.value].email) == Lower(email)
    ensures r.Some? ==> forall j :: 0 <= j < r.value ==> Lower(users[j].email) != Lower(email)
    ensures r.None? <==> forall j :: 0 <= j < |users| ==> Lower(users[j].email) != Lower(email)
  {
    FirstIndex(users, (u: User) => Lower(u.email) == Lower(email))
  }

  function FindUserById(users: seq<User>, id: Id): (r: Option<nat>)
    ensures r.Some? ==> r.value < |users| && users[r.value].id == id
    ensures r.Some? ==> forall j :: 0 <= j < r.value ==> users[j].id != id
    ensures r.None? <==> forall j :: 0 <= j < |users| ==> users[j].id != id
  {
    FirstIndex(users, (u: User) => u.id == id)
  }

  function FindResetByHash(resets: seq<PasswordReset>, h: string): (r: Option<nat>)
    ensures r.Some? ==> r.value < |resets| && resets[r.value].tokenHash == h
    ensures r.Some? ==> forall j :: 0 <= j < r.value ==> resets[j].tokenHash != h
    ensures r.None? <==> forall j :: 0 <= j < |resets| ==> resets[j].tokenHash != h
  {
    FirstIndex(resets, (x: PasswordReset) => x.tokenHash == h)
  }

  /** The sessions that survive deleting every session of `userId`. */
  function SessionsNotOf(ss: seq<Session>, userId: Id): (r: seq<Session>)
    ensures |r| <= |ss|
    ensures forall s :: s in r <==> s in ss && s.userId != userId
  {
    if ss == [] then []
    else (if ss[0].userId != userId then [ss[0]] else []) + SessionsNotOf(ss[1..], userId)
  }

  lemma {:induction false} SessionsNotOfAppend(ss: seq<Session>, s: Session, userId: Id)
    ensures SessionsNotOf(ss + [s], userId)
         == SessionsNotOf(ss, userId) + (if s.userId != userId then [s] else [])
  {
    var t := ss + [s];
    var last := if s.userId != userId then [s] else [];
    if ss != [] {
      var head := if ss[0].userId != userId then [ss[0]] else [];
      assert t[0] == ss[0] && t[1..] == ss[1..] + [s];
      var rest := SessionsNotOf(ss[1..], userId);
      calc {
        SessionsNotOf(t, userId);
        head + SessionsNotOf(ss[1..] + [s], userId);
        { SessionsNotOfAppend(ss[1..], s, userId); }
        head + (rest + last);
        (head + rest) + last;
        SessionsNotOf(ss, userId) + last;
      }
    } else {
      assert t == [s] && t[1..] == [];
    }
  }

  /** The sessions that survive deleting the one whose token is `token`. */
  function SessionsWithoutToken(ss: seq<Session>, token: string): (r: seq<Session>)
    ensures |r| <= |ss|
    ensures forall s :: s in r <==> s in ss && s.token != token
  {
    if ss == [] then []
    else (if ss[0].token != token then [ss[0]] else []) + SessionsWithoutToken(ss[1..], token)
  }

  /** `_invalidate_user_reset_tokens` as a function of the table: every
      unused token of `userId` becomes used at `now`; nothing else moves. */
  function MarkUsed(rs: seq<PasswordReset>, userId: Id, now: int): (r: seq<PasswordReset>)
    ensures |r| == |rs|
    ensures forall i :: 0 <= i < |rs| ==> r[i].tokenHash == rs[i].tokenHash && r[i].id == rs[i].id
    ensures forall i :: 0 <= i < |rs| ==> r[i].userId == rs[i].userId && r[i].expiresAt == rs[i].expiresAt
    ensures forall i :: 0 <= i < |rs| && rs[i].userId == userId ==> r[i].used
    ensures forall i :: 0 <= i < |rs| && (rs[i].userId != userId || rs[i].used) ==> r[i] == rs[i]
  {
    if rs == [] then []
    else
      var x := rs[0];
      var y := if x.userId == userId && !x.used then x.(used := true, usedAt := Some(now)) else x;
      [y] + MarkUsed(rs[1..], userId, now)
  }

  lemma MarkUsedAppend(rs: seq<PasswordReset>, x: PasswordReset, userId: Id, now: int)
    ensures MarkUsed(rs + [x], userId, now)
         == MarkUsed(rs, userId, now)
            + [if x.userId == userId && !x.used then x.(used := true, usedAt := Some(now)) else x]
  {
    if rs != [] {
      assert (rs + [x])[1..] == rs[1..] + [x];
      MarkUsedAppend(rs[1..], x, userId, now);
    }
  }

  ghost predicate UniqueUsers(users: seq<User>)
  {
    forall i, j :: 0 <= i < j < |users| ==> users[i].id != users[j].id && users[i].email != users[j].email
  }

  ghost predicate UniqueTokens(ss: seq<Session>)
  {
    forall i, j :: 0 <= i < j < |ss| ==> ss[i].token != ss[j].token
  }

  ghost predicate UniqueTokenHashes(rs: seq<PasswordReset>)
  {
    forall i, j :: 0 <= i < j < |rs| ==> rs[i].tokenHash != rs[j].tokenHash
  }

  /** The lockout table is keyed by the lower-cased e-mail, every row has
      failed at least once, and a lockout is only ever set from the sixth
      failure on. */
  ghost predicate LockoutRowsOk(m: map<string, LoginAttempt>)
  {
    forall k :: k in m ==>
      m[k].email == k && Lower(k) == k && m[k].attemptCount >= 1
      && (m[k].lockedUntil.Some? ==> m[k].attemptCount >= 6)
  }

  /** The unique constraints and key conventions of the four tables, with
      every user id below the id counter. */
  ghost predicate TablesOk(users: seq<User>, sessions: seq<Session>, loginAttempts: map<string, LoginAttempt>,
                           resets: seq<PasswordReset>, nextId: nat)
  {
    && UniqueUsers(users)
    && (forall i :: 0 <= i < |users| ==> users[i].id < nextId && Lower(users[i].email) == users[i].email)
    && UniqueTokens(sessions)
    && LockoutRowsOk(loginAttempts)
    && UniqueTokenHashes(resets)
  }

  /** A successful reset (new hash for user `j`, token `k` spent, the
      user's sessions gone) keeps the tables' constraints. */
  lemma ResetKeepsTables(users: seq<User>, sessions: seq<Session>, loginAttempts: map<string, LoginAttempt>,
                         resets: seq<PasswordReset>, nextId: nat, j: nat, k: nat, newHash: string, now: int)
    requires TablesOk(users, sessions, loginAttempts, resets, nextId)
    requires j < |users| && k < |resets|
    ensures TablesOk(users[j := users[j].(passwordHash := newHash, updatedAt := now)],
                     SessionsNotOf(sessions, resets[k].userId), loginAttempts,
                     resets[k := resets[k].(used := true, usedAt := Some(now))], nextId)
  {
    SessionsNotOfKeepsUnique(sessions, resets[k].userId);
  }

  /** Spending a token leaves it the first row with its hash. */
  lemma SpentResetStaysFound(rs: seq<PasswordReset>, h: string, k: nat, now: int)
    requires FindResetByHash(rs, h) == Some(k)
    ensures FindResetByHash(rs[k := rs[k].(used := true, usedAt := Some(now))], h) == Some(k)
  {
    var rs' := rs[k := rs[k].(used := true, usedAt := Some(now))];
    assert forall q :: 0 <= q < k ==> rs'[q].tokenHash != h;
    assert rs'[k].tokenHash == h;
  }

  /** With unique ids, setting user `j`'s hash sets it for every row with
      that id. */
  lemma SetPasswordOnlyOwner(us: seq<User>, j: nat, newHash: string, now: int)
    requires UniqueUsers(us) && j < |us|
    ensures var us' := us[j := us[j].(passwordHash := newHash, updatedAt := now)];
      forall q :: 0 <= q < |us'| && us'[q].id == us[j].id ==> us'[q].passwordHash == newHash
  {
  }

  /** The tables behind `AuthService`. `hashToken` stands for SHA-256 of a
      reset token (`hash_token`). */
  class AuthStore {
    var users: seq<User>
    var sessions: seq<Session>
    var loginAttempts: map<string, LoginAttempt>
    var resets: seq<PasswordReset>
    var nextId: nat
    const hashToken: string -> string

    ghost predicate Valid()
      reads this
    {
      TablesOk(users, sessions, loginAttempts, resets, nextId)
    }

    constructor (hashToken: string -> string)
      ensures Valid()
      ensures users == [] && sessions == [] && loginAttempts == map[] && resets == []
      ensures this.hashToken == hashToken
    {
      users, sessions, loginAttempts, resets, nextId := [], [], map[], [], 0;
      this.hashToken := hashToken;
    }

    // ==================== Registration ====================

    /** `register_user`. The e-mail is normalised before anything else; a
        weak password or an e-mail already present (compared case-blind)
        fails without creating a user; the first user becomes admin.
        `passwordHash` is the bcrypt hash of `password`. */
    method RegisterUser(email: string, password: string, displayName: string, passwordHash: string, now: int)
      returns (user: Option<User>, error: Option<string>)
      requires Valid()
      modifies this
      ensures Valid()
      ensures sessions == old(sessions) && loginAttempts == old(loginAttempts) && resets == old(resets)
      ensures nextId == old(nextId) + (if user.Some? then 1 else 0)
      ensures user.Some? <==> error.None?
      ensures !Strong(password) ==>
        user == None && error == ValidatePasswordStrength(password).error && users == old(users)
      ensures Strong(password) && FindUserByEmail(old(users), NormalizeEmail(email)).Some? ==>
        user == None && error == Some(EmailTakenMessage) && users == old(users)
      ensures Strong(password) && FindUserByEmail(old(users), NormalizeEmail(email)).None? ==>
        && user == Some(User(old(nextId), NormalizeEmail(email), passwordHash, Strip(displayName),
                             old(users) == [], now, now))
        && users == old(users) + [user.value]
    {
      var e := NormalizeEmail(email);
      var strength := ValidatePasswordStrength(password);
      if !strength.isValid {
        return None, strength.error;
      }
      if FindUserByEmail(users, e).Some? {
        return None, Some(EmailTakenMessage);
      }
      var isFirstUser := |users| == 0;
      var u := User(nextId, e, passwordHash, Strip(displayName), isFirstUser, now, now);
      LowerIdempotent(e);
      users := users + [u];
      nextId := nextId + 1;
      user, error := Some(u), None;
    }

    // ==================== Login ====================

    /** `authenticate_user`: the user with that e-mail whose bcrypt hash
        accepts the password; `checkpw` stands for `bcrypt.checkpw`. */
    function AuthenticateUser(email: string, password: string, checkpw: (string, string) -> bool): (r: Option<User>)
      reads this
      ensures r.Some? ==> r.value in users && Lower(r.value.email) == Lower(email)
      ensures r.Some? ==> password != [] && checkpw(password, r.value.passwordHash)
      ensures FindUserByEmail(users, email).None? ==> r == None
      ensures forall i :: 0 <= i < |users| && Lower(users[i].email) == Lower(email)
                          && (forall j :: 0 <= j < i ==> Lower(users[j].email) != Lower(email))
                          ==> (r == Some(users[i]) <==> password != [] && checkpw(password, users[i].passwordHash))
    {
      match FindUserByEmail(users, email)
      case None => None
      case Some(i) =>
        if VerifyPassword(password, users[i].passwordHash, checkpw) then Some(users[i]) else None
    }

    /** `create_session`: a new session valid for `daysValid` days.
        `token` is the fresh value of `generate_session_token()`. */
    method CreateSession(userId: Id, token: string, now: int, daysValid: int,
                         userAgent: Option<string>, ipAddress: Option<string>)
      returns (s: Session)
      requires Valid()
      requires forall i :: 0 <= i < |sessions| ==> sessions[i].token != token
      modifies this
      ensures Valid()
      ensures users == old(users) && loginAttempts == old(loginAttempts) && resets == old(resets)
      ensures s == Session(old(nextId), userId, token, now, now + daysValid * SecondsPerDay, userAgent, ipAddress)
      ensures nextId == old(nextId) + 1
      ensures sessions == old(sessions) + [s]
      ensures forall t :: GetSessionByToken(token, t) == (if t < s.expiresAt then Some(s) else None)
    {
      s := Session(nextId, userId, token, now, now + daysValid * SecondsPerDay, userAgent, ipAddress);
      sessions := sessions + [s];
      nextId := nextId + 1;
      forall t ensures GetSessionByToken(token, t) == (if t < s.expiresAt then Some(s) else None) {
        var r := FirstIndex(sessions, (x: Session) => x.token == token && x.expiresAt > t);
        if t < s.expiresAt {
          assert r.Some? by { assert sessions[|sessions| - 1] == s; }
          assert r.value == |sessions| - 1;
        }
      }
    }

    /** `get_session_by_token`: the session with that token, provided it has
        not expired at `now`. */
    function GetSessionByToken(token: string, now: int): (r: Option<Session>)
      reads this
      ensures r.Some? ==> r.value in sessions && r.value.token == token && now < r.value.expiresAt
      ensures r.None? <==> forall s :: s in sessions && s.token == token ==> s.expiresAt <= now
    {
      match FirstIndex(sessions, (x: Session) => x.token == token && x.expiresAt > now)
      case None => None
      case Some(i) => Some(sessions[i])
    }

    /** `get_user_by_session_token`. */
    function GetUserBySessionToken(token: string, now: int): (r: Option<User>)
      reads this
      ensures r.Some? ==> r.value in users && GetSessionByToken(token, now).Some?
                          && r.value.id == GetSessionByToken(token, now).value.userId
      ensures GetSessionByToken(token, now).None? ==> r == None
      ensures r.None? <==> GetSessionByToken(token, now).None?
                           || forall i :: 0 <= i < |users| ==> users[i].id != GetSessionByToken(token, now).value.userId
      ensures forall i :: 0 <= i < |users| && GetSessionByToken(token, now).Some?
                          && users[i].id == GetSessionByToken(token, now).value.userId
                          && (forall j :: 0 <= j < i ==> users[j].id != users[i].id)
                          ==> r == Some(users[i])
    {
      match GetSessionByToken(token, now)
      case None => None
      case Some(s) =>
        match FindUserById(users, s.userId)
        case None => None
        case Some(i) => Some(users[i])
    }

    // ==================== Logout ====================

    /** `invalidate_session`: deletes the session holding `token`; reports
        whether there was one. Afterwards the token finds nothing. */
    method InvalidateSession(token: string) returns (found: bool)
      requires Valid()
      modifies this
      ensures Valid()
      ensures users == old(users) && loginAttempts == old(loginAttempts) && resets == old(resets)
      ensures nextId == old(nextId)
      ensures found <==> exists i :: 0 <= i < |old(sessions)| && old(sessions)[i].token == token
      ensures sessions == SessionsWithoutToken(old(sessions), token)
      ensures forall t :: GetSessionByToken(token, t) == None
    {
      found := FirstIndex(sessions, (x: Session) => x.token == token).Some?;
      SessionsWithoutTokenKeepsUnique(sessions, token);
      sessions := SessionsWithoutToken(sessions, token);
    }

    /** `invalidate_all_user_sessions`: deletes every session of the user
        and returns how many there were. */
    method InvalidateAllUserSessions(userId: Id) returns (count: nat)
      requires Valid()
      modifies this
      ensures Valid()
      ensures users == old(users) && loginAttempts == old(loginAttempts) && resets == old(resets)
      ensures nextId == old(nextId)
      ensures sessions == SessionsNotOf(old(sessions), userId)
      ensures count == |old(sessions)| - |sessions|
      ensures forall s :: s in sessions ==> s.userId != userId
    {
      var kept;
      kept, count := RemoveUserSessions(sessions, userId);
      SessionsNotOfKeepsUnique(sessions, userId);
      sessions := kept;
    }

    // ==================== Password Reset ====================

    /** `request_password_reset`: unknown e-mail gives None and changes
        nothing; otherwise every unused token of the user is marked used and
        a fresh one, valid for 24 hours, is added. `token` is the fresh
        value of `generate_reset_token()`. */
    method RequestPasswordReset(email: string, token: string, now: int) returns (r: Option<string>)
      requires Valid()
      requires forall i :: 0 <= i < |resets| ==> resets[i].tokenHash != hashToken(token)
      modifies this
      ensures Valid()
      ensures users == old(users) && sessions == old(sessions) && loginAttempts == old(loginAttempts)
      ensures nextId == old(nextId) + (if r.Some? then 1 else 0)
      ensures FindUserByEmail(users, email).None? ==> r == None && resets == old(resets)
      ensures FindUserByEmail(users, email).Some? ==>
        var u := users[FindUserByEmail(users, email).value];
        && r == Some(token)
        && resets == MarkUsed(old(resets), u.id, now)
                     + [PasswordReset(old(nextId), u.id, hashToken(token), now, now + ResetLifetime, false, None)]
        && forall i :: 0 <= i < |resets| - 1 && resets[i].userId == u.id ==> resets[i].used
    {
      var found := FindUserByEmail(users, email);
      if found.None? {
        return None;
      }
      var u := users[found.value];
      var marked := InvalidateResetTokens(resets, u.id, now);
      var issued := PasswordReset(nextId, u.id, hashToken(token), now, now + ResetLifetime, false, None);
      resets := marked + [issued];
      nextId := nextId + 1;
      r := Some(token);
    }

    /** What `reset_password` answers, before it changes anything: a weak
        password, an unknown token, a used or expired token and a missing
        user each fail with their own message. */
    function ResetOutcome(token: string, newPassword: string, now: int): (r: (bool, Option<string>))
      reads this
      ensures r.0 <==> r.1 == None
      ensures r.0 <==> Strong(newPassword)
                       && FindResetByHash(resets, hashToken(token)).Some?
                       && IsValid(resets[FindResetByHash(resets, hashToken(token)).value], now)
                       && FindUserById(users, resets[FindResetByHash(resets, hashToken(token)).value].userId).Some?
      ensures !Strong(newPassword) ==> r.1 == ValidatePasswordStrength(newPassword).error
      ensures Strong(newPassword) && FindResetByHash(resets, hashToken(token)).None? ==> r.1 == Some(UnknownTokenMessage)
      ensures Strong(newPassword) && FindResetByHash(resets, hashToken(token)).Some?
              && !IsValid(resets[FindResetByHash(resets, hashToken(token)).value], now)
              ==> r.1 == Some(SpentTokenMessage)
      ensures Strong(newPassword) && FindResetByHash(resets, hashToken(token)).Some?
              && IsValid(resets[FindResetByHash(resets, hashToken(token)).value], now)
              && FindUserById(users, resets[FindResetByHash(resets, hashToken(token)).value].userId).None?
              ==> r.1 == Some(UserNotFoundMessage)
    {
      var strength := ValidatePasswordStrength(newPassword);
      if !strength.isValid then (false, strength.error)
      else match FindResetByHash(resets, hashToken(token))
        case None => (false, Some(UnknownTokenMessage))
        case Some(k) =>
          if !IsValid(resets[k], now) then (false, Some(SpentTokenMessage))
          else if FindUserById(users, resets[k].userId).None? then (false, Some(UserNotFoundMessage))
          else (true, None)
    }

    /** `reset_password`: on success the user's password hash is replaced,
        the token is marked used and every session of the user is deleted,
        so the same token can never succeed again; on failure nothing
        changes. `newHash` is the bcrypt hash of `newPassword`. */
    method ResetPassword(token: string, newPassword: string, newHash: string, now: int)
      returns (ok: bool, error: Option<string>)
      requires Valid()
      modifies this
      ensures Valid()
      ensures (ok, error) == old(ResetOutcome(token, newPassword, now))
      ensures !ok ==> users == old(users) && sessions == old(sessions) && resets == old(resets)
      ensures loginAttempts == old(loginAttempts)
      ensures ok ==>
        var k := FindResetByHash(old(resets), hashToken(token)).value;
        var uid := old(resets)[k].userId;
        && resets == old(resets)[k := old(resets)[k].(used := true, usedAt := Some(now))]
        && sessions == SessionsNotOf(old(sessions), uid)
        && |users| == |old(users)|
        && (forall j :: 0 <= j < |users| && users[j].id == uid ==> users[j].passwordHash == newHash)
      ensures ok ==>
        var uid := old(resets)[FindResetByHash(old(resets), hashToken(token)).value].userId;
        var j := FindUserById(old(users), uid).value;
        users == old(users)[j := old(users)[j].(passwordHash := newHash, updatedAt := now)]
      ensures nextId == old(nextId)
      ensures ok ==> forall p, t :: !ResetOutcome(token, p, t).0
    {
      var us, rs, ss := users, resets, sessions;
      ok, error := ResetOutcome(token, newPassword, now).0, ResetOutcome(token, newPassword, now).1;
      if !ok {
        return;
      }
      var k := FindResetByHash(rs, hashToken(token)).value;
      var uid := rs[k].userId;
      var j := FindUserById(us, uid).value;
      var kept, _ := RemoveUserSessions(ss, uid);
      ResetKeepsTables(us, ss, loginAttempts, rs, nextId, j, k, newHash, now);
      SpentResetStaysFound(rs, hashToken(token), k, now);
      SetPasswordOnlyOwner(us, j, newHash, now);
      users := us[j := us[j].(passwordHash := newHash, updatedAt := now)];
      resets := rs[k := rs[k].(used := true, usedAt := Some(now))];
      sessions := kept;
    }

    // ==================== Account Lockout ====================

    /** `check_lockout`: the lockout row is found by lower-cased e-mail; no
        row, or a row whose lockout has passed, reads as not locked. */
    function CheckLockout(email: string, now: int): (r: (bool, Option<int>))
      reads this
      ensures Lower(email) !in loginAttempts ==> r == (false, None)
      ensures r.0 <==> Lower(email) in loginAttempts && IsLocked(loginAttempts[Lower(email)], now)
      ensures r.0 ==> r.1 == loginAttempts[Lower(email)].lockedUntil && now < r.1.value
      ensures !r.0 ==> r.1 == None
    {
      var key := Lower(email);
      if key !in loginAttempts then (false, None)
      else if IsLocked(loginAttempts[key], now) then (true, loginAttempts[key].lockedUntil)
      else (false, None)
    }

    /** `record_failed_attempt`: the count starts at 1 and grows by exactly
        one per call; from the sixth failure on a lockout of 1, 5, 15 or 30
        minutes is set from `now`, so the account then reads as locked. */
    method RecordFailedAttempt(email: string, now: int) returns (count: int, lockedUntil: Option<int>)
      requires Valid()
      modifies this
      ensures Valid()
      ensures users == old(users) && sessions == old(sessions) && resets == old(resets)
      ensures count == if Lower(email) in old(loginAttempts)
                       then old(loginAttempts)[Lower(email)].attemptCount + 1 else 1
      ensures lockedUntil == match LockoutMinutes(count)
                             case None => None
                             case Some(m) => Some(now + m * SecondsPerMinute)
      ensures nextId == old(nextId) + (if Lower(email) in old(loginAttempts) then 0 else 1)
      ensures Lower(email) in loginAttempts && loginAttempts[Lower(email)].attemptCount == count
      ensures loginAttempts[Lower(email)].lastAttemptAt == now
      ensures count >= 6 ==> loginAttempts[Lower(email)].lockedUntil == lockedUntil
      ensures forall k :: k != Lower(email) ==> (k in loginAttempts <==> k in old(loginAttempts))
      ensures forall k :: k != Lower(email) && k in loginAttempts ==> loginAttempts[k] == old(loginAttempts)[k]
      ensures CheckLockout(email, now).0 <==> count >= 6
      ensures count >= 6 ==> CheckLockout(email, now) == (true, lockedUntil)
    {
      var key := Lower(email);
      LowerIdempotent(email);
      var row: LoginAttempt;
      if key !in loginAttempts {
        row := LoginAttempt(nextId, key, 1, now, None);
        nextId := nextId + 1;
      } else {
        row := loginAttempts[key];
        row := row.(attemptCount := row.attemptCount + 1, lastAttemptAt := now);
      }
      lockedUntil := None;
      if row.attemptCount >= 6 {
        var minutes := LockoutMinutes(row.attemptCount).value;
        lockedUntil := Some(now + minutes * SecondsPerMinute);
        row := row.(lockedUntil := lockedUntil);
      }
      loginAttempts := loginAttempts[key := row];
      count := row.attemptCount;
    }

    /** `clear_lockout`: deletes the row, so the e-mail reads as unlocked and
        the next failure counts from 1 again. */
    method ClearLockout(email: string)
      requires Valid()
      modifies this
      ensures Valid()
      ensures users == old(users) && sessions == old(sessions) && resets == old(resets)
      ensures nextId == old(nextId)
      ensures loginAttempts == old(loginAttempts) - {Lower(email)}
      ensures forall t :: CheckLockout(email, t) == (false, None)
    {
      loginAttempts := loginAttempts - {Lower(email)};
    }
  }

  /** The loop of `invalidate_all_user_sessions`: deletes the user's
      sessions one by one and counts them. */
  method RemoveUserSessions(ss: seq<Session>, userId: Id) returns (kept: seq<Session>, count: nat)
    ensures kept == SessionsNotOf(ss, userId)
    ensures count == |ss| - |kept|
  {
    kept := [];
    count := 0;
    var i := 0;
    while i < |ss|
      invariant 0 <= i <= |ss|
      invariant kept == SessionsNotOf(ss[..i], userId)
      invariant count + |kept| == i
    {
      assert ss[..i + 1] == ss[..i] + [ss[i]];
      SessionsNotOfAppend(ss[..i], ss[i], userId);
      if ss[i].userId != userId {
        kept := kept + [ss[i]];
      } else {
        count := count + 1;
      }
      i := i + 1;
    }
    assert ss[..i] == ss;
  }

  /** The loop of `_invalidate_user_reset_tokens`: marks each unused token
      of the user as used at `now`. */
  method InvalidateResetTokens(rs: seq<PasswordReset>, userId: Id, now: int) returns (marked: seq<PasswordReset>)
    ensures marked == MarkUsed(rs, userId, now)
  {
    marked := [];
    var i := 0;
    while i < |rs|
      invariant 0 <= i <= |rs|
      invariant marked == MarkUsed(rs[..i], userId, now)
    {
      assert rs[..i + 1] == rs[..i] + [rs[i]];
      MarkUsedAppend(rs[..i], rs[i], userId, now);
      var x := rs[i];
      if x.userId == userId && !x.used {
        x := x.(used := true, usedAt := Some(now));
      }
      marked := marked + [x];
      i := i + 1;
    }
    assert rs[..i] == rs;
  }

  lemma SessionsWithoutTokenKeepsUnique(ss: seq<Session>, token: string)
    requires UniqueTokens(ss)
    ensures UniqueTokens(SessionsWithoutToken(ss, token))
  {
    if ss != [] {
      SessionsWithoutTokenKeepsUnique(ss[1..], token);
      var rest := SessionsWithoutToken(ss[1..], token);
      if ss[0].token != token {
        forall s | s in rest ensures s.token != ss[0].token {
          var j :| 1 <= j < |ss| && ss[j] == s by { assert s in ss[1..]; }
        }
      }
    }
  }

  lemma SessionsNotOfKeepsUnique(ss: seq<Session>, userId: Id)
    requires UniqueTokens(ss)
    ensures UniqueTokens(SessionsNotOf(ss, userId))
  {
    if ss != [] {
      SessionsNotOfKeepsUnique(ss[1..], userId);
      var rest := SessionsNotOf(ss[1..], userId);
      if ss[0].userId != userId {
        forall s | s in rest ensures s.token != ss[0].token {
          var j :| 1 <= j < |ss| && ss[j] == s by { assert s in ss[1..]; }
        }
      }
    }
  }
}
