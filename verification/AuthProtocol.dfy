/** Sessions and the shared password (api/api_auth.py).

    The server's critical sections are steps of a transition system.  A login reads the hash and
    the version in one critical section and grants its session in a later step; a request passes
    the gate in one step and runs its handler in a later one.  Everything may interleave, and every
    write of auth.json may fail. */
module AuthProtocol {
  import opened Options
  import opened PyText

  datatype AuthState = AuthState(enabled: bool, passwordHash: string, version: nat)

  predicate IsProtected(a: AuthState) {
    a.enabled && !IsBlank(a.passwordHash)
  }

  predicate NeedsSetup(a: AuthState) {
    a.enabled && IsBlank(a.passwordHash)
  }

  /** auth.json: any of its keys may be missing in a file written by an older release. */
  datatype AuthFile = AuthFile(enabled: Option<bool>, passwordHash: Option<string>, version: Option<nat>)

  /** The AUTH_* values of config.py, used until auth.json exists. */
  datatype Bootstrap = Bootstrap(enabled: bool, passwordHash: string)

  /** What `generate_password_hash` returns is never blank. */
  type UsableHash = h: string | !IsBlank(h) witness (assert !IsSpace("h"[0]); "h")

  function VersionOrOne(v: Option<nat>): nat {
    if v == None || v == Some(0) then 1 else v.value
  }

  function Load(file: Option<AuthFile>, boot: Bootstrap): (a: AuthState)
    ensures a.version >= 1
  {
    if file.Some? && (file.value.passwordHash.Some? || file.value.enabled.Some?) then
      AuthState(file.value.enabled.UnwrapOr(false), file.value.passwordHash.UnwrapOr(""),
          VersionOrOne(file.value.version))
    else if boot.enabled && IsBlank(boot.passwordHash) then
      AuthState(true, "", 1)
    else
      AuthState(boot.enabled && !IsBlank(boot.passwordHash), boot.passwordHash, 1)
  }

  function ToFile(a: AuthState): AuthFile {
    AuthFile(Some(a.enabled), Some(a.passwordHash), Some(a.version))
  }

  /** The signed cookie.  A cookie of an older release has no version, or no session id. */
  datatype Cookie = Cookie(authenticated: bool, version: Option<nat>, sid: Option<nat>)

  function CookieVersion(c: Cookie): nat {
    c.version.UnwrapOr(1)
  }

  /** What a session goes back to: the hash and version under which its holder proved the password, chose
      it, or switched protection on. */
  datatype Root = Root(passwordHash: string, version: nat)

  /** A cookie that was handed out, and the root its session goes back to, if any. */
  datatype Grant = Grant(cookie: Cookie, root: Option<Root>)

  /** What a login keeps between its first critical section and its grant. */
  datatype LoginRead = LoginRead(passwordHash: string, version: nat)

  datatype State = State(
    auth: AuthState,
    file: Option<AuthFile>,
    boot: Bootstrap,
    revoked: set<nat>,
    nextSid: nat,
    logins: map<nat, LoginRead>,   // logins in flight, by request
    requests: map<nat, Cookie>,    // requests past the gate whose handler has not run
    grants: set<Grant>             // every authenticated cookie ever handed out
  )

  /** Body of POST /api/security.  `password` is the new password's hash, or too short. */
  datatype NewPassword = Unchanged | TooShort | Chosen(passwordHash: UsableHash)
  datatype SecurityChange = SecurityChange(password: NewPassword, enabled: Option<bool>)

  datatype Event =
    | BeginLogin(req: nat)
    | FinishLogin(req: nat, passwordMatches: bool)
    | Setup(newHash: UsableHash, saved: bool)
    | EnterGate(req: nat, cookie: Cookie)
    | Logout(req: nat)
    | LogoutAll(req: nat, saved: bool)
    | UpdateSecurity(req: nat, change: SecurityChange, currentPasswordOk: bool, saved: bool)
    | Restart(seeded: bool)

  /** The gate: may a request with this cookie proceed? */
  predicate GateAccepts(s: State, c: Cookie) {
    && !NeedsSetup(s.auth)
    && (IsProtected(s.auth) ==>
          && c.authenticated
          && CookieVersion(c) == s.auth.version
          && (c.sid.Some? ==> c.sid.value !in s.revoked))
  }

  /** Cookies are signed: a client can only present one it was handed, or one that names no login. */
  predicate Held(s: State, c: Cookie) {
    if c.authenticated then exists g :: g in s.grants && g.cookie == c else c.version.None? && c.sid.None?
  }

  /** The session a passed gate leaves in the request: a cookie without an id gets one. */
  function GateCookie(s: State, c: Cookie): Cookie {
    if IsProtected(s.auth) && c.sid.None? then c.(sid := Some(s.nextSid)) else c
  }

  /** The state `_save` writes; None when the request is refused before any write. */
  function SecurityTarget(a: AuthState, change: SecurityChange, currentPasswordOk: bool): Option<AuthState> {
    var mustProve := !IsBlank(a.passwordHash) && (!change.password.Unchanged? || change.enabled == Some(false));
    if mustProve && !currentPasswordOk then None
    else if change.password.TooShort? then None
    else
      var hash := if change.password.Chosen? then change.password.passwordHash else a.passwordHash;
      if change.enabled == Some(true) && IsBlank(hash) then None
      else
        var bump := change.password.Chosen? || (change.enabled == Some(true) && !a.enabled);
        Some(AuthState(change.enabled.UnwrapOr(a.enabled), hash, if bump then a.version + 1 else a.version))
  }

  /** The session cookie after POST /api/security committed `a`. */
  function StampedCookie(c: Cookie, change: SecurityChange, a: AuthState, freshSid: nat): Cookie {
    var granted := c.(authenticated := true, sid := Some(c.sid.UnwrapOr(freshSid)));
    var c1 := if change.enabled == Some(true) then granted else c;
    if c1.authenticated then c1.(version := Some(a.version)) else c1
  }

  function Issue(s: State, c: Cookie, root: Root): State {
    s.(grants := s.grants + {Grant(c, Some(root))})
  }

  /** The same session under another cookie. */
  function Reissue(s: State, before: Cookie, after: Cookie): State {
    s.(grants := s.grants + (set g | g in s.grants && g.cookie == before :: Grant(after, g.root)))
  }

  /** The request itself vouches for the session: it chose the password, proved the current one (which
      switching protection off requires), or switched protection on. */
  predicate Vouches(a: AuthState, change: SecurityChange) {
    || change.password.Chosen?
    || change.enabled == Some(false)
    || (change.enabled == Some(true) && !a.enabled)
  }

  /** The cookie stamped by POST /api/security: without a voucher it continues the session presented, and
      one that presented no session gets a session with no root. */
  function Stamp(s: State, before: Cookie, after: Cookie, vouched: bool, a: AuthState): State {
    if !after.authenticated then s
    else if vouched then Issue(s, after, Root(a.passwordHash, a.version))
    else if before.authenticated then Reissue(s, before, after)
    else s.(grants := s.grants + {Grant(after, None)})
  }

  function Next(s: State, e: Event): State {
    match e
    case BeginLogin(req) =>
      if IsProtected(s.auth) && req !in s.logins
      then s.(logins := s.logins[req := LoginRead(s.auth.passwordHash, s.auth.version)])
      else s
    case FinishLogin(req, passwordMatches) =>
      if req !in s.logins then s
      else
        var read := s.logins[req];
        var s1 := s.(logins := s.logins - {req});
        if passwordMatches
        then Issue(s1.(nextSid := s.nextSid + 1), Cookie(true, Some(read.version), Some(s.nextSid)),
                   Root(read.passwordHash, read.version))
        else s1
    case Setup(newHash, saved) =>
      if NeedsSetup(s.auth) && saved then
        var a := AuthState(true, newHash, s.auth.version);
        Issue(s.(auth := a, file := Some(ToFile(a)), nextSid := s.nextSid + 1),
            Cookie(true, Some(a.version), Some(s.nextSid)),
              Root(newHash, a.version))
      else s
    case EnterGate(req, c) =>
      if req !in s.requests && Held(s, c) && GateAccepts(s, c) then
        var c' := GateCookie(s, c);
        var s1 := s.(requests := s.requests[req := c']);
        if c' == c then s1 else Reissue(s1.(nextSid := s.nextSid + 1), c, c')
      else s
    case Logout(req) =>
      if req !in s.requests then s
      else
        var sid := s.requests[req].sid;
        s.(requests := s.requests - {req}, revoked := if sid.Some? then s.revoked + {sid.value} else s.revoked)
    case LogoutAll(req, saved) =>
      if req !in s.requests then s
      else
        var s1 := s.(requests := s.requests - {req});
        if IsProtected(s.auth) && saved then
          var a := s.auth.(version := s.auth.version + 1);
          s1.(auth := a, file := Some(ToFile(a)))
        else s1
    case UpdateSecurity(req, change, currentPasswordOk, saved) =>
      if req !in s.requests then s
      else
        var c := s.requests[req];
        var s1 := s.(requests := s.requests - {req});
        var target := SecurityTarget(s.auth, change, currentPasswordOk);
        if target.None? || !saved then s1
        else
          var a := target.value;
          Stamp(s1.(auth := a, file := Some(ToFile(a)), nextSid := s.nextSid + 1),
                c, StampedCookie(c, change, a, s.nextSid), Vouches(s.auth, change), a)
    case Restart(seeded) =>
      var a := Load(s.file, s.boot);
      // first-run seed: the empty-hash state is written at once (the write may fail)
      var seeds := s.file.None? && s.boot.enabled && IsBlank(s.boot.passwordHash) && seeded;
      var file := if seeds then Some(ToFile(a)) else s.file;
      s.(auth := a, file := file, logins := map[], requests := map[])
  }

  function Run(s: State, events: seq<Event>): State
    decreases |events|
  {
    if events == [] then s else Run(Next(s, events[0]), events[1..])
  }

  /** Any first start: whatever auth.json and config.py say, and cookies of releases that knew no
      versions, all made under the password the file still holds. */
  predicate Initial(s: State) {
    && s.auth == Load(s.file, s.boot)
    && s.logins == map[] && s.requests == map[] && s.revoked == {}
    && (forall g :: g in s.grants ==>
          && g == Grant(Cookie(true, None, None), Some(Root(s.auth.passwordHash, 1)))
          && s.auth.version == 1 && !IsBlank(s.auth.passwordHash))
  }

  // ------------------------------------------------------------------ the inductive invariant

  /** A version names one usable hash: whatever goes back to, or was read under, the current version goes
      back to, or was read under, the current hash. */
  predicate Agrees(a: AuthState, version: nat, hash: string) {
    && !IsBlank(hash) && !IsBlank(a.passwordHash)
    && version <= a.version
    && (version == a.version ==> hash == a.passwordHash)
  }

  /** A granted cookie names no version to come, and its root is no younger than the cookie says. */
  predicate GrantOk(a: AuthState, g: Grant) {
    && g.cookie.authenticated && !IsBlank(a.passwordHash) && CookieVersion(g.cookie) <= a.version
    && (g.root.Some? ==> Agrees(a, g.root.value.version, g.root.value.passwordHash)
                         && g.root.value.version <= CookieVersion(g.cookie))
  }

  predicate Inv(s: State) {
    && s.auth.version >= 1
    && s.auth == Load(s.file, s.boot)
    && (forall g :: g in s.grants ==> GrantOk(s.auth, g))
    && (forall r :: r in s.logins ==> Agrees(s.auth, s.logins[r].version, s.logins[r].passwordHash))
    && (forall r :: r in s.requests ==> Held(s, s.requests[r]))
    && (forall g :: g in s.grants && g.cookie.sid.Some? ==> g.cookie.sid.value < s.nextSid)
    && (forall sid :: sid in s.revoked ==> sid < s.nextSid)
  }

  /** One step moves the auth state forward: the version never falls, setup is not needed again, protection
      comes on with a new version, a usable hash stays usable, and as long as the version stays the usable
      hash stays the same one. */
  predicate Forward(a: AuthState, b: AuthState) {
    && a.version <= b.version
    && (!NeedsSetup(a) ==> !NeedsSetup(b) && (!IsProtected(a) && IsProtected(b) ==> a.version < b.version))
    && (!IsBlank(a.passwordHash) ==> !IsBlank(b.passwordHash))
    && (!IsBlank(a.passwordHash) && a.version == b.version ==>
        a.passwordHash == b.passwordHash && (b.enabled ==> a.enabled))
  }

  lemma SecurityIsForward(s: State, e: Event)
    requires Inv(s) && e.UpdateSecurity?
    ensures Forward(s.auth, Next(s, e).auth)
    ensures s.revoked <= Next(s, e).revoked
    ensures s.grants <= Next(s, e).grants
  {
  }

  lemma StepIsForward(s: State, e: Event)
    requires Inv(s)
    ensures Forward(s.auth, Next(s, e).auth)
    ensures s.revoked <= Next(s, e).revoked
    ensures s.grants <= Next(s, e).grants
  {
    if e.UpdateSecurity? { SecurityIsForward(s, e); }
  }

  lemma AgreesForward(a: AuthState, b: AuthState, version: nat, hash: string)
    requires Forward(a, b) && Agrees(a, version, hash)
    ensures Agrees(b, version, hash)
  {
  }

  lemma HeldGrows(s: State, t: State, c: Cookie)
    requires s.grants <= t.grants && Held(s, c)
    ensures Held(t, c)
  {
    if c.authenticated {
      var g :| g in s.grants && g.cookie == c;
      assert g in t.grants;
    }
  }

  lemma InitialInv(s: State)
    requires Initial(s)
    ensures Inv(s)
  {
  }

  /** What was granted, read or admitted before a step still agrees after it. */
  lemma OldEntriesAgree(s: State, e: Event)
    requires Inv(s)
    ensures var t := Next(s, e); forall g :: g in s.grants ==> GrantOk(t.auth, g)
    ensures var t := Next(s, e); forall r :: r in s.logins ==>
        Agrees(t.auth, s.logins[r].version, s.logins[r].passwordHash)
    ensures var t := Next(s, e); forall r :: r in s.requests ==> Held(t, s.requests[r])
  {
    var t := Next(s, e);
    StepIsForward(s, e);
    forall g | g in s.grants ensures GrantOk(t.auth, g) {
      if g.root.Some? { AgreesForward(s.auth, t.auth, g.root.value.version, g.root.value.passwordHash); }
    }
    forall r | r in s.logins ensures Agrees(t.auth, s.logins[r].version, s.logins[r].passwordHash) {
      AgreesForward(s.auth, t.auth, s.logins[r].version, s.logins[r].passwordHash);
    }
    forall r | r in s.requests ensures Held(t, s.requests[r]) {
      HeldGrows(s, t, s.requests[r]);
    }
  }

  /** A handler that stamps a cookie does so under a usable hash. */
  lemma StampedIsAuthenticatedUnderUsableHash(s: State, c: Cookie, change: SecurityChange, ok: bool)
    requires Inv(s) && Held(s, c)
    requires SecurityTarget(s.auth, change, ok).Some?
    ensures var a := SecurityTarget(s.auth, change, ok).value;
            StampedCookie(c, change, a, s.nextSid).authenticated ==> !IsBlank(a.passwordHash)
  {
  }

  lemma LoginStep(s: State, e: Event)
    requires Inv(s) && (e.BeginLogin? || e.FinishLogin? || e.Setup?)
    ensures Inv(Next(s, e))
  {
    OldEntriesAgree(s, e);
  }

  lemma LogoutStep(s: State, e: Event)
    requires Inv(s) && (e.Logout? || e.LogoutAll? || e.Restart?)
    ensures Inv(Next(s, e))
  {
    OldEntriesAgree(s, e);
  }

  lemma GateStep(s: State, req: nat, c: Cookie)
    requires Inv(s)
    ensures Inv(Next(s, EnterGate(req, c)))
  {
    var t := Next(s, EnterGate(req, c));
    OldEntriesAgree(s, EnterGate(req, c));
    if req !in s.requests && Held(s, c) && GateAccepts(s, c) && GateCookie(s, c) != c {
      var g :| g in s.grants && g.cookie == c;
      assert Grant(GateCookie(s, c), g.root) in t.grants;
    }
  }

  lemma StampInv(s: State, before: Cookie, after: Cookie, vouched: bool)
    requires Inv(s)
    requires after.authenticated ==>
               !IsBlank(s.auth.passwordHash) && CookieVersion(after) == s.auth.version
               && (after.sid.Some? ==> after.sid.value < s.nextSid)
    ensures Inv(Stamp(s, before, after, vouched, s.auth))
  {
    var t := Stamp(s, before, after, vouched, s.auth);
    forall r | r in t.requests ensures Held(t, t.requests[r]) { HeldGrows(s, t, t.requests[r]); }
  }

  lemma SavedInv(s: State, req: nat, change: SecurityChange, ok: bool)
    requires Inv(s) && SecurityTarget(s.auth, change, ok).Some?
    ensures var a := SecurityTarget(s.auth, change, ok).value;
            Inv(s.(requests := s.requests - {req}, auth := a, file := Some(ToFile(a)), nextSid := s.nextSid + 1))
  {
    var a := SecurityTarget(s.auth, change, ok).value;
    var t := s.(requests := s.requests - {req}, auth := a, file := Some(ToFile(a)), nextSid := s.nextSid + 1);
    assert Forward(s.auth, a);
    forall g | g in s.grants ensures GrantOk(a, g) {
      if g.root.Some? { AgreesForward(s.auth, a, g.root.value.version, g.root.value.passwordHash); }
    }
    forall r | r in s.logins ensures Agrees(a, s.logins[r].version, s.logins[r].passwordHash) {
      AgreesForward(s.auth, a, s.logins[r].version, s.logins[r].passwordHash);
    }
    forall r | r in t.requests ensures Held(t, t.requests[r]) { HeldGrows(s, t, t.requests[r]); }
  }

  lemma SecurityStep(s: State, req: nat, change: SecurityChange, ok: bool, saved: bool)
    requires Inv(s)
    ensures Inv(Next(s, UpdateSecurity(req, change, ok, saved)))
  {
    if req in s.requests && SecurityTarget(s.auth, change, ok).Some? && saved {
      var c, a := s.requests[req], SecurityTarget(s.auth, change, ok).value;
      var base := s.(requests := s.requests - {req}, auth := a, file := Some(ToFile(a)), nextSid := s.nextSid + 1);
      var after := StampedCookie(c, change, a, s.nextSid);
      assert Inv(base) by { SavedInv(s, req, change, ok); }
      assert after.authenticated ==> !IsBlank(a.passwordHash) by {
        StampedIsAuthenticatedUnderUsableHash(s, c, change, ok);
      }
      assert c.sid.Some? ==> c.sid.value < s.nextSid;
      StampInv(base, c, after, Vouches(s.auth, change));
    }
  }

  lemma InvStep(s: State, e: Event)
    requires Inv(s)
    ensures Inv(Next(s, e))
  {
    match e
    case EnterGate(req, c) => GateStep(s, req, c);
    case UpdateSecurity(req, change, ok, saved) => SecurityStep(s, req, change, ok, saved);
    case BeginLogin(_) => LoginStep(s, e);
    case FinishLogin(_, _) => LoginStep(s, e);
    case Setup(_, _) => LoginStep(s, e);
    case Logout(_) => LogoutStep(s, e);
    case LogoutAll(_, _) => LogoutStep(s, e);
    case Restart(_) => LogoutStep(s, e);
  }

  lemma {:induction false} InvRun(s: State, events: seq<Event>)
    requires Inv(s)
    ensures Inv(Run(s, events))
    decreases |events|
  {
    if events != [] {
      InvStep(s, events[0]);
      InvRun(Next(s, events[0]), events[1..]);
    }
  }

  lemma ForwardTransitive(a: AuthState, b: AuthState, c: AuthState)
    requires Forward(a, b) && Forward(b, c)
    ensures Forward(a, c)
  {
  }

  lemma {:induction false} RunIsForward(s: State, events: seq<Event>)
    requires Inv(s)
    ensures Forward(s.auth, Run(s, events).auth)
    ensures s.revoked <= Run(s, events).revoked
    ensures s.grants <= Run(s, events).grants
    decreases |events|
  {
    if events != [] {
      InvStep(s, events[0]);
      StepIsForward(s, events[0]);
      RunIsForward(Next(s, events[0]), events[1..]);
      ForwardTransitive(s.auth, Next(s, events[0]).auth, Run(s, events).auth);
    }
  }
}
