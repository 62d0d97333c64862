/** What the protocol of `AuthProtocol` promises over whole runs: which password an accepted session goes back
    to, what a committed change ends, what a raced login gets, and when an open stream stops. */
module AuthPromises {
  import opened Options
  import opened PyText
  import opened AuthProtocol

  // ------------------------------------------------------------------ which password a session goes back to

  /** While protection is on, every session of the current version goes back to the current password. */
  predicate Lineage(s: State) {
    IsProtected(s.auth) ==>
      forall g :: g in s.grants && CookieVersion(g.cookie) == s.auth.version ==>
                    g.root == Some(Root(s.auth.passwordHash, s.auth.version))
  }

  /** A security request that vouches for nothing is saved under protection, stamps its session with the
      current version, and came through the gate under another version or without a session. */
  predicate RacedStamp(s: State, e: Event) {
    && e.UpdateSecurity? && e.saved && e.req in s.requests && IsProtected(s.auth)
    && !Vouches(s.auth, e.change) && e.change.password.Unchanged?
    && (s.requests[e.req].authenticated || e.change.enabled == Some(true))
    && !(s.requests[e.req].authenticated && CookieVersion(s.requests[e.req]) == s.auth.version)
  }

  lemma SecurityLineage(s: State, e: Event)
    requires Inv(s) && Lineage(s) && e.UpdateSecurity? && !RacedStamp(s, e)
    ensures Lineage(Next(s, e))
  {
    StepIsForward(s, e);
  }

  lemma OtherLineage(s: State, e: Event)
    requires Inv(s) && Lineage(s) && !e.UpdateSecurity?
    ensures Lineage(Next(s, e))
  {
  }

  /** The stamped session of a raced request names the current version and goes back to no current root. */
  lemma RacedStampBreaksLineage(s: State, e: Event) returns (g: Grant)
    requires Inv(s) && RacedStamp(s, e)
    ensures var t := Next(s, e);
            && t.auth == s.auth && g in t.grants && CookieVersion(g.cookie) == t.auth.version
            && (g.root.Some? ==> g.root.value.version < t.auth.version)
  {
    var c := s.requests[e.req];
    var after := StampedCookie(c, e.change, s.auth, s.nextSid);
    assert SecurityTarget(s.auth, e.change, e.currentPasswordOk) == Some(s.auth);
    if c.authenticated {
      var h :| h in s.grants && h.cookie == c;
      g := Grant(after, h.root);
    } else {
      g := Grant(after, None);
    }
    assert g in Next(s, e).grants;
  }

  /** Every step keeps the lineage if and only if it is no raced stamp. */
  lemma StepKeepsLineageExactlyWhen(s: State, e: Event)
    requires Inv(s) && Lineage(s)
    ensures Lineage(Next(s, e)) <==> !RacedStamp(s, e)
  {
    if RacedStamp(s, e) {
      var g := RacedStampBreaksLineage(s, e);
    } else if e.UpdateSecurity? {
      SecurityLineage(s, e);
    } else {
      OtherLineage(s, e);
    }
  }

  predicate Unraced(s: State, events: seq<Event>)
    decreases |events|
  {
    events == [] || (!RacedStamp(s, events[0]) && Unraced(Next(s, events[0]), events[1..]))
  }

  lemma {:induction false} LineageRun(s: State, events: seq<Event>)
    requires Inv(s) && Lineage(s) && Unraced(s, events)
    ensures Inv(Run(s, events)) && Lineage(Run(s, events))
    decreases |events|
  {
    if events != [] {
      InvStep(s, events[0]);
      StepKeepsLineageExactlyWhen(s, events[0]);
      LineageRun(Next(s, events[0]), events[1..]);
    }
  }

  /** The first raced stamp of any run breaks the lineage: no weaker condition on runs would do. */
  lemma {:induction false} LineageRunExactlyWhen(s: State, events: seq<Event>)
    requires Inv(s) && Lineage(s)
    ensures Unraced(s, events) <==> forall n :: 0 <= n <= |events| ==> Lineage(Run(s, events[..n]))
    decreases |events|
  {
    if events != [] {
      var s', rest := Next(s, events[0]), events[1..];
      InvStep(s, events[0]);
      StepKeepsLineageExactlyWhen(s, events[0]);
      forall n | 0 <= n < |events| ensures Run(s, events[..n + 1]) == Run(s', rest[..n]) {
        assert events[..n + 1][1..] == rest[..n];
      }
      if !RacedStamp(s, events[0]) {
        LineageRunExactlyWhen(s', rest);
        if Unraced(s, events) {
          forall n | 0 <= n <= |events| ensures Lineage(Run(s, events[..n])) {
            if n > 0 { assert Run(s, events[..n]) == Run(s', rest[..n - 1]); }
          }
        } else {
          var n :| 0 <= n <= |rest| && !Lineage(Run(s', rest[..n]));
          assert !Lineage(Run(s, events[..n + 1]));
        }
      } else {
        assert Run(s', rest[..0]) == s';
        assert !Lineage(Run(s, events[..1]));
      }
    }
  }

  // ------------------------------------------------------------------ what the protocol promises

  /** In every run without a raced stamp, whatever else interleaves and whichever writes failed: a cookie
      the gate accepts while protection is on belongs to a session whose holder proved, chose or switched
      on the password hash now in force, under the version now in force. */
  lemma AcceptedCookieWasGrantedUnderCurrentHash(s: State, events: seq<Event>, g: Grant)
    requires Initial(s) && Unraced(s, events)
    requires var t := Run(s, events); g in t.grants && IsProtected(t.auth) && GateAccepts(t, g.cookie)
    ensures g.root == Some(Root(Run(s, events).auth.passwordHash, Run(s, events).auth.version))
  {
    InitialInv(s);
    LineageRun(s, events);
  }

  /** A raced stamp, from a first start: two requests of old sessions are past the gate, one of them changes
      the password, the other one asks for nothing.  Its session is accepted under the new password
      although its holder only ever proved the old one. */
  lemma RacedRequestKeepsItsSession(h1: UsableHash, h2: UsableHash)
    ensures var c := Cookie(true, None, None);
            var s := State(AuthState(true, h1, 1), Some(AuthFile(Some(true), Some(h1), Some(1))), Bootstrap(false, ""),
                           {}, 0, map[], map[], {Grant(c, Some(Root(h1, 1)))});
            var t := Next(Next(s, EnterGate(0, c)), EnterGate(1, c));
            var u := Next(t, UpdateSecurity(1, SecurityChange(Chosen(h2), None), true, true));
            var v := Next(u, UpdateSecurity(0, SecurityChange(Unchanged, None), false, true));
            var kept := Cookie(true, Some(2), Some(0));
            && Initial(s) && v.auth == AuthState(true, h2, 2)
            && GateAccepts(v, kept) && Grant(kept, Some(Root(h1, 1))) in v.grants
  {
    var c, root := Cookie(true, None, None), Root(h1, 1);
    var s := State(AuthState(true, h1, 1), Some(AuthFile(Some(true), Some(h1), Some(1))), Bootstrap(false, ""),
                   {}, 0, map[], map[], {Grant(c, Some(root))});
    var first := Cookie(true, None, Some(0));
    EnterWithoutId(s, 0, c, root);
    var t1 := Next(s, EnterGate(0, c));
    EnterWithoutId(t1, 1, c, root);
    var t := Next(t1, EnterGate(1, c));
    var u := Next(t, UpdateSecurity(1, SecurityChange(Chosen(h2), None), true, true));
    assert u.auth == AuthState(true, h2, 2) && u.requests[0] == first && Grant(first, Some(root)) in u.grants;
    StampWithoutVoucher(u, 0, first, root);
  }

  /** A cookie of an older release passes the gate and its session gets an id. */
  lemma EnterWithoutId(s: State, req: nat, c: Cookie, root: Root)
    requires IsProtected(s.auth) && c.authenticated && c.sid.None? && CookieVersion(c) == s.auth.version
    requires req !in s.requests && Grant(c, Some(root)) in s.grants
    ensures var t, c' := Next(s, EnterGate(req, c)), c.(sid := Some(s.nextSid));
            && t.auth == s.auth && t.revoked == s.revoked && t.requests == s.requests[req := c']
                && t.nextSid == s.nextSid + 1
            && s.grants <= t.grants && Grant(c', Some(root)) in t.grants
  {
    assert Held(s, c);
  }

  /** A security request that asks for nothing stamps its session, and the session goes on. */
  lemma StampWithoutVoucher(s: State, req: nat, c: Cookie, root: Root)
    requires req in s.requests && s.requests[req] == c && c.authenticated && Grant(c, Some(root)) in s.grants
    ensures var t := Next(s, UpdateSecurity(req, SecurityChange(Unchanged, None), false, true));
            && t.auth == s.auth && t.revoked == s.revoked
                && Grant(c.(version := Some(s.auth.version)), Some(root)) in t.grants
  {
  }

  /** Whenever a step replaces a usable hash, or turns protection back on over one, or signs
      everybody out, every cookie handed out before it is dead for good. */
  lemma CommittedChangeEndsEarlierSessions(s: State, e: Event, later: seq<Event>, g: Grant)
    requires Inv(s) && g in s.grants
    requires var a, b := s.auth, Next(s, e).auth;
             a.passwordHash != b.passwordHash || (!a.enabled && b.enabled) || a.version != b.version
    ensures var t := Run(Next(s, e), later); IsProtected(t.auth) ==> !GateAccepts(t, g.cookie)
  {
    InvStep(s, e);
    StepIsForward(s, e);
    RunIsForward(Next(s, e), later);
  }

  /** And without a raced stamp no later cookie continues a session from before it: whatever the gate accepts
      under protection goes back to a password proved, chosen or switched on since the change. */
  lemma CommittedChangeEndsEarlierLineages(s: State, e: Event, later: seq<Event>, g: Grant)
    requires Inv(s) && Lineage(s) && !RacedStamp(s, e) && Unraced(Next(s, e), later)
    requires s.auth.version != Next(s, e).auth.version
    requires var t := Run(Next(s, e), later); g in t.grants && IsProtected(t.auth) && GateAccepts(t, g.cookie)
    ensures g.root.Some? && g.root.value.version > s.auth.version
  {
    InvStep(s, e);
    StepIsForward(s, e);
    StepKeepsLineageExactlyWhen(s, e);
    LineageRun(Next(s, e), later);
    RunIsForward(Next(s, e), later);
  }

  /** Sign-out-everywhere and a password change do take effect when their write succeeds. */
  lemma CommittedRequestsMoveTheVersion(s: State, req: nat, change: SecurityChange)
    requires Inv(s) && req in s.requests && IsProtected(s.auth)
    ensures Next(s, LogoutAll(req, true)).auth.version == s.auth.version + 1
    ensures change.password.Chosen? ==>
              var t := Next(s, UpdateSecurity(req, change, true, true));
              t.auth.version == s.auth.version + 1 && t.auth.passwordHash == change.password.passwordHash
    ensures Next(s, LogoutAll(req, false)).auth == s.auth
    ensures Next(s, UpdateSecurity(req, change, true, false)).auth == s.auth
    ensures Next(s, UpdateSecurity(req, change, false, true)).auth != s.auth ==>
        change.password.Unchanged? && change.enabled != Some(false)
  {
  }

  /** A login that read the old hash, then lost the race against a committed change, and only then
      finished: the session it is granted is refused in every later state with protection on. */
  lemma RacedLoginNeverYieldsAnAcceptedSession(
    s: State, req: nat, before: seq<Event>, change: Event, after: seq<Event>, later: seq<Event>)
    requires Inv(s) && IsProtected(s.auth) && req !in s.logins
    requires var a := Run(Next(s, BeginLogin(req)), before); a.auth.version != Next(a, change).auth.version
    requires var d := Run(Next(Run(Next(s, BeginLogin(req)), before), change), after);
             req in d.logins && d.logins[req] == LoginRead(s.auth.passwordHash, s.auth.version)
    ensures var d := Run(Next(Run(Next(s, BeginLogin(req)), before), change), after);
            var cookie := Cookie(true, Some(s.auth.version), Some(d.nextSid));
            var granted := Next(d, FinishLogin(req, true));
            && Grant(cookie, Some(Root(s.auth.passwordHash, s.auth.version))) in granted.grants
            && (IsProtected(Run(granted, later).auth) ==> !GateAccepts(Run(granted, later), cookie))
  {
    var s1 := Next(s, BeginLogin(req));
    InvStep(s, BeginLogin(req));
    var a := Run(s1, before);
    InvRun(s1, before);
    RunIsForward(s1, before);
    InvStep(a, change);
    StepIsForward(a, change);
    var b := Next(a, change);
    InvRun(b, after);
    RunIsForward(b, after);
    var d := Run(b, after);
    InvStep(d, FinishLogin(req, true));
    RunIsForward(Next(d, FinishLogin(req, true)), later);
  }

  /** The other half: a login that met no change is accepted, and stays accepted exactly until the
      version moves or its own session id is revoked. */
  lemma UndisturbedLoginIsAccepted(s: State, req: nat, later: seq<Event>)
    requires Inv(s) && IsProtected(s.auth) && req !in s.logins
    ensures var d := Next(s, BeginLogin(req));
            var granted := Next(d, FinishLogin(req, true));
            var cookie := Cookie(true, Some(s.auth.version), Some(d.nextSid));
            var t := Run(granted, later);
            && GateAccepts(granted, cookie)
            && (IsProtected(t.auth) ==>
                (GateAccepts(t, cookie) <==> t.auth.version == s.auth.version && d.nextSid !in t.revoked))
  {
    var d := Next(s, BeginLogin(req));
    InvStep(s, BeginLogin(req));
    InvStep(d, FinishLogin(req, true));
  }

  /** Logging out ends every cookie that carries the id it revokes, for good, and no other cookie. */
  lemma LogoutEndsExactlyItsId(s: State, req: nat, later: seq<Event>, c: Cookie)
    requires Inv(s) && req in s.requests && s.requests[req].sid.Some?
    ensures var t := Run(Next(s, Logout(req)), later);
            c.sid == s.requests[req].sid && IsProtected(t.auth) ==> !GateAccepts(t, c)
    ensures c.sid != s.requests[req].sid ==> (GateAccepts(Next(s, Logout(req)), c) <==> GateAccepts(s, c))
  {
    InvStep(s, Logout(req));
    RunIsForward(Next(s, Logout(req)), later);
  }

  /** A cookie that comes through the gate and logs out is refused from then on if and only if it carried an
      id: one without gets an id for the request, that id is revoked, and the cookie itself stays accepted
      until the version moves. */
  lemma LogoutEndsThePresentedCookieExactlyWhen(s: State, req: nat, c: Cookie, later: seq<Event>)
    requires Inv(s) && IsProtected(s.auth) && req !in s.requests && Held(s, c) && GateAccepts(s, c)
    ensures var t := Run(Next(Next(s, EnterGate(req, c)), Logout(req)), later);
            && Held(t, c)
            && (IsProtected(t.auth) ==> (GateAccepts(t, c) <==> c.sid.None? && t.auth.version == s.auth.version))
  {
    var u := Next(s, EnterGate(req, c));
    var v := Next(u, Logout(req));
    InvStep(s, EnterGate(req, c));
    InvStep(u, Logout(req));
    StepIsForward(s, EnterGate(req, c));
    RunIsForward(v, later);
    HeldGrows(s, Run(v, later), c);
    SetupIsUnreachableOnceAHashExists(v, later);
  }

  /** From a first start: a cookie of an older release logs out and is still accepted. */
  lemma IdlessCookieSurvivesItsLogout(h: UsableHash)
    ensures var c := Cookie(true, None, None);
            var s := State(AuthState(true, h, 1), Some(AuthFile(Some(true), Some(h), Some(1))), Bootstrap(false, ""),
                           {}, 0, map[], map[], {Grant(c, Some(Root(h, 1)))});
            var t := Next(Next(s, EnterGate(0, c)), Logout(0));
            Initial(s) && IsProtected(t.auth) && Held(t, c) && GateAccepts(t, c)
  {
    var c := Cookie(true, None, None);
    var s := State(AuthState(true, h, 1), Some(AuthFile(Some(true), Some(h), Some(1))), Bootstrap(false, ""),
                   {}, 0, map[], map[], {Grant(c, Some(Root(h, 1)))});
    assert Grant(c, Some(Root(h, 1))) in s.grants;
    InitialInv(s);
    LogoutEndsThePresentedCookieExactlyWhen(s, 0, c, []);
  }

  /** After a logout some cookie that goes back to a given root is accepted if and only if one was that carries
      another id or none. */
  lemma SessionSurvivesLogoutExactlyWhen(s: State, req: nat, root: Option<Root>)
    requires Inv(s) && IsProtected(s.auth) && req in s.requests && s.requests[req].sid.Some?
    ensures var t := Next(s, Logout(req));
            (exists g :: g in t.grants && g.root == root && GateAccepts(t, g.cookie))
            <==> (exists g :: g in s.grants && g.root == root && GateAccepts(s, g.cookie)
                              && g.cookie.sid != s.requests[req].sid)
  {
    var t := Next(s, Logout(req));
    forall g | g in s.grants
      ensures GateAccepts(t, g.cookie) <==> GateAccepts(s, g.cookie) && g.cookie.sid != s.requests[req].sid {}
  }

  /** Once setup is not needed, and so once a usable hash exists, the setup wizard is unreachable. */
  lemma SetupIsUnreachableOnceAHashExists(s: State, events: seq<Event>)
    requires Inv(s) && (!NeedsSetup(s.auth) || !IsBlank(s.auth.passwordHash))
    ensures !NeedsSetup(Run(s, events).auth)
  {
    RunIsForward(s, events);
  }

  // ------------------------------------------------------------------ open streams

  /** What `_stream_guard` captures when a long-lived response starts. */
  datatype StreamGuard = StreamGuard(protectedAtStart: bool, sid: Option<nat>, version: nat)

  function OpenStream(s: State, c: Cookie): StreamGuard {
    StreamGuard(IsProtected(s.auth), c.sid, CookieVersion(c))
  }

  predicate KeepStreaming(s: State, g: StreamGuard) {
    if !IsProtected(s.auth) then true
    else if !g.protectedAtStart then false
    else if g.version != s.auth.version then false
    else !(g.sid.Some? && g.sid.value in s.revoked)
  }

  /** A stream opened by a request that the gate let in, with protection on or off and whatever happened before
      its handler ran, is stopped exactly when the gate would refuse its cookie, in every later state. */
  lemma StreamStopsExactlyWhenTheGateWouldRefuse(s: State, c: Cookie, between: seq<Event>, later: seq<Event>)
    requires Inv(s) && Held(s, c) && GateAccepts(s, c)
    ensures var m := Run(s, between);
            var t := Run(m, later);
            !KeepStreaming(t, OpenStream(m, GateCookie(s, c))) <==> !GateAccepts(t, GateCookie(s, c))
  {
    var m := Run(s, between);
    InvRun(s, between);
    RunIsForward(s, between);
    RunIsForward(m, later);
    SetupIsUnreachableOnceAHashExists(m, later);
  }

  // ------------------------------------------------------------------ what each request leaves behind

  /** When a security request may be saved: whoever replaces a password or switches protection off proves the
      current password, a new password is long enough, and protection needs a password. */
  predicate Admissible(a: AuthState, change: SecurityChange, currentPasswordOk: bool) {
    && (IsBlank(a.passwordHash) || (change.password.Unchanged? && change.enabled != Some(false)) || currentPasswordOk)
    && !change.password.TooShort?
    && (change.enabled == Some(true) ==> change.password.Chosen? || !IsBlank(a.passwordHash))
  }

  /** An admissible request that is saved leaves the flag and the password it asked for, in memory and in the
      file; any other leaves everything as it was. */
  lemma SecurityRequestTakesEffect(s: State, req: nat, change: SecurityChange, ok: bool, saved: bool)
    requires req in s.requests
    ensures var t := Next(s, UpdateSecurity(req, change, ok, saved));
            if Admissible(s.auth, change, ok) && saved then
              && t.auth.enabled == change.enabled.UnwrapOr(s.auth.enabled)
              && t.auth.passwordHash == (match change.password case Chosen(h) => h case _ => s.auth.passwordHash)
              && t.file == Some(AuthFile(Some(t.auth.enabled), Some(t.auth.passwordHash), Some(t.auth.version)))
            else t == s.(requests := s.requests - {req})
  {
  }

  /** Switching protection off opens the gate to everybody; switching it on protects. */
  lemma SwitchingProtection(s: State, req: nat, change: SecurityChange, ok: bool)
    requires req in s.requests && Admissible(s.auth, change, ok)
    ensures change.enabled == Some(false) ==> forall c :: GateAccepts(Next(s, UpdateSecurity(req, change, ok, true)), c)
    ensures change.enabled == Some(true) ==> IsProtected(Next(s, UpdateSecurity(req, change, ok, true)).auth)
  {
    SecurityRequestTakesEffect(s, req, change, ok, true);
  }

  /** The session that made the change is not logged out by it. */
  lemma TheChangerStaysIn(s: State, req: nat, change: SecurityChange, ok: bool)
    requires Inv(s) && req in s.requests && Admissible(s.auth, change, ok)
    requires s.requests[req].authenticated || change.enabled == Some(true)
    requires s.requests[req].sid.Some? ==> s.requests[req].sid.value !in s.revoked
    ensures var t := Next(s, UpdateSecurity(req, change, ok, true));
            exists c :: Held(t, c) && GateAccepts(t, c) && c.authenticated
                        && (s.requests[req].sid.Some? ==> c.sid == s.requests[req].sid)
  {
    var t, before := Next(s, UpdateSecurity(req, change, ok, true)), s.requests[req];
    var sid := if change.enabled == Some(true) && before.sid.None? then Some(s.nextSid) else before.sid;
    var c := Cookie(true, Some(t.auth.version), sid);
    InvStep(s, UpdateSecurity(req, change, ok, true));
    SecurityRequestTakesEffect(s, req, change, ok, true);
    assert exists g :: g in t.grants && g.cookie == c by { StampedIsGranted(s, req, change, ok, c); }
    assert Held(t, c) && GateAccepts(t, c);
  }

  lemma StampedIsGranted(s: State, req: nat, change: SecurityChange, ok: bool, c: Cookie)
    requires Inv(s) && req in s.requests && Admissible(s.auth, change, ok)
    requires s.requests[req].authenticated || change.enabled == Some(true)
    requires var t, before := Next(s, UpdateSecurity(req, change, ok, true)), s.requests[req];
             c == Cookie(true, Some(t.auth.version),
                         if change.enabled == Some(true) && before.sid.None? then Some(s.nextSid) else before.sid)
    ensures exists g :: g in Next(s, UpdateSecurity(req, change, ok, true)).grants && g.cookie == c
  {
    var t, before := Next(s, UpdateSecurity(req, change, ok, true)), s.requests[req];
    if Vouches(s.auth, change) {
      assert Grant(c, Some(Root(t.auth.passwordHash, t.auth.version))) in t.grants;
    } else if before.authenticated {
      var g :| g in s.grants && g.cookie == before;
      assert Grant(c, g.root) in t.grants;
    } else {
      assert Grant(c, None) in t.grants;
    }
  }

  /** Setup, once, chooses the password, protects, and lets its own browser in; at any other time, or when the
      write fails, it does nothing. */
  lemma SetupTakesEffect(s: State, h: UsableHash, saved: bool)
    requires Inv(s)
    ensures var t, c := Next(s, Setup(h, saved)), Cookie(true, Some(s.auth.version), Some(s.nextSid));
            if NeedsSetup(s.auth) && saved then
              && IsProtected(t.auth) && t.auth.passwordHash == h && t.auth.version == s.auth.version
              && t.file == Some(AuthFile(Some(true), Some(h), Some(s.auth.version)))
              && Held(t, c) && GateAccepts(t, c)
            else t == s
  {
    var t, c := Next(s, Setup(h, saved)), Cookie(true, Some(s.auth.version), Some(s.nextSid));
    if NeedsSetup(s.auth) && saved { assert Grant(c, Some(Root(h, s.auth.version))) in t.grants; }
  }

  /** Before setup nobody gets in, and without protection everybody does. */
  lemma GateBeforeAndWithoutProtection(s: State, c: Cookie)
    ensures NeedsSetup(s.auth) ==> !GateAccepts(s, c)
    ensures !s.auth.enabled ==> GateAccepts(s, c)
  {
  }

  /** A wrong password grants nothing. */
  lemma FailedLoginGrantsNothing(s: State, req: nat)
    ensures Next(s, FinishLogin(req, false)) == s.(logins := s.logins - {req})
  {
  }

  /** What was saved is what the next process loads. */
  lemma SavedStateComesBack(s: State, seeded: bool)
    requires Inv(s)
    ensures Next(s, Restart(seeded)).auth == s.auth
  {
  }

  /** Without a file the configuration decides; switched on without a password, the site needs setup. */
  lemma FirstStart(boot: Bootstrap)
    ensures var a := Load(None, boot);
            && a.enabled == boot.enabled && a.version == 1
            && (!IsBlank(boot.passwordHash) ==> a.passwordHash == boot.passwordHash)
            && (NeedsSetup(a) <==> boot.enabled && IsBlank(boot.passwordHash))
  {
  }
}
