/** The routes of api/api_auth.py as they mutate the live state, one critical section per method.
    Each is proved to take exactly the step of `AuthProtocol.Next` that the theorems speak about. */
module AuthServer {
  import opened Options
  import opened PyText
  import opened AuthProtocol

  class Server {
    var auth: AuthState
    var file: Option<AuthFile>
    const boot: Bootstrap
    var revoked: set<nat>
    var nextSid: nat
    var logins: map<nat, LoginRead>
    var requests: map<nat, Cookie>
    ghost var grants: set<Grant>

    ghost function View(): State
      reads this
    {
      State(auth, file, boot, revoked, nextSid, logins, requests, grants)
    }

    constructor (file: Option<AuthFile>, boot: Bootstrap)
      ensures Initial(View())
    {
      this.auth := Load(file, boot);
      this.file := file;
      this.boot := boot;
      this.revoked := {};
      this.nextSid := 0;
      this.logins := map[];
      this.requests := map[];
      this.grants := {};
    }

    /** Persist, then commit: a failed write leaves memory and file as they were. */
    method Save(newState: AuthState, writeOk: bool) returns (saved: bool)
      modifies this`auth, this`file
      ensures saved == writeOk
      ensures saved ==> auth == newState && file == Some(ToFile(newState))
      ensures !saved ==> auth == old(auth) && file == old(file)
    {
      saved := writeOk;
      if saved {
        file := Some(ToFile(newState));
        auth := newState;
      }
    }

    method NewSessionId() returns (sid: nat)
      modifies this`nextSid
      ensures sid == old(nextSid) && nextSid == old(nextSid) + 1
    {
      sid := nextSid;
      nextSid := nextSid + 1;
    }

    method Grant(cookie: Cookie, root: Root)
      modifies this`grants
      ensures View() == Issue(old(View()), cookie, root)
    {
      grants := grants + {AuthProtocol.Grant(cookie, Some(root))};
    }

    /** The session goes on under another cookie. */
    method Rename(before: Cookie, after: Cookie)
      modifies this`grants
      ensures View() == Reissue(old(View()), before, after)
    {
      grants := grants + (set g | g in grants && g.cookie == before :: AuthProtocol.Grant(after, g.root));
    }

    method EnforceAuth(req: nat, cookie: Cookie) returns (accepted: bool)
      requires req !in requests && Held(View(), cookie)
      modifies this
      ensures accepted == GateAccepts(old(View()), cookie)
      ensures View() == Next(old(View()), EnterGate(req, cookie))
    {
      if NeedsSetup(auth) {
        return false;
      }
      if !IsProtected(auth) {
        requests := requests[req := cookie];
        return true;
      }
      if cookie.authenticated && cookie.version.UnwrapOr(1) == auth.version {
        if cookie.sid.None? {
          var sid := NewSessionId();
          var named := cookie.(sid := Some(sid));
          requests := requests[req := named];
          Rename(cookie, named);
          return true;
        }
        if cookie.sid.value !in revoked {
          requests := requests[req := cookie];
          return true;
        }
      }
      return false;
    }

    method LoginRead(req: nat) returns (isProtected: bool)
      requires req !in logins
      modifies this`logins
      ensures isProtected == IsProtected(auth)
      ensures View() == Next(old(View()), BeginLogin(req))
    {
      isProtected := IsProtected(auth);
      if isProtected {
        logins := logins[req := AuthProtocol.LoginRead(auth.passwordHash, auth.version)];
      }
    }

    method LoginVerifyAndGrant(req: nat, passwordMatches: bool) returns (cookie: Option<Cookie>)
      requires req in logins
      modifies this
      ensures cookie.Some? <==> passwordMatches
      ensures cookie.Some? ==> cookie.value.version == Some(old(logins)[req].version)
      ensures View() == Next(old(View()), FinishLogin(req, passwordMatches))
    {
      var read := logins[req];
      logins := logins - {req};
      cookie := None;
      if passwordMatches {
        var sid := NewSessionId();
        cookie := Some(Cookie(true, Some(read.version), Some(sid)));
        Grant(cookie.value, Root(read.passwordHash, read.version));
      }
    }

    method SetupPassword(newHash: UsableHash, writeOk: bool) returns (granted: bool)
      modifies this
      ensures granted <==> NeedsSetup(old(auth)) && writeOk
      ensures View() == Next(old(View()), Setup(newHash, writeOk))
    {
      if !NeedsSetup(auth) {
        return false;
      }
      var newState := auth.(passwordHash := newHash, enabled := true);
      granted := Save(newState, writeOk);
      if granted {
        var sid := NewSessionId();
        Grant(Cookie(true, Some(newState.version), Some(sid)), Root(newHash, newState.version));
      }
    }

    method LogoutSession(req: nat)
      requires req in requests
      modifies this`revoked, this`requests
      ensures View() == Next(old(View()), Logout(req))
    {
      var sid := requests[req].sid;
      if sid.Some? {
        revoked := revoked + {sid.value};
      }
      requests := requests - {req};
    }

    method LogoutEverywhere(req: nat, writeOk: bool) returns (ok: bool)
      requires req in requests
      modifies this
      ensures ok <==> IsProtected(old(auth)) && writeOk
      ensures View() == Next(old(View()), LogoutAll(req, writeOk))
    {
      requests := requests - {req};
      if !IsProtected(auth) {
        return false;
      }
      ok := Save(auth.(version := auth.version + 1), writeOk);
    }

    /** The state a security request asks for, None when it is refused. */
    method BuildSecurity(change: SecurityChange, currentPasswordOk: bool) returns (target: Option<AuthState>)
      ensures target == SecurityTarget(auth, change, currentPasswordOk)
    {
      var newState, bumpVersion := auth, false;
      var wantsDisable := change.enabled == Some(false);
      if !IsBlank(newState.passwordHash) && (!change.password.Unchanged? || wantsDisable) && !currentPasswordOk {
        return None;
      }
      if !change.password.Unchanged? {
        if change.password.TooShort? {
          return None;
        }
        newState := newState.(passwordHash := change.password.passwordHash);
        bumpVersion := true;
      }
      if change.enabled.Some? {
        if change.enabled.value && IsBlank(newState.passwordHash) {
          return None;
        }
        if change.enabled.value && !auth.enabled {
          bumpVersion := true;
        }
        newState := newState.(enabled := change.enabled.value);
      }
      if bumpVersion {
        newState := newState.(version := auth.version + 1);
      }
      return Some(newState);
    }

    /** The session of the request that was just saved is kept in step with the version. */
    method StampSession(session: Cookie, grantSession: bool, ghost vouched: bool) returns (stamped: Cookie)
      modifies this`grants, this`nextSid
      ensures var change := SecurityChange(Unchanged, if grantSession then Some(true) else None);
              stamped == StampedCookie(session, change, auth, old(nextSid))
      ensures View() == Stamp(old(View()).(nextSid := old(nextSid) + 1), session, stamped, vouched, auth)
    {
      stamped := session;
      var sid := NewSessionId();
      if grantSession {
        stamped := stamped.(authenticated := true, sid := Some(session.sid.UnwrapOr(sid)));
      }
      if stamped.authenticated {
        stamped := stamped.(version := Some(auth.version));
        grants := Stamp(View(), session, stamped, vouched, auth).grants;
      }
    }

    method ChangeSecurity(req: nat, change: SecurityChange, currentPasswordOk: bool, writeOk: bool) returns (ok: bool)
      requires req in requests
      modifies this
      ensures ok <==> SecurityTarget(old(auth), change, currentPasswordOk).Some? && writeOk
      ensures View() == Next(old(View()), UpdateSecurity(req, change, currentPasswordOk, writeOk))
    {
      var session := requests[req];
      requests := requests - {req};
      var target := BuildSecurity(change, currentPasswordOk);
      if target.None? {
        return false;
      }
      ghost var vouched := Vouches(auth, change);
      ok := Save(target.value, writeOk);
      if ok {
        var _ := StampSession(session, change.enabled == Some(true), vouched);
      }
    }

    method RestartProcess(seedOk: bool)
      modifies this
      ensures View() == Next(old(View()), Restart(seedOk))
    {
      auth := Load(file, boot);
      if file.None? && boot.enabled && IsBlank(boot.passwordHash) && seedOk {
        file := Some(ToFile(auth));
      }
      logins, requests := map[], map[];
    }
  }
}
