/** server_ctrl.c: one authenticated action on the tables and the file system, in place. */
module Control {
  import opened Bytes
  import opened Codes
  import opened Paths
  import opened FileTree
  import opened Accounts
  import opened Crypto
  import opened FileApi
  import opened Store
  import opened Database
  import opened Protocol

  ghost function StateOf(db: Db): State
    reads db, db.fs
  {
    State(db.users, db.sessions, db.fs.tree)
  }

  // ----- session ids -----

  /** gen_session: four low bytes of rand(), the k-th time it is called. */
  function GenSession(rand: nat -> nat, k: nat): (session: nat)
    ensures session < SESSION_LIMIT
  {
    rand(4 * k) % 0x100 + (rand(4 * k + 1) % 0x100) * 0x100
    + (rand(4 * k + 2) % 0x100) * 0x1_0000 + (rand(4 * k + 3) % 0x100) * 0x100_0000
  }

  /** generate_session_id draws until the id is unused, so some draw has to be. */
  method GenerateSessionId(db: Db, rand: nat -> nat, now: int) returns (session: nat)
    requires exists k :: GenSession(rand, k) !in db.sessions
    modifies db`sessions
    ensures session !in old(db.sessions) && session < SESSION_LIMIT
    ensures db.sessions == old(db.sessions)[session := now]
  {
    hide GenSession;
    ghost var last: nat :| GenSession(rand, last) !in db.sessions;
    var k := 0;
    session := GenSession(rand, 0);
    while session in db.sessions
      invariant k <= last && session == GenSession(rand, k)
      decreases last - k
    {
      k := k + 1;
      session := GenSession(rand, k);
    }
    db.sessions := db.sessions[session := now];
  }

  // ----- file operations -----

  method DoPutFile(db: Db, path: Text, stream: Option<Text>) returns (code: Byte)
    requires WellFormed(db.fs.tree) && PutInBuffer(db.fs.tree, db.home, path)
    modifies db.fs
    ensures (db.fs.tree, code) == PutFile(old(db.fs.tree), db.home, path, stream)
  {
    HomeIsCanonical(db.home);
    hide IsHome, Canonical, WellFormed, Target, NewPlace, JoinsInBuffer, PathText;
    var existing := db.fs.ResolvePath(db.home, path);
    if existing.Some? {
      return OP_FILE_EXISTS;
    }
    ValidResolveIsNewPlace(db.fs.tree, db.home, path);
    ghost var place := NewPlace(db.fs.tree, db.home, path);
    var target := db.fs.ResolveValid(db.home, path);
    if target.None? {
      return OP_RESOLVE_ERROR;
    }
    code := db.fs.WriteFile(target.value, place.value, stream);
  }

  method DoMakeDir(db: Db, path: Text) returns (code: Byte)
    requires WellFormed(db.fs.tree) && JoinsInBuffer(db.fs.tree, db.home, path)
    modifies db.fs
    ensures (db.fs.tree, code) == MakeDir(old(db.fs.tree), db.home, path)
  {
    ValidResolveIsNewPlace(db.fs.tree, db.home, path);
    ghost var place := NewPlace(db.fs.tree, db.home, path);
    var target := db.fs.ResolveValid(db.home, path);
    if target.None? {
      return OP_RESOLVE_ERROR;
    }
    code := db.fs.CreateDir(target.value, place.value);
  }

  method DoDelFile(db: Db, path: Text) returns (code: Byte)
    requires WellFormed(db.fs.tree)
    modifies db.fs
    ensures (db.fs.tree, code) == DelFile(old(db.fs.tree), db.home, path)
  {
    PathResolveIsTarget(db.fs.tree, db.home, path);
    ghost var p := Target(db.fs.tree, db.home, path);
    var target := db.fs.ResolvePath(db.home, path);
    if target.None? {
      return OP_RESOLVE_ERROR;
    }
    code := db.fs.DeleteFile(target.value, p.value);
  }

  method DoGetFile(db: Db, path: Text) returns (code: Byte, content: Option<Content>)
    requires WellFormed(db.fs.tree)
    ensures code == GetFile(db.fs.tree, db.home, path).0
    ensures content == Attach(db.sha, GetFile(db.fs.tree, db.home, path).1)
  {
    PathResolveIsTarget(db.fs.tree, db.home, path);
    ghost var p := Target(db.fs.tree, db.home, path);
    var target := db.fs.ResolvePath(db.home, path);
    if target.None? {
      return OP_RESOLVE_ERROR, None;
    }
    var result, bytes := db.fs.ReadFile(target.value, p.value);
    if bytes.None? {
      return result, None;
    }
    if |bytes.value| == 0 {
      return OP_FILE_EMPTY, None;
    }
    return OP_SUCCESS, Some(Content(db.sha(bytes.value), bytes.value));
  }

  method DoListDir(db: Db, path: Text, c: Config) returns (code: Byte, content: Option<Content>)
    requires WellFormed(db.fs.tree) && ListStaysInBuffers(c, db.fs.tree, path)
    requires c.home == db.home && c.sha == db.sha
    ensures ListAction(c, db.fs.tree, path, code, content)
  {
    hide Target, IsListing, WellFormed, PathText, ListInBuffers;
    PathResolveIsTarget(db.fs.tree, db.home, path);
    ghost var p := Target(db.fs.tree, db.home, path);
    var target := db.fs.ResolvePath(db.home, path);
    if target.None? {
      return OP_RESOLVE_ERROR, None;
    }
    var result, stream := db.fs.ListDir(target.value, p.value, c.dirSize);
    if result != OP_SUCCESS {
      return result, None;
    }
    if |stream| == 0 {
      return OP_DIR_EMPTY, None;
    }
    return OP_SUCCESS, Some(Content(db.sha(stream), stream));
  }

  // ----- user operations -----

  /** user_action behind its permission checks. */
  method DoUserAction(db: Db, account: Account, body: Body, c: Config) returns (code: Byte)
    requires db.Valid() && body.User? && c.home == db.home && c.sha == db.sha
    requires UserCode(db.users, account, body) == OP_SUCCESS ==> Bounded(UsersAfter(db.sha, db.users, account, body))
    modifies db`users, db.fs
    ensures db.Valid()
    ensures UserAction(c, old(StateOf(db)), account, body, StateOf(db), code)
  {
    hide IsHome, Db.Valid, Saved, CreateCode, WithUser, Bounded, CString;
    var name := CString(body.name);
    if body.flag == USR_ACT_CREATE_USER {
      if account.permission < body.permission {
        return OP_PERMISSION_ERROR;
      }
      ghost var before := db.users;
      code := db.CreateUser(name, StringOf(body.passwd), body.permission);
      CreationIs(db.sha, before, name, StringOf(body.passwd), body.permission, code, db.users);
    } else if body.flag == USR_ACT_DELETE_USER {
      if account.permission != ADMIN {
        return OP_PERMISSION_ERROR;
      }
      code := db.RemoveUser(name);
    } else {
      return OP_FAILURE;
    }
  }

  // ----- ctrl_parse_action -----

  /** The session half: issue, refresh, expire or refuse. */
  method PassSession(db: Db, req: WirePayload, c: Config, now: int, rand: nat -> nat)
    returns (code: Byte, account: Option<Account>, session: nat, ghost drawn: nat)
    requires c.home == db.home && c.sha == db.sha
    requires req.sessionId == 0 ==> exists k :: GenSession(rand, k) !in db.sessions
    modifies db`sessions
    ensures account.Some? && req.sessionId == 0 ==> drawn !in old(db.sessions) && drawn < SESSION_LIMIT
    ensures match PassGate(c, old(StateOf(db)), req, now, drawn)
            case Refused(refusal, sessions) =>
              account == None && code == refusal && session == req.sessionId && db.sessions == sessions
            case Admitted(who, id, sessions) =>
              account == Some(who) && code == OP_SUCCESS && session == id && db.sessions == sessions
  {
    hide IsHome, CString, GenSession, Db.Valid;
    drawn := 0;
    session := req.sessionId;
    code, account := db.AuthenticateUser(CString(req.username), CString(req.passwd));
    if code != OP_SUCCESS {
      return;
    }
    if session == 0 {
      session := GenerateSessionId(db, rand, now);
      drawn := session;
      return;
    }
    if session !in db.sessions {
      return OP_SESSION_ERROR, None, session, drawn;
    }
    if now - db.sessions[session] > c.timeout {
      db.sessions := db.sessions - {session};
      return OP_SESSION_ERROR, None, session, drawn;
    }
    db.sessions := db.sessions[session := now];
  }

  /** The three operations that change files. */
  method DoFileAction(db: Db, req: WirePayload, c: Config) returns (code: Byte)
    requires WellFormed(db.fs.tree) && c.home == db.home
    requires ChangesFiles(req.optCode) && req.body.Std? && InBuffer(c, db.fs.tree, req)
    modifies db.fs
    ensures (db.fs.tree, code) == FileAction(c, old(db.fs.tree), req)
  {
    hide IsHome, CString, DelFile, MakeDir, PutFile, WellFormed, JoinsInBuffer, PutInBuffer;
    var path := CString(req.body.path);
    if req.optCode == ACT_DELETE_REMOTE_FILE {
      code := DoDelFile(db, path);
    } else if req.optCode == ACT_MAKE_REMOTE_DIRECTORY {
      code := DoMakeDir(db, path);
    } else {
      code := DoPutFile(db, path, req.body.stream);
    }
  }

  /** The switch on the action code. */
  method Dispatch(db: Db, account: Account, req: WirePayload, c: Config) returns (code: Byte, content: Option<Content>)
    requires db.Valid() && WellTyped(req) && c.home == db.home && c.sha == db.sha
    requires !ActOverruns(c, StateOf(db), account, req)
    modifies db`users, db.fs
    ensures Act(c, old(StateOf(db)), account, req, StateOf(db), code, content)
  {
    hide IsHome, CString, UserAction, ListAction, GetFile, FileAction, HashesFit, WellFormed, Bounded, UserCode;
    hide UsersAfter, InBuffer, ListStaysInBuffers;
    content := None;
    if req.optCode == ACT_LOCAL_OPERATION {
      return OP_SUCCESS, None;
    }
    if req.optCode == ACT_USER_OPERATION {
      code := DoUserAction(db, account, req.body, c);
      return code, None;
    }
    var path := CString(req.body.path);
    if ChangesFiles(req.optCode) {
      if account.permission < READ_WRITE {
        return OP_PERMISSION_ERROR, None;
      }
      code := DoFileAction(db, req, c);
      return code, None;
    }
    if req.optCode == ACT_LIST_REMOTE_DIRECTORY {
      code, content := DoListDir(db, path, c);
      return;
    }
    if req.optCode == ACT_GET_REMOTE_FILE {
      code, content := DoGetFile(db, path);
      return;
    }
    return OP_FAILURE, None;
  }

  /** Sessions are no part of what the operations rely on. */
  twostate lemma StillValid(db: Db)
    requires old(db.Valid()) && db.users == old(db.users) && db.fs.tree == old(db.fs.tree)
    ensures db.Valid()
  {
  }

  /** The drawn id does not decide who passes the gate. */
  lemma SameAccount(c: Config, s: State, req: WirePayload, now: int, drawn: nat)
    ensures var g, g' := PassGate(c, s, req, now, 0), PassGate(c, s, req, now, drawn);
            (g.Admitted? <==> g'.Admitted?) && (g.Admitted? ==> g.account == g'.account)
  {
    hide IsHome, CString, Authenticate;
  }

  lemma ActOverrunsIgnoresSessions(c: Config, s: State, sessions: map<nat, int>, account: Account, req: WirePayload)
    requires WellTyped(req)
    ensures ActOverruns(c, s.(sessions := sessions), account, req) <==> ActOverruns(c, s, account, req)
  {
    hide IsHome, Bounded, UserCode, UsersAfter, InBuffer, ListStaysInBuffers;
  }

  /** ctrl_parse_action: one step of the state machine, wherever that stays in its buffers. */
  method ParseAction(db: Db, req: WirePayload, c: Config, now: int, rand: nat -> nat) returns (reply: Reply)
    requires db.Valid() && WellTyped(req) && c.home == db.home && c.sha == db.sha
    requires !Overruns(c, StateOf(db), req, now)
    requires req.sessionId == 0 ==> exists k :: GenSession(rand, k) !in db.sessions
    modifies db, db.fs
    ensures Next(c, old(StateOf(db)), Served(req, now), StateOf(db), reply)
  {
    hide IsHome, Act, CString, WellTyped, GenSession, Db.Valid, ActOverruns, Authenticate, Restarts;
    label Start:
    ghost var before := StateOf(db);
    var code, account, session, drawn := PassSession(db, req, c, now, rand);
    SameAccount(c, before, req, now, drawn);
    assert db.Valid() by {
      StillValid@Start(db);
    }
    if account.None? {
      reply := Reply(code, session, None);
    } else {
      ActOverrunsIgnoresSessions(c, before, db.sessions, account.value, req);
      var result, content := Dispatch(db, account.value, req, c);
      reply := Reply(result, session, content);
    }
    assert Serve(c, before, req, now, drawn, StateOf(db), reply);
  }

  /** The end of a connection whose request could not be read. */
  method DropSession(db: Db, c: Config, session: nat, reply: Reply)
    modifies db`sessions
    ensures Next(c, old(StateOf(db)), ReadFailed(session), StateOf(db), reply)
  {
    hide IsHome, Serve, Restarts;
    db.sessions := db.sessions - {session};
  }
}
