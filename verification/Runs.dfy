/** Properties of every run of the server: disk against memory, sessions against the log, privilege and
    authority. */
module Runs {
  import opened Bytes
  import opened Codes
  import opened Paths
  import opened FileTree
  import opened Accounts
  import opened Reload
  import opened Crypto
  import opened FileApi
  import opened Store
  import opened Database
  import opened Protocol

  /** One line of the log: what came in and what was answered. */
  datatype LogLine = LogLine(ev: Event, reply: Reply)

  ghost predicate StepAt(c: Config, states: seq<State>, log: seq<LogLine>, i: nat)
    requires |states| == |log| + 1 && i < |log|
  {
    Next(c, states[i], log[i].ev, states[i + 1], log[i].reply)
  }

  ghost predicate IsRun(c: Config, states: seq<State>, log: seq<LogLine>) {
    && |states| == |log| + 1
    && forall i | 0 <= i < |log| :: StepAt(c, states, log, i)
  }

  /** A run from a state in which disk and memory agree, in which no successful request creates a name with ':'
      or a newline or removes or overwrites a database file. */
  ghost predicate SoundRun(c: Config, states: seq<State>, log: seq<LogLine>) {
    && IsRun(c, states, log) && Inv(c, states[0])
    && forall i {:trigger Spoils(c, states[i], log[i].ev, log[i].reply.code)} | 0 <= i < |log| ::
      !Spoils(c, states[i], log[i].ev, log[i].reply.code)
  }

  lemma {:induction false} SaneAlways(c: Config, states: seq<State>, log: seq<LogLine>, n: nat)
    requires IsRun(c, states, log) && Sane(states[0]) && n <= |log|
    ensures Sane(states[n])
  {
    hide IsHome, Next, Sane;
    if n > 0 {
      SaneAlways(c, states, log, n - 1);
      assert StepAt(c, states, log, n - 1);
      NextKeepsSane(c, states[n - 1], log[n - 1].ev, states[n], log[n - 1].reply);
    }
  }

  /** Every run keeps the tree well formed, whatever is asked of it. */
  lemma TreeStaysWellFormed(c: Config, states: seq<State>, log: seq<LogLine>, n: nat)
    requires IsRun(c, states, log) && n <= |log|
    requires WellFormed(states[0].tree) && HashesFit(states[0].users)
    ensures WellFormed(states[n].tree)
  {
    hide IsHome, Next, WellFormed, HashesFit;
    SaneAlways(c, states, log, n);
  }

  // ----- disk refines memory -----

  lemma {:induction false} InvAlways(c: Config, states: seq<State>, log: seq<LogLine>, n: nat)
    requires SoundRun(c, states, log) && n <= |log|
    ensures Inv(c, states[n])
  {
    hide IsHome, Next, Inv, Spoils;
    if n > 0 {
      InvAlways(c, states, log, n - 1);
      assert StepAt(c, states, log, n - 1);
      NextKeepsInvIff(c, states[n - 1], log[n - 1].ev, states[n], log[n - 1].reply);
    }
  }

  /** At every point of every such run the two files on disk pass the check of db_init and load back to exactly
      the users in memory, so that starting again changes neither the users nor the tree; and printing the
      users stays in its buffer. */
  lemma DiskRefinesMemory(c: Config, states: seq<State>, log: seq<LogLine>, n: nat)
    requires SoundRun(c, states, log) && n <= |log|
    ensures Holds(c.sha, c.home, states[n].tree, states[n].users)
    ensures Init(c.sha, c.home, states[n].tree) == InitResult(states[n].tree, Loaded(states[n].users))
    ensures Bounded(states[n].users)
  {
    hide IsHome, Next, Spoils, Init, WellFormed, Holds, Bounded, StorableTable, CleanTable;
    InvAlways(c, states, log, n);
    InvIsBounded(c, states[n]);
    InitReloads(c.sha, c.home, states[n].tree, states[n].users);
  }

  ghost predicate NoSpoilBefore(c: Config, states: seq<State>, log: seq<LogLine>, n: nat)
    requires |states| == |log| + 1 && n <= |log|
  {
    forall i {:trigger Spoils(c, states[i], log[i].ev, log[i].reply.code)} | 0 <= i < n ::
      !Spoils(c, states[i], log[i].ev, log[i].reply.code)
  }

  /** The first step that is not of this kind ends the agreement, so the condition is exact. */
  lemma AgreementEndsAtSpoil(c: Config, states: seq<State>, log: seq<LogLine>, n: nat)
    requires IsRun(c, states, log) && Inv(c, states[0]) && n < |log| && NoSpoilBefore(c, states, log, n)
    ensures Inv(c, states[n + 1]) <==> !Spoils(c, states[n], log[n].ev, log[n].reply.code)
  {
    hide IsHome, Next, Inv, Spoils;
    var before, entries := states[..n + 1], log[..n];
    assert IsRun(c, before, entries) by {
      forall i | 0 <= i < n ensures StepAt(c, before, entries, i) {
        assert StepAt(c, states, log, i);
        assert entries[i] == log[i] && before[i] == states[i] && before[i + 1] == states[i + 1];
      }
    }
    InvAlways(c, before, entries, n);
    assert StepAt(c, states, log, n);
    NextKeepsInvIff(c, states[n], log[n].ev, states[n + 1], log[n].reply);
  }

  /** The state db_init gives where neither file is there: one administrator, on disk as in memory. */
  lemma FirstStart(c: Config, tree: Tree)
    requires WellFormed(tree) && IsDir(tree, c.home) && NothingStored(c.home, tree)
    ensures var started := Init(c.sha, c.home, tree);
            && started.loaded == Loaded(DEFAULT_TABLE)
            && Inv(c, State(started.loaded.users, map[], started.tree))
  {
    hide IsHome, Init, WellFormed, Holds;
    InitFresh(c.sha, c.home, tree);
    DefaultsAreStorable();
  }

  // ----- the session table is a function of the log -----

  /** An accepted use or an issue of the id: a request answered past the gate under that id. */
  predicate Touches(e: LogLine, id: nat) {
    e.ev.Served? && e.reply.code != OP_USER_AUTH && e.reply.code != OP_SESSION_ERROR && e.reply.session == id
  }

  /** A refusal of the id, a failed read that had carried it, or a new start. */
  predicate Drops(e: LogLine, id: nat) {
    match e.ev
    case Served(req, _) => e.reply.code == OP_SESSION_ERROR && req.sessionId == id
    case ReadFailed(session) => session == id
    case Restart(_) => true
  }

  /** In the first `n` lines, the last one that concerns the id touched it, at time `t`. */
  predicate LastTouched(log: seq<LogLine>, n: nat, id: nat, t: int)
    requires n <= |log|
  {
    exists k | 0 <= k < n ::
      && Touches(log[k], id) && log[k].ev.now == t
      && forall j | k < j < n :: !Touches(log[j], id) && !Drops(log[j], id)
  }

  predicate GateCode(code: Byte) {
    code == OP_USER_AUTH || code == OP_SESSION_ERROR
  }

  lemma TreeCodes(tree: Tree, home: Path, path: Text, stream: Option<Text>)
    ensures PutInBuffer(tree, home, path) ==> !GateCode(PutFile(tree, home, path, stream).1)
    ensures JoinsInBuffer(tree, home, path) ==> !GateCode(MakeDir(tree, home, path).1)
    ensures !GateCode(DelFile(tree, home, path).1)
    ensures !GateCode(GetFile(tree, home, path).0)
  {
    hide IsHome, Target, NewPlace, Children, IsDir, ValidName, JoinsInBuffer;
  }

  lemma FileActionCodes(c: Config, tree: Tree, req: WirePayload)
    requires req.body.Std? && ChangesFiles(req.optCode) && InBuffer(c, tree, req)
    ensures !GateCode(FileAction(c, tree, req).1)
  {
    hide IsHome, GateCode, PutFile, MakeDir, DelFile, GetFile, CString, JoinsInBuffer;
    TreeCodes(tree, c.home, CString(req.body.path), req.body.stream);
  }

  lemma ActKeepsSessions(
      c: Config, s: State, account: Account, req: WirePayload, s': State, code: Byte, content: Option<Content>)
    requires WellTyped(req) && Act(c, s, account, req, s', code, content)
    ensures s'.sessions == s.sessions
  {
    hide IsHome, Saved, FileAction, ListAction, GetFile, UserCode, UsersAfter, InBuffer, CString;
  }

  /** No action answers with the two codes of the gate. */
  lemma ActCodes(
      c: Config, s: State, account: Account, req: WirePayload, s': State, code: Byte, content: Option<Content>)
    requires WellTyped(req) && Act(c, s, account, req, s', code, content)
    ensures code != OP_USER_AUTH && code != OP_SESSION_ERROR
    ensures s'.sessions == s.sessions
  {
    hide IsHome, UsersBecome, FileAction, ListAction, GetFile, UserCode, UsersAfter, InBuffer, CString, GateCode;
    NotGate();
    ActKeepsSessions(c, s, account, req, s', code, content);
    if req.optCode == ACT_USER_OPERATION {
      UserCodes(s.users, account, req.body);
    } else if ChangesFiles(req.optCode) {
      if account.permission >= READ_WRITE {
        FileActionCodes(c, s.tree, req);
      }
    } else if req.optCode == ACT_LIST_REMOTE_DIRECTORY {
      ListCodes(c, s.tree, CString(req.body.path), code, content);
    } else if req.optCode == ACT_GET_REMOTE_FILE {
      TreeCodes(s.tree, c.home, CString(req.body.path), None);
    }
  }

  lemma NotGate()
    ensures GateCode(OP_USER_AUTH) && GateCode(OP_SESSION_ERROR)
    ensures !GateCode(OP_SUCCESS) && !GateCode(OP_FAILURE) && !GateCode(OP_PERMISSION_ERROR)
  {
  }

  lemma ListCodes(c: Config, tree: Tree, path: Text, code: Byte, content: Option<Content>)
    requires ListAction(c, tree, path, code, content)
    ensures !GateCode(code)
  {
    hide IsHome, Target, IsListing;
  }

  lemma UserCodes(users: Table, account: Account, body: Body)
    requires body.User?
    ensures !GateCode(UserCode(users, account, body))
  {
    hide CString;
  }

  predicate UsedAt(sessions: map<nat, int>, id: nat, t: int) {
    id in sessions && sessions[id] == t
  }

  predicate SameEntry(sessions: map<nat, int>, sessions': map<nat, int>, id: nat) {
    (id in sessions <==> id in sessions') && (id in sessions ==> sessions[id] == sessions'[id])
  }

  /** What one step does to one id. */
  lemma StepOnSession(c: Config, s: State, e: LogLine, s': State, id: nat)
    requires Next(c, s, e.ev, s', e.reply)
    ensures !(Touches(e, id) && Drops(e, id))
    ensures Touches(e, id) ==> UsedAt(s'.sessions, id, e.ev.now)
    ensures Drops(e, id) ==> id !in s'.sessions
    ensures !Touches(e, id) && !Drops(e, id) ==> SameEntry(s.sessions, s'.sessions, id)
  {
    hide IsHome, Serve, Restarts;
    match e.ev
    case Served(req, now) =>
      var drawn: nat :| Serve(c, s, req, now, drawn, s', e.reply);
      ServeOnSession(c, s, e, drawn, s', id);
    case ReadFailed(_) =>
    case Restart(saved) =>
      var tree: Tree :| Restarts(c, s, saved, tree, s');
      RestartClearsSessions(c, s, saved, tree, s');
  }

  lemma RestartClearsSessions(c: Config, s: State, saved: bool, tree: Tree, s': State)
    requires Restarts(c, s, saved, tree, s')
    ensures s'.sessions == map[]
  {
    hide IsHome, Init, Saved;
  }

  lemma ServeOnSession(c: Config, s: State, e: LogLine, drawn: nat, s': State, id: nat)
    requires e.ev.Served? && Serve(c, s, e.ev.req, e.ev.now, drawn, s', e.reply)
    ensures !(Touches(e, id) && Drops(e, id))
    ensures Touches(e, id) ==> UsedAt(s'.sessions, id, e.ev.now)
    ensures Drops(e, id) ==> id !in s'.sessions
    ensures !Touches(e, id) && !Drops(e, id) ==> SameEntry(s.sessions, s'.sessions, id)
  {
    hide IsHome, Act, Authenticate, WellTyped, CString;
    var gate := PassGate(c, s, e.ev.req, e.ev.now, drawn);
    if gate.Admitted? {
      ActCodes(c, s.(sessions := gate.sessions), gate.account, e.ev.req, s', e.reply.code, e.reply.content);
    }
  }

  /** The session table always equals the history: an id is in it, with time t, exactly when the last line
      that concerns the id is an accepted use or issue at time t. Failed logins concern no id; refused
      operations past the gate still count as use. */
  lemma {:induction false} SessionsAreHistory(c: Config, states: seq<State>, log: seq<LogLine>, n: nat, id: nat, t: int)
    requires IsRun(c, states, log) && states[0].sessions == map[] && n <= |log|
    ensures id in states[n].sessions && states[n].sessions[id] == t <==> LastTouched(log, n, id, t)
  {
    hide IsHome, Next;
    if n > 0 {
      SessionsAreHistory(c, states, log, n - 1, id, t);
      assert StepAt(c, states, log, n - 1);
      StepOnSession(c, states[n - 1], log[n - 1], states[n], id);
      ExtendHistory(log, n - 1, id, t);
    }
  }

  lemma ExtendHistory(log: seq<LogLine>, n: nat, id: nat, t: int)
    requires n < |log| && !(Touches(log[n], id) && Drops(log[n], id))
    ensures LastTouched(log, n + 1, id, t) <==>
      || (Touches(log[n], id) && log[n].ev.now == t)
      || (!Touches(log[n], id) && !Drops(log[n], id) && LastTouched(log, n, id, t))
  {
    hide IsHome, Drops;
    if LastTouched(log, n + 1, id, t) {
      var k :| 0 <= k < n + 1 && Touches(log[k], id) && log[k].ev.now == t
        && forall j | k < j < n + 1 :: !Touches(log[j], id) && !Drops(log[j], id);
      if k < n {
        assert LastTouched(log, n, id, t);
      }
    }
  }

  /** A nonzero id is accepted exactly when it is live and was last used at most `timeout` ago. */
  lemma AcceptedIffRecent(c: Config, states: seq<State>, log: seq<LogLine>, n: nat)
    requires IsRun(c, states, log) && states[0].sessions == map[] && n < |log|
    requires log[n].ev.Served? && log[n].ev.req.sessionId != 0 && log[n].reply.code != OP_USER_AUTH
    ensures log[n].reply.code != OP_SESSION_ERROR
       <==> exists t :: LastTouched(log, n, log[n].ev.req.sessionId, t) && log[n].ev.now - t <= c.timeout
  {
    hide IsHome, Restarts, Act, LastTouched, Authenticate, WellTyped;
    var s, s', e := states[n], states[n + 1], log[n];
    var req, now, id := e.ev.req, e.ev.now, e.ev.req.sessionId;
    forall t ensures id in s.sessions && s.sessions[id] == t <==> LastTouched(log, n, id, t) {
      SessionsAreHistory(c, states, log, n, id, t);
    }
    assert StepAt(c, states, log, n);
    var drawn: nat :| Serve(c, s, req, now, drawn, s', e.reply);
    var gate := PassGate(c, s, req, now, drawn);
    if gate.Admitted? {
      ActCodes(c, s.(sessions := gate.sessions), gate.account, req, s', e.reply.code, e.reply.content);
      assert LastTouched(log, n, id, s.sessions[id]);
    }
  }

  /** A new session gets an id that no live session has. */
  lemma IssuedIdIsFresh(c: Config, states: seq<State>, log: seq<LogLine>, n: nat, t: int)
    requires IsRun(c, states, log) && states[0].sessions == map[] && n < |log|
    requires log[n].ev.Served? && log[n].ev.req.sessionId == 0 && log[n].reply.code != OP_USER_AUTH
    ensures !LastTouched(log, n, log[n].reply.session, t)
    ensures log[n].reply.session in states[n + 1].sessions
  {
    hide IsHome, Restarts, Act, LastTouched, Authenticate, WellTyped;
    var s, s', e := states[n], states[n + 1], log[n];
    SessionsAreHistory(c, states, log, n, e.reply.session, t);
    assert StepAt(c, states, log, n);
    var drawn: nat :| Serve(c, s, e.ev.req, e.ev.now, drawn, s', e.reply);
    var gate := PassGate(c, s, e.ev.req, e.ev.now, drawn);
    if gate.Admitted? {
      ActCodes(c, s.(sessions := gate.sessions), gate.account, e.ev.req, s', e.reply.code, e.reply.content);
    }
  }

  // ----- who may do what -----

  /** The request names a user and carries a password with the digest stored for that user. */
  predicate GivesPassword(c: Config, users: Table, req: WirePayload) {
    CString(req.username) in users && users[CString(req.username)].hash == c.sha(CString(req.passwd))
  }

  /** The request carries the credentials of an account of at least this permission and a usable session. */
  predicate Authorized(c: Config, s: State, ev: Event, permission: Byte) {
    && ev.Served?
    && (ev.req.sessionId == 0
        || (ev.req.sessionId in s.sessions && ev.now - s.sessions[ev.req.sessionId] <= c.timeout))
    && GivesPassword(c, s.users, ev.req)
    && s.users[CString(ev.req.username)].permission >= permission
  }

  /** A request that fails authentication changes nothing; one that fails the session check changes neither
      users nor files. */
  lemma RefusedStepsChangeNothing(c: Config, s: State, e: LogLine, s': State)
    requires Next(c, s, e.ev, s', e.reply) && e.ev.Served?
    ensures e.reply.code == OP_USER_AUTH <==>
      || CString(e.ev.req.username) !in s.users
      || s.users[CString(e.ev.req.username)].hash != c.sha(CString(e.ev.req.passwd))
    ensures e.reply.code == OP_USER_AUTH ==> s' == s
    ensures e.reply.code == OP_SESSION_ERROR ==> s'.users == s.users && s'.tree == s.tree
    ensures e.reply.code != OP_SUCCESS ==> s'.users == s.users && s'.tree == s.tree
  {
    hide IsHome, Restarts, Act, WellTyped, CString;
    var drawn: nat :| Serve(c, s, e.ev.req, e.ev.now, drawn, s', e.reply);
    var gate := PassGate(c, s, e.ev.req, e.ev.now, drawn);
    if gate.Admitted? {
      var m := s.(sessions := gate.sessions);
      ActCodes(c, m, gate.account, e.ev.req, s', e.reply.code, e.reply.content);
      FailedActChangesNothing(c, m, gate.account, e.ev.req, s', e.reply.code, e.reply.content);
    }
  }

  lemma FailedActChangesNothing(
      c: Config, s: State, account: Account, req: WirePayload, s': State, code: Byte, content: Option<Content>)
    requires WellTyped(req) && Act(c, s, account, req, s', code, content)
    ensures code != OP_SUCCESS ==> s'.users == s.users && s'.tree == s.tree
  {
    hide IsHome, Target, Saved, IsListing, FileAction, GetFile, UserCode, UsersAfter, InBuffer, CString;
    if ChangesFiles(req.optCode) && account.permission >= READ_WRITE {
      FailedFileAction(c, s.tree, req);
    }
    if req.optCode == ACT_USER_OPERATION {
      UnchangedUsers(c.sha, s.users, account, req.body);
    }
  }

  /** A request that is not refused at the gate acts for the user it names. */
  lemma ServeUnfolds(c: Config, s: State, e: LogLine, s': State) returns (account: Account, m: State)
    requires Next(c, s, e.ev, s', e.reply) && e.ev.Served?
    requires e.reply.code != OP_USER_AUTH && e.reply.code != OP_SESSION_ERROR
    ensures WellTyped(e.ev.req)
    ensures m.users == s.users && m.tree == s.tree
    ensures Act(c, m, account, e.ev.req, s', e.reply.code, e.reply.content)
    ensures Authorized(c, s, e.ev, account.permission)
    ensures CString(e.ev.req.username) in s.users && account == s.users[CString(e.ev.req.username)]
  {
    hide IsHome, Restarts, Act, WellTyped, CString;
    var drawn: nat :| Serve(c, s, e.ev.req, e.ev.now, drawn, s', e.reply);
    var gate := PassGate(c, s, e.ev.req, e.ev.now, drawn);
    account := gate.account;
    m := s.(sessions := gate.sessions);
  }

  // ----- what is answered -----

  lemma ReplySession(c: Config, s: State, e: LogLine, s': State)
    requires Next(c, s, e.ev, s', e.reply) && e.ev.Served? && e.ev.req.sessionId < SESSION_LIMIT
    ensures e.reply.session < SESSION_LIMIT
  {
    hide IsHome, Restarts, Act, Authenticate, WellTyped;
    var drawn: nat :| Serve(c, s, e.ev.req, e.ev.now, drawn, s', e.reply);
  }

  lemma ActOfGet(
      c: Config, s: State, account: Account, req: WirePayload, s': State, code: Byte, content: Option<Content>)
    requires WellTyped(req) && req.optCode == ACT_GET_REMOTE_FILE
    requires Act(c, s, account, req, s', code, content)
    ensures s' == s && code == GetFile(s.tree, c.home, CString(req.body.path)).0
    ensures content == Attach(c.sha, GetFile(s.tree, c.home, CString(req.body.path)).1)
  {
    hide IsHome, GetFile, CString, UserAction, ListAction, FileAction, InBuffer;
  }

  lemma ActContent(
      c: Config, s: State, account: Account, req: WirePayload, s': State, code: Byte, content: Option<Content>)
    requires WellTyped(req) && Act(c, s, account, req, s', code, content) && content.Some?
    ensures code == OP_SUCCESS && content.value.stream != [] && content.value.digest == c.sha(content.value.stream)
  {
    hide IsHome, Target, UserAction, FileAction, IsListing, InBuffer, CString;
  }

  /** Content is attached to successes only, is never empty, and comes with its digest. */
  lemma ReplyContent(c: Config, s: State, e: LogLine, s': State)
    requires Next(c, s, e.ev, s', e.reply) && e.ev.Served? && e.reply.content.Some?
    ensures e.reply.code == OP_SUCCESS
    ensures e.reply.content.value.stream != []
    ensures e.reply.content.value.digest == c.sha(e.reply.content.value.stream)
  {
    hide IsHome, Restarts, Act, Authenticate, WellTyped;
    var drawn: nat :| Serve(c, s, e.ev.req, e.ev.now, drawn, s', e.reply);
    var gate := PassGate(c, s, e.ev.req, e.ev.now, drawn);
    ActContent(c, s.(sessions := gate.sessions), gate.account, e.ev.req, s', e.reply.code, e.reply.content);
  }

  // ----- who changed what -----

  /** The log line is a successful file operation by an account that may write. */
  predicate ChangedFiles(c: Config, s: State, e: LogLine) {
    && Authorized(c, s, e.ev, READ_WRITE)
    && ChangesFiles(e.ev.req.optCode) && e.reply.code == OP_SUCCESS
  }

  /** The log line is the removal of this user by an administrator. */
  predicate RemovedUser(c: Config, s: State, e: LogLine, name: Text) {
    && Authorized(c, s, e.ev, ADMIN)
    && e.ev.req.optCode == ACT_USER_OPERATION && e.ev.req.body.User?
    && e.ev.req.body.flag == USR_ACT_DELETE_USER && CString(e.ev.req.body.name) == name
    && e.reply.code == OP_SUCCESS
  }

  /** The log line is the creation of this user by an account of at least its permission. */
  predicate CreatedUser(c: Config, s: State, e: LogLine, name: Text, permission: Byte) {
    && Authorized(c, s, e.ev, permission)
    && e.ev.req.optCode == ACT_USER_OPERATION && e.ev.req.body.User?
    && e.ev.req.body.flag == USR_ACT_CREATE_USER && CString(e.ev.req.body.name) == name
    && e.reply.code == OP_SUCCESS
  }

  /** The log line is a successful creation or removal of a user, with the authority it needs. */
  predicate ChangedUsers(c: Config, s: State, e: LogLine) {
    && e.ev.Served? && e.ev.req.body.User?
    && (RemovedUser(c, s, e, CString(e.ev.req.body.name))
        || CreatedUser(c, s, e, CString(e.ev.req.body.name), e.ev.req.body.permission))
  }

  /** What may change a path: a writer's successful file request; for the two database files also a successful
      change of the users; for these and the directory they are in also a start of the server. */
  predicate MayChange(c: Config, s: State, e: LogLine, p: Path) {
    || ChangedFiles(c, s, e)
    || (IsDbFile(c.home, p) && ChangedUsers(c, s, e))
    || (IsDbPath(c.home, p) && e.ev.Restart?)
  }

  lemma ServedMayChange(c: Config, s: State, e: LogLine, s': State, p: Path)
    requires Next(c, s, e.ev, s', e.reply) && e.ev.Served? && !SamePath(s.tree, s'.tree, p)
    ensures MayChange(c, s, e, p)
  {
    hide IsHome, Next, Act, WellTyped, Authenticate, IsDbFile, DirPath, CString, SamePath;
    SameTree(s.tree, p);
    RefusedStepsChangeNothing(c, s, e, s');
    var account, m := ServeUnfolds(c, s, e, s');
    ActOnFiles(c, m, account, e.ev.req, s', e.reply.code, e.reply.content, p);
  }

  lemma StepMayChange(c: Config, s: State, e: LogLine, s': State, p: Path)
    requires Next(c, s, e.ev, s', e.reply) && !SamePath(s.tree, s'.tree, p)
    ensures MayChange(c, s, e, p)
  {
    hide IsHome, Restarts, Serve, IsDbPath, IsDbFile, SamePath, ChangedFiles, ChangedUsers;
    SameTree(s.tree, p);
    match e.ev
    case Served(_, _) =>
      ServedMayChange(c, s, e, s', p);
    case ReadFailed(_) =>
    case Restart(saved) =>
      var tree: Tree :| Restarts(c, s, saved, tree, s');
      if !IsDbPath(c.home, p) {
        RestartSamePath(c, s, saved, tree, s', p);
      }
  }

  /** What an action needs that changes this path. */
  lemma ActOnFiles(
      c: Config, s: State, account: Account, req: WirePayload, s': State, code: Byte, content: Option<Content>, p: Path)
    requires WellTyped(req) && Act(c, s, account, req, s', code, content) && !SamePath(s.tree, s'.tree, p)
    ensures
      || (ChangesFiles(req.optCode) && account.permission >= READ_WRITE)
      || (IsDbFile(c.home, p) && req.optCode == ACT_USER_OPERATION && MayChangeUsers(account, req.body))
  {
    hide IsHome, Target, Saved, ListAction, FileAction, GetFile, IsDbFile, UserCode, UsersAfter, InBuffer, CString;
    hide SamePath, DbPath, HashPath;
    SameTree(s.tree, p);
    if req.optCode == ACT_USER_OPERATION && s'.tree != s.tree {
      UserCodeAllows(s.users, account, req.body);
      if !IsDbFile(c.home, p) {
        SavedSamePath(c, s.tree, s'.users, s'.tree, p);
      }
    }
  }

  /** The permission checks of user_action. */
  predicate MayChangeUsers(account: Account, body: Body) {
    && body.User?
    && ((body.flag == USR_ACT_CREATE_USER && account.permission >= body.permission)
        || (body.flag == USR_ACT_DELETE_USER && account.permission == ADMIN))
  }

  lemma UserCodeAllows(users: Table, account: Account, body: Body)
    requires body.User? && UserCode(users, account, body) == OP_SUCCESS
    ensures MayChangeUsers(account, body)
  {
    hide CString, StringOf, CreateCode;
  }

  /** Every difference between two points of a run, at any path, was made in between by a step that may change
      that path. Anywhere but at the two database files and their directory that is a successful file operation of
      an authenticated, live request with permission to write. */
  lemma {:induction false} FileChangesAreAuthorized(
      c: Config, states: seq<State>, log: seq<LogLine>, i: nat, j: nat, p: Path)
    requires IsRun(c, states, log) && i <= j <= |log|
    requires !SamePath(states[i].tree, states[j].tree, p)
    ensures exists k | i <= k < j :: MayChange(c, states[k], log[k], p)
    ensures !IsDbPath(c.home, p) ==> exists k | i <= k < j :: ChangedFiles(c, states[k], log[k])
    decreases j - i
  {
    hide IsHome, Next, ChangedFiles, ChangedUsers, DirPath, DbPath, HashPath, SamePath;
    if i == j {
      SameTree(states[i].tree, p);
    }
    var n := j - 1;
    if SamePath(states[i].tree, states[n].tree, p) {
      NotSameTwice(states[i].tree, states[n].tree, states[j].tree, p);
      assert StepAt(c, states, log, n);
      StepMayChange(c, states[n], log[n], states[j], p);
      assert MayChange(c, states[n], log[n], p);
    } else {
      FileChangesAreAuthorized(c, states, log, i, n, p);
    }
  }

  lemma NotSameTwice(a: Tree, b: Tree, c: Tree, p: Path)
    requires SamePath(a, b, p) && !SamePath(a, c, p)
    ensures !SamePath(b, c, p)
  {
  }

  lemma TouchedNearHome(c: Config, tree: Tree, req: WirePayload, p: Path)
    requires WellFormed(tree) && req.body.Std? && ChangesFiles(req.optCode) && Touched(c, tree, req) == Some(p)
    requires InBuffer(c, tree, req) && FileAction(c, tree, req).1 == OP_SUCCESS
    ensures NearHome(c.home, p)
  {
    HomeIsCanonical(c.home);
    hide IsHome, Canonical, Target, NewPlace, WellFormed, NearHome, Children, CString, ValidName, JoinsInBuffer;
    var path := CString(req.body.path);
    if req.optCode == ACT_DELETE_REMOTE_FILE {
      TargetNearHome(tree, c.home, path);
    } else {
      PlaceNearHome(tree, c.home, path);
    }
  }

  lemma FileActionNearHome(c: Config, tree: Tree, req: WirePayload, p: Path)
    requires WellFormed(tree) && req.body.Std? && ChangesFiles(req.optCode) && InBuffer(c, tree, req)
    requires !SamePath(tree, FileAction(c, tree, req).0, p)
    ensures NearHome(c.home, p)
  {
    hide IsHome, WellFormed, NearHome, InBuffer, FileAction, Touched;
    FileActionEffect(c, tree, req);
    OnlyThereChanged(tree, req, Touched(c, tree, req), FileAction(c, tree, req).0, p);
    TouchedNearHome(c, tree, req, p);
  }

  lemma OnlyThereChanged(tree: Tree, req: WirePayload, touched: Option<Path>, t: Tree, p: Path)
    requires req.body.Std? && !SamePath(tree, t, p)
    requires t == tree || (touched.Some? && ChangesAt(tree, req, touched.value, t))
    ensures touched == Some(p)
  {
    hide IsHome, Children;
  }

  lemma DbPathsNearHome(home: Path, p: Path)
    requires IsDbPath(home, p)
    ensures NearHome(home, p)
  {
  }

  lemma StepNearHome(c: Config, s: State, e: LogLine, s': State, p: Path)
    requires Next(c, s, e.ev, s', e.reply) && WellFormed(s.tree) && !SamePath(s.tree, s'.tree, p)
    ensures NearHome(c.home, p)
  {
    hide IsHome, Next, WellFormed, DirPath, DbPath, HashPath, NearHome, SamePath, FileAction, InBuffer, Act;
    hide Authenticate, CString, WellTyped, ChangedUsers;
    StepMayChange(c, s, e, s', p);
    if IsDbPath(c.home, p) {
      DbPathsNearHome(c.home, p);
    } else {
      var account, m := ServeUnfolds(c, s, e, s');
      ActOnFiles(c, m, account, e.ev.req, s', e.reply.code, e.reply.content, p);
      ActIsFileAction(c, m, account, e.ev.req, s', e.reply.code, e.reply.content);
      FileActionNearHome(c, s.tree, e.ev.req, p);
    }
  }

  lemma ActIsFileAction(
      c: Config, s: State, account: Account, req: WirePayload, s': State, code: Byte, content: Option<Content>)
    requires WellTyped(req) && Act(c, s, account, req, s', code, content)
    requires ChangesFiles(req.optCode) && account.permission >= READ_WRITE
    ensures req.body.Std? && InBuffer(c, s.tree, req) && FileAction(c, s.tree, req) == (s'.tree, code)
  {
    hide IsHome, FileAction, InBuffer;
  }

  /** A run changes the tree only inside home or at a sibling whose name extends home's; so where no such name is
      in use or asked for, only inside home. */
  lemma {:induction false} ChangesStayNearHome(c: Config, states: seq<State>, log: seq<LogLine>, n: nat, p: Path)
    requires IsRun(c, states, log) && Sane(states[0]) && n <= |log|
    requires !SamePath(states[0].tree, states[n].tree, p)
    ensures NearHome(c.home, p)
  {
    hide IsHome, Next, Sane, NearHome, SamePath;
    if n == 0 {
      SameTree(states[0].tree, p);
    } else {
      if SamePath(states[0].tree, states[n - 1].tree, p) {
        NotSameTwice(states[0].tree, states[n - 1].tree, states[n].tree, p);
        SaneAlways(c, states, log, n - 1);
        SaneIsWellFormed(states[n - 1]);
        assert StepAt(c, states, log, n - 1);
        StepNearHome(c, states[n - 1], log[n - 1], states[n], p);
      } else {
        ChangesStayNearHome(c, states, log, n - 1, p);
      }
    }
  }

  /** What one step may do to one user. */
  lemma StepOnUser(c: Config, s: State, e: LogLine, s': State, name: Text)
    requires Next(c, s, e.ev, s', e.reply)
    requires e.ev.Restart? ==> Inv(c, s)
    ensures name in s.users && name in s'.users ==> s'.users[name] == s.users[name]
    ensures name in s.users && name !in s'.users ==> RemovedUser(c, s, e, name)
    ensures name !in s.users && name in s'.users ==> CreatedUser(c, s, e, name, s'.users[name].permission)
  {
    hide IsHome, Act, Restarts, Authenticate, Serve, Inv, CString;
    match e.ev
    case Served(req, now) =>
      hide Next;
      RefusedStepsChangeNothing(c, s, e, s');
      if e.reply.code == OP_SUCCESS {
        var account, m := ServeUnfolds(c, s, e, s');
        ActOnUser(c, m, account, req, s', e.reply.code, e.reply.content, name);
      }
    case ReadFailed(_) =>
    case Restart(saved) =>
      RestartKeepsUsers(c, s, saved, s');
  }

  lemma ActOnUser(
      c: Config, s: State, account: Account, req: WirePayload, s': State, code: Byte, content: Option<Content>,
      name: Text)
    requires WellTyped(req) && Act(c, s, account, req, s', code, content)
    ensures name in s.users && name in s'.users ==> s'.users[name] == s.users[name]
    ensures name in s.users && name !in s'.users ==>
      && account.permission == ADMIN && req.optCode == ACT_USER_OPERATION
      && req.body.flag == USR_ACT_DELETE_USER && CString(req.body.name) == name
    ensures name !in s.users && name in s'.users ==>
      && account.permission >= s'.users[name].permission && req.optCode == ACT_USER_OPERATION
      && req.body.flag == USR_ACT_CREATE_USER && CString(req.body.name) == name
  {
    hide IsHome, Act, Saved, CString, UserCode, UsersAfter;
    ActIsUserAction(c, s, account, req, s', code, content);
    if req.optCode == ACT_USER_OPERATION {
      OneUserAfter(c.sha, s.users, account, req.body, name);
    }
  }

  lemma OneUserAfter(sha: Hasher, users: Table, account: Account, body: Body, name: Text)
    requires body.User?
    ensures var after := UsersAfter(sha, users, account, body);
      && (name in users && name in after ==> after[name] == users[name])
      && (name in users && name !in after ==>
           account.permission == ADMIN && body.flag == USR_ACT_DELETE_USER && CString(body.name) == name)
      && (name !in users && name in after ==>
           && account.permission >= after[name].permission
           && body.flag == USR_ACT_CREATE_USER && CString(body.name) == name)
  {
    hide CString, StringOf;
  }

  /** Between these points there is no restart, or the whole run is sound. */
  ghost predicate RestartsAgree(c: Config, states: seq<State>, log: seq<LogLine>, i: nat, j: nat) {
    && IsRun(c, states, log) && i <= j <= |log|
    && ((forall k | i <= k < j :: !log[k].ev.Restart?) || SoundRun(c, states, log))
  }

  lemma RestartHasInv(c: Config, states: seq<State>, log: seq<LogLine>, i: nat, j: nat, k: nat)
    requires |states| == |log| + 1 && i <= k < j <= |log|
    requires RestartsAgree(c, states, log, i, j)
    ensures log[k].ev.Restart? ==> Inv(c, states[k])
  {
    hide IsHome, Next, Inv, Spoils;
    if SoundRun(c, states, log) {
      InvAlways(c, states, log, k);
    }
  }

  /** A successful creation or removal brings disk and memory back together, whatever the disk held before,
      exactly where ".cape" is a directory and neither file path is taken by something else. */
  lemma UserChangeHoldsIff(c: Config, s: State, e: LogLine, s': State)
    requires Next(c, s, e.ev, s', e.reply) && e.ev.Served?
    requires e.ev.req.optCode == ACT_USER_OPERATION && e.reply.code == OP_SUCCESS
    ensures Holds(c.sha, c.home, s'.tree, s'.users) <==> Savable(c.home, s.tree)
  {
    hide IsHome, Next, Act, Authorized, Authenticate, CString, Holds, Savable, Saved;
    var account, m := ServeUnfolds(c, s, e, s');
    ActIsUserAction(c, m, account, e.ev.req, s', e.reply.code, e.reply.content);
    SavedHoldsIff(c.sha, c.home, s.tree, s'.users, s'.tree);
  }

  predicate RemovedBetween(c: Config, states: seq<State>, log: seq<LogLine>, i: nat, j: nat, name: Text)
    requires |states| == |log| + 1 && i <= j <= |log|
  {
    exists k | i <= k < j :: RemovedUser(c, states[k], log[k], name)
  }

  /** Every user that disappears during a run was removed by an administrator. */
  lemma {:induction false} RemovalsAreByAdmins(
      c: Config, states: seq<State>, log: seq<LogLine>, i: nat, j: nat, name: Text)
    requires |states| == |log| + 1 && i <= j <= |log|
    requires name in states[i].users && name !in states[j].users
    requires RestartsAgree(c, states, log, i, j)
    ensures RemovedBetween(c, states, log, i, j, name)
    decreases j - i
  {
    hide IsHome, Next, Inv, Spoils, RemovedUser;
    var n := j - 1;
    if name in states[n].users {
      RestartHasInv(c, states, log, i, j, n);
      assert StepAt(c, states, log, n);
      StepOnUser(c, states[n], log[n], states[j], name);
      assert RemovedUser(c, states[n], log[n], name);
    } else {
      RemovalsAreByAdmins(c, states, log, i, n, name);
    }
  }

  predicate SameAccount(users: Table, users': Table, name: Text) {
    name in users && name in users' && users[name] == users'[name]
  }

  /** An account does not change while it exists. */
  lemma {:induction false} AccountIsStable(c: Config, states: seq<State>, log: seq<LogLine>, i: nat, j: nat, name: Text)
    requires |states| == |log| + 1 && i <= j <= |log|
    requires forall k | i <= k <= j :: name in states[k].users
    requires RestartsAgree(c, states, log, i, j)
    ensures SameAccount(states[i].users, states[j].users, name)
    decreases j - i
  {
    hide IsHome, Next, Inv, Spoils, RemovedUser, CreatedUser;
    if i < j {
      AccountIsStable(c, states, log, i, j - 1, name);
      RestartHasInv(c, states, log, i, j, j - 1);
      assert StepAt(c, states, log, j - 1);
      StepOnUser(c, states[j - 1], log[j - 1], states[j], name);
    }
  }

  // ----- privilege -----

  /** A run from a quiet state in which no successful request creates an account that is not tame or is about a
      database file. */
  ghost predicate QuietRun(c: Config, states: seq<State>, log: seq<LogLine>) {
    && IsRun(c, states, log) && Quiet(c, states[0])
    && forall i {:trigger Upsets(c, states[i], log[i].ev, log[i].reply.code)} | 0 <= i < |log| ::
      !Upsets(c, states[i], log[i].ev, log[i].reply.code)
  }

  lemma {:induction false} QuietAlways(c: Config, states: seq<State>, log: seq<LogLine>, n: nat)
    requires QuietRun(c, states, log) && n <= |log|
    ensures Quiet(c, states[n])
  {
    hide IsHome, Next, Quiet, Upsets;
    if n > 0 {
      QuietAlways(c, states, log, n - 1);
      assert StepAt(c, states, log, n - 1);
      NextKeepsQuiet(c, states[n - 1], log[n - 1].ev, states[n], log[n - 1].reply);
    }
  }

  /** Between these points there is no restart, or the whole run is quiet. */
  ghost predicate RestartsAreQuiet(c: Config, states: seq<State>, log: seq<LogLine>, i: nat, j: nat) {
    && IsRun(c, states, log) && i <= j <= |log|
    && ((forall k | i <= k < j :: !log[k].ev.Restart?) || QuietRun(c, states, log))
  }

  ghost predicate HasAtLeast(users: Table, permission: int) {
    exists n | n in users :: users[n].permission >= permission
  }

  lemma RestartKeepsMaximum(c: Config, s: State, e: LogLine, s': State, name: Text)
    requires Quiet(c, s) && Next(c, s, e.ev, s', e.reply) && e.ev.Restart?
    requires name in s'.users
    ensures HasAtLeast(s.users, s'.users[name].permission)
  {
    hide IsHome, Next, LoadsUpTo, WellFormed, Tame;
    var permission: int := s'.users[name].permission;
    assert !Upsets(c, s, e.ev, e.reply.code);
    NextKeepsQuiet(c, s, e.ev, s', e.reply);
    assert TameUpTo(s.users, ADMIN);
    assert TameUpTo(s.users, permission - 1) ==> TameUpTo(s'.users, permission - 1);
  }

  /** What one step adds is matched by what was there. */
  lemma StepKeepsMaximum(c: Config, s: State, e: LogLine, s': State, name: Text)
    requires Next(c, s, e.ev, s', e.reply) && (e.ev.Restart? ==> Quiet(c, s))
    requires name in s'.users
    ensures HasAtLeast(s.users, s'.users[name].permission)
  {
    hide IsHome, Next, Quiet, CString, RemovedUser;
    if e.ev.Restart? {
      RestartKeepsMaximum(c, s, e, s', name);
    } else {
      StepOnUser(c, s, e, s', name);
      if name !in s.users {
        assert CString(e.ev.req.username) in s.users;
      }
    }
  }

  /** No privilege growth: every account at the end is matched by one at least as privileged at the beginning.
      Within one start of the server this holds of every run; across restarts, of those in which every account
      created is tame and the database files are left alone. */
  lemma {:induction false} NoPrivilegeGrowth(
      c: Config, states: seq<State>, log: seq<LogLine>, i: nat, j: nat, name: Text)
    requires |states| == |log| + 1 && i <= j <= |log|
    requires name in states[j].users
    requires RestartsAreQuiet(c, states, log, i, j)
    ensures HasAtLeast(states[i].users, states[j].users[name].permission)
    decreases j - i
  {
    hide IsHome, Next, Quiet, Upsets;
    if i < j {
      var k := j - 1;
      if QuietRun(c, states, log) {
        QuietAlways(c, states, log, k);
      }
      assert StepAt(c, states, log, k);
      StepKeepsMaximum(c, states[k], log[k], states[j], name);
      var matched :| matched in states[k].users
        && states[k].users[matched].permission >= states[j].users[name].permission;
      NoPrivilegeGrowth(c, states, log, i, k, matched);
    }
  }

  ghost predicate NoAdmin(users: Table) {
    forall n | n in users :: users[n].permission < ADMIN
  }

  /** Under the same condition, once there is no administrator there never is one again. */
  lemma NoAdminStaysNoAdmin(c: Config, states: seq<State>, log: seq<LogLine>, i: nat, j: nat)
    requires |states| == |log| + 1 && i <= j <= |log|
    requires NoAdmin(states[i].users) && RestartsAreQuiet(c, states, log, i, j)
    ensures NoAdmin(states[j].users)
  {
    hide IsHome, QuietRun, Next;
    forall n | n in states[j].users ensures states[j].users[n].permission < ADMIN {
      NoPrivilegeGrowth(c, states, log, i, j, n);
    }
  }

  // ----- creation -----

  /** A successful creation stores the hash of the password that came with it. */
  lemma CreationStoresPassword(c: Config, s: State, e: LogLine, s': State)
    requires Next(c, s, e.ev, s', e.reply) && e.ev.Served? && e.reply.code == OP_SUCCESS
    requires e.ev.req.optCode == ACT_USER_OPERATION
    requires e.ev.req.body.User? && e.ev.req.body.flag == USR_ACT_CREATE_USER
    ensures var body := e.ev.req.body;
            && body.passwd.Some? && CString(body.name) !in s.users && CString(body.name) in s'.users
            && s'.users[CString(body.name)] == Account(body.permission, c.sha(CString(body.passwd.value)))
  {
    hide IsHome, Next, Act, Authenticate, Authorized;
    var account, m := ServeUnfolds(c, s, e, s');
    ActIsUserAction(c, m, account, e.ev.req, s', e.reply.code, e.reply.content);
    CreatedAccount(c.sha, s.users, account, e.ev.req.body);
  }

  lemma CreatedAccount(sha: Hasher, users: Table, account: Account, body: Body)
    requires body.User? && body.flag == USR_ACT_CREATE_USER && UserCode(users, account, body) == OP_SUCCESS
    ensures var name := CString(body.name);
      && body.passwd.Some? && name !in users && name in UsersAfter(sha, users, account, body)
      && UsersAfter(sha, users, account, body)[name] == Account(body.permission, sha(CString(body.passwd.value)))
  {
    hide IsHome, CString;
  }

  /** Once created, a user has the permission given then and is let in with the password given then and with no
      other, up to a password of the same digest, at every later point up to its removal, restarts included. */
  lemma CreatedUserAuthenticates(c: Config, states: seq<State>, log: seq<LogLine>, i: nat, j: nat)
    requires |states| == |log| + 1 && i < j < |log|
    requires log[i].ev.Served? && log[i].ev.req.optCode == ACT_USER_OPERATION && log[i].reply.code == OP_SUCCESS
    requires log[i].ev.req.body.User? && log[i].ev.req.body.flag == USR_ACT_CREATE_USER
    requires forall k | i < k <= j :: CString(log[i].ev.req.body.name) in states[k].users
    requires RestartsAgree(c, states, log, i, j)
    requires log[j].ev.Served? && CString(log[j].ev.req.username) == CString(log[i].ev.req.body.name)
    ensures var body := log[i].ev.req.body;
      && body.passwd.Some?
      && states[j].users[CString(body.name)].permission == body.permission
      && (log[j].reply.code == OP_USER_AUTH
          <==> c.sha(CString(log[j].ev.req.passwd)) != c.sha(CString(body.passwd.value)))
  {
    hide IsHome, Next, Inv, Spoils, CString;
    assert StepAt(c, states, log, i) && StepAt(c, states, log, j);
    CreationStoresPassword(c, states[i], log[i], states[i + 1]);
    AccountIsStable(c, states, log, i + 1, j, CString(log[i].ev.req.body.name));
    RefusedStepsChangeNothing(c, states[j], log[j], states[j + 1]);
  }
}
