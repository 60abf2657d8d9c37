/** The server as a state machine: one step a request, relational where the source leaves a choice. */
module Protocol {
  import opened Bytes
  import opened Codes
  import opened Paths
  import opened FileTree
  import opened Accounts
  import opened Reload
  import opened Crypto
  import opened FileApi
  import opened Store
  import opened Database

  // ----- requests as read from the wire -----

  datatype Body =
    | NoBody
    | Std(path: Text, hash: Option<Text>, stream: Option<Text>)
    | User(flag: Byte, permission: Byte, name: Text, passwd: Option<Text>)

  /** wire_payload_t. */
  datatype WirePayload = WirePayload(
    optCode: Byte, userFlag: Byte, sessionId: nat, username: Text, passwd: Text, payloadLen: nat, body: Body)

  /** The payload the reader allocates for each action code. */
  predicate WellTyped(req: WirePayload) {
    if req.optCode == ACT_USER_OPERATION then req.body.User?
    else if req.optCode == ACT_LOCAL_OPERATION then req.body.NoBody?
    else req.body.Std?
  }

  // ----- states, events and replies -----

  datatype State = State(users: Table, sessions: map<nat, int>, tree: Tree)

  datatype Config = Config(sha: Hasher, home: Home, timeout: int, dirSize: Path -> nat, messages: Messages)

  datatype Event =
    | Served(req: WirePayload, now: int)
    | ReadFailed(session: nat)
    | Restart(saved: bool)

  datatype Content = Content(digest: Text, stream: Text)

  datatype Reply = Reply(code: Byte, session: nat, content: Option<Content>)

  // ----- authentication and sessions -----

  const SESSION_LIMIT := 0x1_0000_0000

  datatype Gate =
    | Refused(code: Byte, sessions: map<nat, int>)
    | Admitted(account: Account, session: nat, sessions: map<nat, int>)

  /** The first half of ctrl_parse_action; `drawn` is the id generate_session_id would draw. */
  function PassGate(c: Config, s: State, req: WirePayload, now: int, drawn: nat): Gate {
    match Authenticate(c.sha, s.users, CString(req.username), CString(req.passwd))
    case None => Refused(OP_USER_AUTH, s.sessions)
    case Some(account) =>
      if req.sessionId == 0 then Admitted(account, drawn, s.sessions[drawn := now])
      else if req.sessionId !in s.sessions then Refused(OP_SESSION_ERROR, s.sessions)
      else if now - s.sessions[req.sessionId] > c.timeout then
        Refused(OP_SESSION_ERROR, s.sessions - {req.sessionId})
      else Admitted(account, req.sessionId, s.sessions[req.sessionId := now])
  }

  // ----- the actions -----

  /** A change of the user table is followed by db_update_db. */
  ghost predicate UsersBecome(c: Config, s: State, users: Table, changed: bool, s': State) {
    && s'.users == users && s'.sessions == s.sessions
    && (if changed then Saved(c.sha, c.home, s.tree, users, s'.tree) else s'.tree == s.tree)
  }

  function StringOf(t: Option<Text>): Option<Text> {
    match t case None => None case Some(v) => Some(CString(v))
  }

  /** The code of user_action behind its permission checks. */
  function UserCode(users: Table, account: Account, body: Body): Byte
    requires body.User?
  {
    var name := CString(body.name);
    if body.flag == USR_ACT_CREATE_USER then
      if account.permission < body.permission then OP_PERMISSION_ERROR
      else CreateCode(users, name, StringOf(body.passwd))
    else if body.flag == USR_ACT_DELETE_USER then
      if account.permission != ADMIN then OP_PERMISSION_ERROR
      else if name in users then OP_SUCCESS else OP_USER_NO_EXIST
    else OP_FAILURE
  }

  function UsersAfter(sha: Hasher, users: Table, account: Account, body: Body): Table
    requires body.User?
  {
    if UserCode(users, account, body) != OP_SUCCESS then users
    else if body.flag == USR_ACT_CREATE_USER then
      WithUser(sha, users, CString(body.name), StringOf(body.passwd), body.permission)
    else users - {CString(body.name)}
  }

  ghost predicate UserAction(c: Config, s: State, account: Account, body: Body, s': State, code: Byte)
    requires body.User?
  {
    && code == UserCode(s.users, account, body)
    && UsersBecome(c, s, UsersAfter(c.sha, s.users, account, body), code == OP_SUCCESS, s')
  }

  predicate ChangesFiles(optCode: Byte) {
    optCode == ACT_DELETE_REMOTE_FILE || optCode == ACT_MAKE_REMOTE_DIRECTORY || optCode == ACT_PUT_REMOTE_FILE
  }

  /** Where a file request keeps join_paths in its buffer. */
  predicate InBuffer(c: Config, tree: Tree, req: WirePayload) {
    req.body.Std? ==>
      var path := CString(req.body.path);
      if req.optCode == ACT_MAKE_REMOTE_DIRECTORY then JoinsInBuffer(tree, c.home, path)
      else if req.optCode == ACT_PUT_REMOTE_FILE then PutInBuffer(tree, c.home, path)
      else true
  }

  function FileAction(c: Config, tree: Tree, req: WirePayload): (Tree, Byte)
    requires req.body.Std? && ChangesFiles(req.optCode) && InBuffer(c, tree, req)
  {
    var path := CString(req.body.path);
    if req.optCode == ACT_DELETE_REMOTE_FILE then DelFile(tree, c.home, path)
    else if req.optCode == ACT_MAKE_REMOTE_DIRECTORY then MakeDir(tree, c.home, path)
    else PutFile(tree, c.home, path, req.body.stream)
  }

  function Attach(sha: Hasher, stream: Option<Text>): Option<Content> {
    match stream case None => None case Some(b) => Some(Content(sha(b), b))
  }

  /** do_list_dir. */
  ghost predicate ListAction(c: Config, tree: Tree, path: Text, code: Byte, content: Option<Content>) {
    match Target(tree, c.home, path)
    case None => code == OP_RESOLVE_ERROR && content == None
    case Some(p) =>
      if !IsDir(tree, p) then code == OP_PATH_NOT_DIR && content == None
      else exists stream | IsListing(stream, tree, p, c.dirSize) ::
        && code == (if stream == [] then OP_DIR_EMPTY else OP_SUCCESS)
        && content == (if stream == [] then None else Attach(c.sha, Some(stream)))
  }

  /** Where listing the target of this path writes past no buffer, in whatever order it is read. */
  ghost predicate ListStaysInBuffers(c: Config, tree: Tree, path: Text) {
    var p := Target(tree, c.home, path);
    p.Some? && IsDir(tree, p.value) ==> ListInBuffers(tree, p.value, c.dirSize)
  }

  /** The switch of ctrl_parse_action, for an account that passed the gate. Where it would write past a
      buffer, the behaviour is undefined and there is no step. */
  ghost predicate Act(
      c: Config, s: State, account: Account, req: WirePayload, s': State, code: Byte, content: Option<Content>)
    requires WellTyped(req)
  {
    if req.optCode == ACT_LOCAL_OPERATION then
      code == OP_SUCCESS && s' == s && content == None
    else if req.optCode == ACT_USER_OPERATION then
      UserAction(c, s, account, req.body, s', code) && content == None
    else if ChangesFiles(req.optCode) then
      && content == None
      && (if account.permission < READ_WRITE then code == OP_PERMISSION_ERROR && s' == s
          else
            && InBuffer(c, s.tree, req)
            && var (tree, result) := FileAction(c, s.tree, req);
               code == result && s' == s.(tree := tree))
    else if req.optCode == ACT_LIST_REMOTE_DIRECTORY then
      s' == s && ListAction(c, s.tree, CString(req.body.path), code, content)
    else if req.optCode == ACT_GET_REMOTE_FILE then
      var (result, stream) := GetFile(s.tree, c.home, CString(req.body.path));
      s' == s && code == result && content == Attach(c.sha, stream)
    else code == OP_FAILURE && s' == s && content == None
  }

  /** The request passes the gate and makes the server write past the buffer of join_paths, of db_update_db or, in
      some order of reading, one of the two of f_list_dir. */
  ghost predicate Overruns(c: Config, s: State, req: WirePayload, now: int)
    requires WellTyped(req)
  {
    var gate := PassGate(c, s, req, now, 0);
    gate.Admitted? && ActOverruns(c, s, gate.account, req)
  }

  ghost predicate ActOverruns(c: Config, s: State, account: Account, req: WirePayload)
    requires WellTyped(req)
  {
    if req.optCode == ACT_USER_OPERATION then
      && UserCode(s.users, account, req.body) == OP_SUCCESS
      && !Bounded(UsersAfter(c.sha, s.users, account, req.body))
    else if req.optCode == ACT_LIST_REMOTE_DIRECTORY then !ListStaysInBuffers(c, s.tree, CString(req.body.path))
    else ChangesFiles(req.optCode) && account.permission >= READ_WRITE && !InBuffer(c, s.tree, req)
  }

  /** One request. */
  ghost predicate Serve(c: Config, s: State, req: WirePayload, now: int, drawn: nat, s': State, r: Reply) {
    && WellTyped(req)
    && match PassGate(c, s, req, now, drawn)
       case Refused(code, sessions) =>
         s' == s.(sessions := sessions) && r == Reply(code, req.sessionId, None)
       case Admitted(account, session, sessions) =>
         && (req.sessionId == 0 ==> drawn !in s.sessions && drawn < SESSION_LIMIT)
         && r.session == session
         && Act(c, s.(sessions := sessions), account, req, s', r.code, r.content)
  }

  ghost predicate Next(c: Config, s: State, ev: Event, s': State, r: Reply) {
    match ev
    case Served(req, now) => exists drawn: nat :: Serve(c, s, req, now, drawn, s', r)
    case ReadFailed(session) => s' == s.(sessions := s.sessions - {session})
    case Restart(saved) => exists tree: Tree :: Restarts(c, s, saved, tree, s')
  }

  /** The server stops, through db_shutdown if `saved`, and db_init starts it again on the tree it left. */
  ghost predicate Restarts(c: Config, s: State, saved: bool, tree: Tree, s': State) {
    && (if saved then Saved(c.sha, c.home, s.tree, s.users, tree) else tree == s.tree)
    && IsDir(tree, c.home)
    && var started := Init(c.sha, c.home, tree);
       && started.loaded.Loaded?
       && s' == State(started.loaded.users, map[], started.tree)
  }

  // ----- what every step keeps -----

  predicate IsDbFile(home: Path, p: Path) {
    p == DbPath(home) || p == HashPath(home)
  }

  /** What saves and starts of the server write: the two files and the directory they are in. */
  predicate IsDbPath(home: Path, p: Path) {
    p == DirPath(home) || IsDbFile(home, p)
  }

  /** The path a file request is about. */
  function Touched(c: Config, tree: Tree, req: WirePayload): Option<Path>
    requires req.body.Std?
  {
    var path := CString(req.body.path);
    if req.optCode == ACT_DELETE_REMOTE_FILE then Target(tree, c.home, path)
    else match NewPlace(tree, c.home, path)
      case None => None
      case Some(place) => Some(place.dir + [place.base])
  }

  /** A file request changes at most the path it is about: DELETE removes a file or an empty directory, MKDIR
      adds what was absent, PUT writes a file. */
  predicate ChangesAt(tree: Tree, req: WirePayload, p: Path, tree': Tree)
    requires req.body.Std?
  {
    if req.optCode == ACT_DELETE_REMOTE_FILE then
      p in tree && tree' == tree - {p} && (tree[p].Dir? ==> Children(tree, p) == {})
    else if req.optCode == ACT_MAKE_REMOTE_DIRECTORY then p !in tree && tree' == tree[p := Dir]
    else FileOrAbsent(tree, p) && req.body.stream.Some? && tree' == tree[p := File(req.body.stream.value)]
  }

  lemma FileActionEffect(c: Config, tree: Tree, req: WirePayload)
    requires WellFormed(tree) && req.body.Std? && ChangesFiles(req.optCode) && InBuffer(c, tree, req)
    ensures var (t, code) := FileAction(c, tree, req);
      && WellFormed(t)
      && (code != OP_SUCCESS ==> t == tree)
      && (code == OP_SUCCESS ==>
           Touched(c, tree, req).Some? && ChangesAt(tree, req, Touched(c, tree, req).value, t))
  {
    hide Target, NewPlace, WellFormed, Children, DelFile, MakeDir, PutFile, JoinsInBuffer, CString, ValidName;
    var path := CString(req.body.path);
    if req.optCode == ACT_DELETE_REMOTE_FILE {
      DelFileEffect(tree, c.home, path);
    } else if req.optCode == ACT_MAKE_REMOTE_DIRECTORY {
      MakeDirEffect(tree, c.home, path);
    } else {
      PutEffect(tree, c.home, path, req.body.stream);
    }
  }

  ghost predicate Sane(s: State) {
    Usable(s.tree, s.users)
  }

  lemma SavedSamePath(c: Config, tree: Tree, users: Table, tree': Tree, p: Path)
    requires Saved(c.sha, c.home, tree, users, tree') && !IsDbFile(c.home, p)
    ensures SamePath(tree, tree', p)
  {
    hide IsHome, StoreFiles, SamePath, Bounded, DbPath, HashPath, PrintTable;
    var order :| SavedInOrder(c.sha, c.home, tree, users, tree', order);
    StoreKeepsOtherPaths(c.sha, c.home, tree, DbBytes(order, users), p);
  }

  lemma SavedKeepsWellFormed(c: Config, s: State, users: Table, tree: Tree)
    requires WellFormed(s.tree) && Saved(c.sha, c.home, s.tree, users, tree)
    ensures WellFormed(tree)
  {
    hide IsHome, WellFormed, StoreFiles, Bounded, DbPath, HashPath, PrintTable;
    var order :| SavedInOrder(c.sha, c.home, s.tree, users, tree, order);
    StoreKeepsWellFormed(c.sha, c.home, s.tree, DbBytes(order, users));
  }

  lemma WithDbDirSamePath(home: Path, tree: Tree, p: Path)
    ensures p != DirPath(home) ==> SamePath(tree, WithDbDir(home, tree), p)
  {
  }

  lemma InitSamePath(sha: Hasher, home: Path, tree: Tree, p: Path)
    requires !IsDbPath(home, p)
    ensures SamePath(tree, Init(sha, home, tree).tree, p)
  {
    hide DbBytes, StoreFiles, ReadBoth, DirPath, DbPath, HashPath, WithDbDir;
    WithDbDirSamePath(home, tree, p);
    StoreKeepsOtherPaths(sha, home, WithDbDir(home, tree), DbBytes([DEFAULT_USER], DEFAULT_TABLE), p);
  }

  lemma InitKeepsWellFormed(sha: Hasher, home: Path, tree: Tree)
    requires WellFormed(tree) && IsDir(tree, home)
    ensures WellFormed(Init(sha, home, tree).tree)
  {
    hide WellFormed, DbBytes, StoreFiles, ReadBoth, WithDbDir, DirPath, DbPath, HashPath;
    WithDbDirKeeps(home, tree);
    StoreKeepsWellFormed(sha, home, WithDbDir(home, tree), DbBytes([DEFAULT_USER], DEFAULT_TABLE));
  }

  /** A restart touches nothing but these three paths, whatever the disk held. */
  lemma RestartSamePath(c: Config, s: State, saved: bool, tree: Tree, s': State, p: Path)
    requires Restarts(c, s, saved, tree, s') && !IsDbPath(c.home, p)
    ensures SamePath(s.tree, s'.tree, p)
  {
    hide IsHome, Init, Saved, SamePath, IsDbFile, DirPath;
    if saved {
      SavedSamePath(c, s.tree, s.users, tree, p);
    }
    InitSamePath(c.sha, c.home, tree, p);
    SamePathTransitive(s.tree, tree, s'.tree, p);
  }

  lemma RestartStaysSane(c: Config, s: State, saved: bool, tree: Tree, s': State)
    requires WellFormed(s.tree) && Restarts(c, s, saved, tree, s')
    ensures Sane(s') && s'.sessions == map[]
  {
    hide IsHome, WellFormed, Init, Saved, HashesFit;
    if saved {
      SavedKeepsWellFormed(c, s, s.users, tree);
    }
    InitKeepsWellFormed(c.sha, c.home, tree);
    InitHashesFit(c.sha, c.home, tree);
  }

  lemma SamePathTransitive(a: Tree, b: Tree, c: Tree, p: Path)
    requires (a == b || SamePath(a, b, p)) && SamePath(b, c, p)
    ensures SamePath(a, c, p)
  {
  }

  /** A request is refused, or it acts for an account that is there; the gate changes only sessions. */
  lemma ServeCases(c: Config, s: State, req: WirePayload, now: int, drawn: nat, s': State, r: Reply)
    returns (account: Option<Account>, m: State)
    requires Serve(c, s, req, now, drawn, s', r)
    ensures m == s.(sessions := m.sessions) && WellTyped(req)
    ensures account.None? ==> s' == m && r.code != OP_SUCCESS
    ensures account.Some? ==> Act(c, m, account.value, req, s', r.code, r.content)
    ensures account.Some? ==> exists n :: n in s.users && s.users[n] == account.value
  {
    hide IsHome, Act, WellTyped, CString;
    var gate := PassGate(c, s, req, now, drawn);
    m := s.(sessions := gate.sessions);
    account := if gate.Admitted? then Some(gate.account) else None;
  }

  lemma UsersAfterHashesFit(sha: Hasher, users: Table, account: Account, body: Body)
    requires body.User? && HashesFit(users)
    ensures HashesFit(UsersAfter(sha, users, account, body))
  {
    hide CString;
  }

  lemma ActIsUserAction(
      c: Config, s: State, account: Account, req: WirePayload, s': State, code: Byte, content: Option<Content>)
    requires WellTyped(req) && Act(c, s, account, req, s', code, content)
    ensures req.optCode == ACT_USER_OPERATION ==> req.body.User? && UserAction(c, s, account, req.body, s', code)
    ensures req.optCode != ACT_USER_OPERATION ==> s'.users == s.users
  {
    hide IsHome, UserAction, FileAction, ListAction, GetFile, InBuffer, CString;
  }

  lemma ActKeepsSane(
      c: Config, s: State, account: Account, req: WirePayload, s': State, code: Byte, content: Option<Content>)
    requires Sane(s) && WellTyped(req) && Act(c, s, account, req, s', code, content)
    ensures Sane(s')
  {
    hide IsHome, WellFormed, HashesFit, Saved, FileAction, ListAction, GetFile, UsersAfter, UserCode, InBuffer, CString;
    if req.optCode == ACT_USER_OPERATION {
      hide Act;
      ActIsUserAction(c, s, account, req, s', code, content);
      UsersAfterHashesFit(c.sha, s.users, account, req.body);
      if code == OP_SUCCESS {
        SavedKeepsWellFormed(c, s, s'.users, s'.tree);
      }
    } else if ChangesFiles(req.optCode) && account.permission >= READ_WRITE {
      FileActionEffect(c, s.tree, req);
    }
  }

  /** Every step keeps the tree well formed, whatever it asks for. */
  lemma NextKeepsSane(c: Config, s: State, ev: Event, s': State, r: Reply)
    requires Sane(s) && Next(c, s, ev, s', r)
    ensures Sane(s')
  {
    hide IsHome, Act, Serve, Restarts, WellFormed, HashesFit, WellTyped;
    match ev
    case Served(req, now) =>
      var drawn: nat :| Serve(c, s, req, now, drawn, s', r);
      var account, m := ServeCases(c, s, req, now, drawn, s', r);
      if account.Some? {
        ActKeepsSane(c, m, account.value, req, s', r.code, r.content);
      }
    case ReadFailed(_) =>
    case Restart(saved) =>
      var tree: Tree :| Restarts(c, s, saved, tree, s');
      RestartStaysSane(c, s, saved, tree, s');
  }

  // ----- disk and memory -----

  /** Memory and disk agree, and every stored account has the sizes and the name the record format needs. */
  ghost predicate Inv(c: Config, s: State) {
    && WellFormed(s.tree)
    && Holds(c.sha, c.home, s.tree, s.users)
    && StorableTable(s.users) && CleanTable(s.users)
  }

  /** A request to create a user whose name the record format cannot carry. */
  predicate NamesUnclean(req: WirePayload) {
    req.body.User? && req.body.flag == USR_ACT_CREATE_USER && !Clean(CString(req.body.name))
  }

  /** A file request about one of the two database files. */
  predicate TouchesDb(c: Config, tree: Tree, req: WirePayload) {
    && req.body.Std? && ChangesFiles(req.optCode)
    && Touched(c, tree, req).Some? && IsDbFile(c.home, Touched(c, tree, req).value)
  }

  /** What a save of the same users could have left at this database file: the same digest, or another printing
      of the users with the same digest. */
  ghost predicate Equivalent(sha: Hasher, home: Path, tree: Tree, users: Table, p: Path, data: Text) {
    && IsFile(tree, DbPath(home)) && IsFile(tree, HashPath(home))
    && if p == HashPath(home) then data == tree[HashPath(home)].data
       else
         && sha(data) == sha(tree[DbPath(home)].data)
         && exists order :: IsOrder(order, users) && data == DbBytes(order, users)
  }

  ghost predicate WritesEquivalent(c: Config, s: State, req: WirePayload)
    requires req.body.Std?
  {
    && req.optCode == ACT_PUT_REMOTE_FILE && req.body.stream.Some? && Touched(c, s.tree, req).Some?
    && Equivalent(c.sha, c.home, s.tree, s.users, Touched(c, s.tree, req).value, req.body.stream.value)
  }

  /** The steps that end the agreement of disk and memory: the successful creation of a name the format cannot
      carry, and the successful removal or overwriting of a database file. */
  ghost predicate Spoils(c: Config, s: State, ev: Event, code: Byte) {
    ev.Served? && code == OP_SUCCESS &&
    (NamesUnclean(ev.req) || (TouchesDb(c, s.tree, ev.req) && !WritesEquivalent(c, s, ev.req)))
  }

  lemma InvParts(c: Config, s: State)
    requires Inv(c, s)
    ensures Sane(s) && StorableTable(s.users) && CleanTable(s.users)
    ensures IsDir(s.tree, DirPath(c.home)) && IsDir(s.tree, c.home)
    ensures IsFile(s.tree, DbPath(c.home)) && IsFile(s.tree, HashPath(c.home))
    ensures forall n | n in s.users :: s.users[n].permission <= ADMIN
  {
    hide IsHome, Holds, WellFormed, DirPath, DbPath, HashPath;
    HoldsNeedsFiles(c, s.tree, s.users);
    HomeOfDbDir(c.home, s.tree);
    assert forall n | n in s.users :: Storable(n, s.users[n]);
  }

  lemma HomeOfDbDir(home: Path, tree: Tree)
    requires WellFormed(tree) && IsDir(tree, DirPath(home))
    ensures IsDir(tree, home)
  {
    assert Parent(DirPath(home)) == home;
  }

  lemma InvIsBounded(c: Config, s: State)
    requires Inv(c, s)
    ensures Bounded(s.users)
  {
    hide Bounded, WellFormed, Holds;
    InvParts(c, s);
    PrintableIsBounded(s.users);
  }

  /** From an agreeing state a user operation never overruns the buffer it prints to; only the length of a
      path or of a listing can. */
  lemma InvOverrunsOnlyPaths(c: Config, s: State, req: WirePayload, now: int)
    requires Inv(c, s) && WellTyped(req) && Overruns(c, s, req, now)
    ensures
      || (ChangesFiles(req.optCode) && !InBuffer(c, s.tree, req))
      || (req.optCode == ACT_LIST_REMOTE_DIRECTORY && !ListStaysInBuffers(c, s.tree, CString(req.body.path)))
  {
    hide IsHome, Bounded, WellFormed, Holds, InBuffer, CString, Inv, UsersAfter, UserCode, StorableTable, CleanTable;
    hide PassGate, ListStaysInBuffers;
    InvParts(c, s);
    GateBound(c, s, req, now, 0);
    var account := PassGate(c, s, req, now, 0).account;
    if req.optCode == ACT_USER_OPERATION {
      UsersAfterIsStorable(c.sha, s.users, account, req.body);
      PrintableIsBounded(UsersAfter(c.sha, s.users, account, req.body));
    }
  }

  lemma GateBound(c: Config, s: State, req: WirePayload, now: int, drawn: nat)
    requires forall n | n in s.users :: s.users[n].permission <= ADMIN
    ensures var gate := PassGate(c, s, req, now, drawn); gate.Admitted? ==> gate.account.permission <= ADMIN
  {
    hide IsHome, CString;
  }

  lemma UsersAfterIsStorable(sha: Hasher, users: Table, account: Account, body: Body)
    requires StorableTable(users) && CleanTable(users) && body.User? && account.permission <= ADMIN
    ensures StorableTable(UsersAfter(sha, users, account, body))
    ensures forall n | n in UsersAfter(sha, users, account, body) ::
      UsersAfter(sha, users, account, body)[n].permission <= ADMIN
    ensures UserCode(users, account, body) == OP_SUCCESS ==>
      (CleanTable(UsersAfter(sha, users, account, body))
       <==> body.flag != USR_ACT_CREATE_USER || Clean(CString(body.name)))
  {
    hide Clean;
    var name := CString(body.name);
    if UserCode(users, account, body) == OP_SUCCESS && body.flag == USR_ACT_CREATE_USER {
      assert name in UsersAfter(sha, users, account, body);
    }
  }

  lemma SessionsKeepInv(c: Config, s: State, sessions: map<nat, int>)
    requires Inv(c, s)
    ensures Inv(c, s.(sessions := sessions))
  {
    hide WellFormed, StorableTable, CleanTable, Holds;
  }

  lemma UserStepKeepsInvIff(c: Config, s: State, account: Account, body: Body, s': State, code: Byte)
    requires Inv(c, s) && body.User? && account.permission <= ADMIN
    requires UserAction(c, s, account, body, s', code)
    ensures Inv(c, s') <==> !(code == OP_SUCCESS && body.flag == USR_ACT_CREATE_USER && !Clean(CString(body.name)))
  {
    hide IsHome, Saved, Holds, WellFormed, StorableTable, CleanTable, Clean, CString, UserCode, UsersAfter, DirPath;
    hide DbPath, HashPath, HashesFit;
    InvParts(c, s);
    UsersAfterIsStorable(c.sha, s.users, account, body);
    if code == OP_SUCCESS {
      SavedKeepsWellFormed(c, s, s'.users, s'.tree);
      SavedHoldsIff(c.sha, c.home, s.tree, s'.users, s'.tree);
    } else {
      UnchangedUsers(c.sha, s.users, account, body);
    }
  }

  lemma UnchangedUsers(sha: Hasher, users: Table, account: Account, body: Body)
    requires body.User?
    ensures UserCode(users, account, body) != OP_SUCCESS ==> UsersAfter(sha, users, account, body) == users
  {
    hide UserCode;
  }

  lemma DbDirIsNotEmpty(tree: Tree, home: Path)
    requires IsFile(tree, DbPath(home))
    ensures Children(tree, DirPath(home)) != {}
  {
    assert Parent(DbPath(home)) == DirPath(home);
    EntryOfParent(tree, DbPath(home));
  }

  /** Disk and memory agree after a change of the tree if the directory and the two files are as before. */
  lemma HoldsDependsOnFiles(c: Config, tree: Tree, users: Table, tree': Tree)
    requires Holds(c.sha, c.home, tree, users)
    requires SamePath(tree, tree', DirPath(c.home))
    requires SamePath(tree, tree', DbPath(c.home)) && SamePath(tree, tree', HashPath(c.home))
    ensures Holds(c.sha, c.home, tree', users)
  {
    hide IsHome, DbBytes, IsOrder, DbPath, HashPath, DirPath;
    var order :| HeldInOrder(c.sha, c.home, tree, users, order);
    assert HeldInOrder(c.sha, c.home, tree', users, order);
  }

  /** In one order of printing: what holds after a file was put at one of the two paths. */
  lemma HeldAfterPut(
      sha: Hasher, home: Path, tree: Tree, users: Table, p: Path, data: Text, order: seq<Text>, printed: Text)
    requires IsOrder(order, users) && IsFile(tree, DbPath(home)) && IsFile(tree, HashPath(home))
    requires printed == DbBytes(order, users)
    requires tree[HashPath(home)].data == MAGIC + sha(tree[DbPath(home)].data)
    requires IsDbFile(home, p)
    ensures var db := tree[DbPath(home)].data;
            HeldInOrder(sha, home, tree[p := File(data)], users, order)
            <==> if p == HashPath(home) then db == printed && data == MAGIC + sha(db)
                 else data == printed && sha(data) == sha(db)
  {
    hide IsOrder, DbBytes, DbPath, HashPath, FileAt;
    DbPathsDiffer(home);
    var t := tree[p := File(data)];
    HeldIsFiles(sha, home, t, users, order, printed);
    SameAfterMagic(sha(tree[DbPath(home)].data), sha(printed));
    FileAtAfterPut(tree, p, data, DbPath(home), printed);
    FileAtAfterPut(tree, p, data, HashPath(home), MAGIC + sha(printed));
  }

  lemma FileAtAfterPut(tree: Tree, p: Path, data: Text, q: Path, want: Text)
    requires IsFile(tree, q)
    ensures FileAt(tree[p := File(data)], q, want) <==> (if p == q then data else tree[q].data) == want
  {
  }

  lemma EquivalentHolds(sha: Hasher, home: Path, tree: Tree, users: Table, p: Path, data: Text)
    requires Holds(sha, home, tree, users) && IsDbFile(home, p) && Equivalent(sha, home, tree, users, p, data)
    ensures Holds(sha, home, tree[p := File(data)], users)
  {
    hide PrintTable, WrittenSize, DbPath, HashPath, DirPath, HeldInOrder;
    DbDirStays(home, tree, p, data);
    var order0 :| HeldInOrder(sha, home, tree, users, order0);
    HeldGives(sha, home, tree, users, order0);
    if p == HashPath(home) {
      HeldAfterPut(sha, home, tree, users, p, data, order0, DbBytes(order0, users));
    } else {
      var order :| IsOrder(order, users) && data == DbBytes(order, users);
      HeldAfterPut(sha, home, tree, users, p, data, order, DbBytes(order, users));
    }
  }

  lemma HoldsIsEquivalent(sha: Hasher, home: Path, tree: Tree, users: Table, p: Path, data: Text)
    requires Holds(sha, home, tree, users) && IsDbFile(home, p) && Holds(sha, home, tree[p := File(data)], users)
    ensures Equivalent(sha, home, tree, users, p, data)
  {
    hide PrintTable, WrittenSize, DbPath, HashPath, DirPath, HeldInOrder;
    var order0 :| HeldInOrder(sha, home, tree, users, order0);
    HeldGives(sha, home, tree, users, order0);
    var t := tree[p := File(data)];
    var order :| HeldInOrder(sha, home, t, users, order);
    HeldGives(sha, home, t, users, order);
    HeldAfterPut(sha, home, tree, users, p, data, order, DbBytes(order, users));
  }

  lemma HoldsAfterPut(c: Config, s: State, req: WirePayload)
    requires Holds(c.sha, c.home, s.tree, s.users) && req.body.Std? && req.body.stream.Some?
    requires req.optCode == ACT_PUT_REMOTE_FILE && TouchesDb(c, s.tree, req)
    ensures var t := s.tree[Touched(c, s.tree, req).value := File(req.body.stream.value)];
            Holds(c.sha, c.home, t, s.users) <==> WritesEquivalent(c, s, req)
  {
    hide IsHome, Touched, Holds, Equivalent, IsDbFile, ChangesFiles;
    var data, p := req.body.stream.value, Touched(c, s.tree, req).value;
    if WritesEquivalent(c, s, req) {
      EquivalentHolds(c.sha, c.home, s.tree, s.users, p, data);
    }
    if Holds(c.sha, c.home, s.tree[p := File(data)], s.users) {
      HoldsIsEquivalent(c.sha, c.home, s.tree, s.users, p, data);
    }
  }

  lemma DbDirStays(home: Path, tree: Tree, p: Path, data: Text)
    requires IsDir(tree, DirPath(home)) && IsDbFile(home, p)
    ensures IsDir(tree[p := File(data)], DirPath(home))
  {
    hide DirPath, DbPath, HashPath;
    DbPathsDiffer(home);
  }

  lemma HeldGives(sha: Hasher, home: Path, tree: Tree, users: Table, order: seq<Text>)
    requires HeldInOrder(sha, home, tree, users, order)
    ensures IsOrder(order, users) && IsFile(tree, DbPath(home)) && IsFile(tree, HashPath(home))
    ensures tree[DbPath(home)].data == DbBytes(order, users)
    ensures tree[HashPath(home)].data == MAGIC + sha(tree[DbPath(home)].data)
  {
    hide IsOrder, DbBytes, DbPath, HashPath;
  }

  lemma SameAfterMagic(a: Text, b: Text)
    ensures MAGIC + a == MAGIC + b <==> a == b
  {
    assert (MAGIC + a)[4..] == a && (MAGIC + b)[4..] == b;
  }

  predicate SameDbPaths(home: Path, tree: Tree, tree': Tree) {
    SamePath(tree, tree', DirPath(home)) && SamePath(tree, tree', DbPath(home)) && SamePath(tree, tree', HashPath(home))
  }

  /** A successful file operation that is not about a database file leaves ".cape" itself and both files; one
      that is about them removes or overwrites one. */
  lemma ChangesOnDb(home: Path, tree: Tree, req: WirePayload, p: Path, t: Tree)
    requires req.body.Std? && ChangesFiles(req.optCode) && ChangesAt(tree, req, p, t)
    requires IsDir(tree, DirPath(home)) && IsFile(tree, DbPath(home)) && IsFile(tree, HashPath(home))
    ensures !IsDbFile(home, p) ==> SameDbPaths(home, tree, t)
    ensures IsDbFile(home, p) ==>
      if req.optCode == ACT_DELETE_REMOTE_FILE then !IsFile(t, DbPath(home)) || !IsFile(t, HashPath(home))
      else
        && req.optCode == ACT_PUT_REMOTE_FILE && req.body.stream.Some?
        && t == tree[p := File(req.body.stream.value)]
  {
    hide Children, DirPath, DbPath, HashPath;
    DbPathsDiffer(home);
    DbDirIsNotEmpty(tree, home);
  }

  lemma FileStepKeepsInvIff(c: Config, s: State, req: WirePayload)
    requires Inv(c, s) && req.body.Std? && ChangesFiles(req.optCode) && InBuffer(c, s.tree, req)
    ensures var (t, code) := FileAction(c, s.tree, req);
            Inv(c, s.(tree := t))
            <==> !(code == OP_SUCCESS && TouchesDb(c, s.tree, req) && !WritesEquivalent(c, s, req))
  {
    hide IsHome, WellFormed, StorableTable, CleanTable, Holds, FileAction, InBuffer, Touched, DirPath, DbPath, HashPath;
    hide WritesEquivalent, HashesFit, ChangesFiles, SamePath, ChangesAt;
    InvParts(c, s);
    var (t, code) := FileAction(c, s.tree, req);
    if code == OP_SUCCESS {
      FileActionEffect(c, s.tree, req);
      ChangesOnDb(c.home, s.tree, req, Touched(c, s.tree, req).value, t);
      if !TouchesDb(c, s.tree, req) {
        HoldsDependsOnFiles(c, s.tree, s.users, t);
      } else if req.optCode == ACT_DELETE_REMOTE_FILE {
        HoldsNeedsFiles(c, t, s.users);
        assert !WritesEquivalent(c, s, req) by {
          DeleteIsNoPut(c, s, req);
        }
      } else {
        HoldsAfterPut(c, s, req);
      }
    } else {
      FailedFileAction(c, s.tree, req);
    }
  }

  lemma FailedTreeAction(tree: Tree, home: Path, path: Text, stream: Option<Text>)
    ensures PutInBuffer(tree, home, path) ==>
      var (t, code) := PutFile(tree, home, path, stream); code == OP_SUCCESS || t == tree
    ensures JoinsInBuffer(tree, home, path) ==>
      var (t, code) := MakeDir(tree, home, path); code == OP_SUCCESS || t == tree
    ensures var (t, code) := DelFile(tree, home, path); code == OP_SUCCESS || t == tree
  {
    hide Target, NewPlace, Children, IsDir, ValidName, JoinsInBuffer;
  }

  lemma FailedFileAction(c: Config, tree: Tree, req: WirePayload)
    requires req.body.Std? && ChangesFiles(req.optCode) && InBuffer(c, tree, req)
    ensures FileAction(c, tree, req).1 != OP_SUCCESS ==> FileAction(c, tree, req).0 == tree
  {
    hide IsHome, PutFile, MakeDir, DelFile, CString, JoinsInBuffer;
    FailedTreeAction(tree, c.home, CString(req.body.path), req.body.stream);
  }

  lemma DeleteIsNoPut(c: Config, s: State, req: WirePayload)
    requires req.body.Std? && req.optCode == ACT_DELETE_REMOTE_FILE
    ensures !WritesEquivalent(c, s, req)
  {
    hide IsHome, Touched, Equivalent;
  }

  lemma HoldsNeedsFiles(c: Config, tree: Tree, users: Table)
    ensures Holds(c.sha, c.home, tree, users) ==>
      IsDir(tree, DirPath(c.home)) && IsFile(tree, DbPath(c.home)) && IsFile(tree, HashPath(c.home))
  {
    hide IsHome, DbBytes, IsOrder;
  }

  /** What spoiling means for each kind of request. */
  lemma SpoilsByBody(c: Config, s: State, req: WirePayload, now: int, code: Byte)
    ensures req.body.User? ==>
      (Spoils(c, s, Served(req, now), code)
       <==> code == OP_SUCCESS && req.body.flag == USR_ACT_CREATE_USER && !Clean(CString(req.body.name)))
    ensures req.body.Std? ==>
      (Spoils(c, s, Served(req, now), code)
       <==> code == OP_SUCCESS && TouchesDb(c, s.tree, req) && !WritesEquivalent(c, s, req))
    ensures (req.body.Std? && !ChangesFiles(req.optCode)) || req.body.NoBody? ==> !Spoils(c, s, Served(req, now), code)
  {
    hide IsHome, Touched, WritesEquivalent, Clean, CString, DbPath, HashPath;
  }

  lemma ActKeepsInvIff(
      c: Config, s: State, account: Account, req: WirePayload, s': State, code: Byte, content: Option<Content>,
      now: int)
    requires Inv(c, s) && WellTyped(req) && account.permission <= ADMIN
    requires Act(c, s, account, req, s', code, content)
    ensures Inv(c, s') <==> !Spoils(c, s, Served(req, now), code)
  {
    hide IsHome, UserAction, FileAction, ListAction, GetFile, Inv, WritesEquivalent, InBuffer, Clean, CString;
    hide TouchesDb, Spoils, DbPath, HashPath, DirPath, Sane, StorableTable, CleanTable;
    InvParts(c, s);
    SpoilsByBody(c, s, req, now, code);
    if req.optCode == ACT_USER_OPERATION {
      UserStepKeepsInvIff(c, s, account, req.body, s', code);
    } else if ChangesFiles(req.optCode) && account.permission >= READ_WRITE {
      FileStepKeepsInvIff(c, s, req);
    }
  }

  lemma ServeKeepsInvIff(c: Config, s: State, req: WirePayload, now: int, drawn: nat, s': State, r: Reply)
    requires Inv(c, s) && Serve(c, s, req, now, drawn, s', r)
    ensures Inv(c, s') <==> !Spoils(c, s, Served(req, now), r.code)
  {
    hide IsHome, Act, Serve, Inv, WellTyped, Spoils, DbPath, HashPath, DirPath, Sane, StorableTable, CleanTable;
    InvParts(c, s);
    var account, m := ServeCases(c, s, req, now, drawn, s', r);
    SessionsKeepInv(c, s, m.sessions);
    if account.Some? {
      ActKeepsInvIff(c, m, account.value, req, s', r.code, r.content, now);
      SpoilsIgnoresSessions(c, s, m.sessions, Served(req, now), r.code);
    } else {
      RefusalSpoilsNothing(c, s, req, now, r.code);
    }
  }

  lemma SpoilsIgnoresSessions(c: Config, s: State, sessions: map<nat, int>, ev: Event, code: Byte)
    ensures Spoils(c, s.(sessions := sessions), ev, code) <==> Spoils(c, s, ev, code)
  {
    hide IsHome, Touched, Equivalent, Clean, CString, IsDbFile;
  }

  lemma RefusalSpoilsNothing(c: Config, s: State, req: WirePayload, now: int, code: Byte)
    requires code != OP_SUCCESS
    ensures !Spoils(c, s, Served(req, now), code)
  {
    hide IsHome, TouchesDb, WritesEquivalent, NamesUnclean;
  }

  lemma OnlyServedSpoils(c: Config, s: State, ev: Event, code: Byte)
    ensures !ev.Served? ==> !Spoils(c, s, ev, code)
  {
    hide IsHome, TouchesDb, WritesEquivalent, NamesUnclean;
  }

  /** A step keeps disk and memory in agreement exactly when it is not one of those that spoil it. Refused
      requests, and every other request inside ".cape", keep it. */
  lemma NextKeepsInvIff(c: Config, s: State, ev: Event, s': State, r: Reply)
    requires Inv(c, s) && Next(c, s, ev, s', r)
    ensures Inv(c, s') <==> !Spoils(c, s, ev, r.code)
    ensures ev.Restart? ==> s'.users == s.users
  {
    hide IsHome, Serve, Restarts, Inv, Spoils;
    OnlyServedSpoils(c, s, ev, r.code);
    match ev
    case Served(req, now) =>
      var drawn: nat :| Serve(c, s, req, now, drawn, s', r);
      ServeKeepsInvIff(c, s, req, now, drawn, s', r);
    case ReadFailed(_) =>
      SessionsKeepInv(c, s, s'.sessions);
    case Restart(saved) =>
      RestartKeepsUsers(c, s, saved, s');
  }

  /** Stopping and starting again keeps the users, and every path but the two database files. */
  lemma RestartKeepsUsers(c: Config, s: State, saved: bool, s': State)
    requires Inv(c, s) && (exists tree: Tree :: Restarts(c, s, saved, tree, s'))
    ensures Inv(c, s') && s'.users == s.users
    ensures forall p | !IsDbFile(c.home, p) :: SamePath(s.tree, s'.tree, p)
  {
    hide IsHome, Init, Saved, IsDbFile, SamePath, Inv;
    var tree: Tree :| Restarts(c, s, saved, tree, s');
    if saved {
      SavedKeepsInv(c, s, tree);
    }
    InvReloads(c, s.(tree := tree));
    forall p | !IsDbFile(c.home, p) ensures SamePath(s.tree, s'.tree, p) {
      SameTree(s.tree, p);
      if saved {
        SavedSamePath(c, s.tree, s.users, tree, p);
      }
    }
  }

  lemma SameTree(tree: Tree, p: Path)
    ensures SamePath(tree, tree, p)
  {
  }

  lemma SavedKeepsInv(c: Config, s: State, tree: Tree)
    requires Inv(c, s) && Saved(c.sha, c.home, s.tree, s.users, tree)
    ensures Inv(c, s.(tree := tree))
  {
    hide WellFormed, Holds, DbBytes, Saved, StorableTable, CleanTable;
    InvParts(c, s);
    SavedKeepsWellFormed(c, s, s.users, tree);
    SavedHoldsIff(c.sha, c.home, s.tree, s.users, tree);
  }

  lemma InvReloads(c: Config, s: State)
    requires Inv(c, s)
    ensures Init(c.sha, c.home, s.tree) == InitResult(s.tree, Loaded(s.users))
    ensures Inv(c, s.(sessions := map[]))
  {
    InitReloads(c.sha, c.home, s.tree, s.users);
  }

  /** The input: DELETE of ".cape/.cape.db" succeeds, and the server cannot be started again. */
  lemma DeletedDbIsFatal(c: Config, s: State)
    requires Inv(c, s)
    ensures DelFile(s.tree, c.home, DB_NAME) == (s.tree - {DbPath(c.home)}, OP_SUCCESS)
    ensures var t := s.tree - {DbPath(c.home)};
            Init(c.sha, c.home, t) == InitResult(t, Rejected)
  {
    hide IsHome, WellFormed, Target, Inv, Sane, StorableTable, CleanTable, Init, RemoveAt, DbPath, HashPath, DirPath;
    InvParts(c, s);
    assert WellFormed(s.tree) by {
      SaneIsWellFormed(s);
    }
    DbPathsDiffer(c.home);
    ResolveDbFiles(s.tree, c.home);
    RemoveOfFile(s.tree, DbPath(c.home));
    OneFileIsRefused(c.sha, c.home, s.tree - {DbPath(c.home)});
  }

  lemma RemoveOfFile(tree: Tree, p: Path)
    requires IsFile(tree, p)
    ensures RemoveAt(tree, p) == (tree - {p}, OP_SUCCESS)
  {
  }

  lemma SaneIsWellFormed(s: State)
    requires Sane(s)
    ensures WellFormed(s.tree)
  {
    hide WellFormed, HashesFit;
  }

  // ----- privilege across restarts -----

  /** The database files are in place, every account is tame, and whatever the files load to has no permission
      above those in memory. */
  ghost predicate Quiet(c: Config, s: State) {
    && WellFormed(s.tree) && IsDir(s.tree, DirPath(c.home))
    && IsFile(s.tree, DbPath(c.home)) && IsFile(s.tree, HashPath(c.home))
    && TameUpTo(s.users, ADMIN)
    && forall limit: int | TameUpTo(s.users, limit) :: LoadsUpTo(c, s.tree, limit)
  }

  ghost predicate LoadsUpTo(c: Config, tree: Tree, limit: int) {
    var r := ReadBoth(c.sha, c.home, tree);
    r.Loaded? ==> TameUpTo(r.users, limit)
  }

  /** A request to create a user whose record is read back with more permission than it was created with. */
  predicate NamesUntame(c: Config, req: WirePayload) {
    && req.body.User? && req.body.flag == USR_ACT_CREATE_USER && req.body.passwd.Some?
    && !Tame(CString(req.body.name), Account(req.body.permission, c.sha(CString(req.body.passwd.value))))
  }

  /** The steps privilege across restarts has to be protected from. */
  predicate Upsets(c: Config, s: State, ev: Event, code: Byte) {
    ev.Served? && code == OP_SUCCESS && (NamesUntame(c, ev.req) || TouchesDb(c, s.tree, ev.req))
  }

  lemma CleanIsTame(users: Table)
    requires StorableTable(users) && CleanTable(users)
    ensures TameUpTo(users, ADMIN)
  {
    hide ReadsUpTo;
    forall n | n in users ensures Tame(n, users[n]) {
      assert Storable(n, users[n]) && Clean(n);
      PlainReadsUpTo(n, users[n]);
    }
  }

  lemma InvIsQuiet(c: Config, s: State)
    requires Inv(c, s)
    ensures Quiet(c, s)
  {
    hide IsHome, ReadBoth, WellFormed, Holds, TameUpTo, StorableTable, CleanTable, DirPath, DbPath, HashPath;
    hide HashesFit;
    InvParts(c, s);
    HeldFilesLoad(c.sha, c.home, s.tree, s.users);
    CleanIsTame(s.users);
  }

  lemma SavedIsQuiet(c: Config, s: State, users: Table, s': State)
    requires WellFormed(s.tree) && IsDir(s.tree, DirPath(c.home))
    requires IsFile(s.tree, DbPath(c.home)) && IsFile(s.tree, HashPath(c.home))
    requires TameUpTo(users, ADMIN)
    requires s'.users == users && Saved(c.sha, c.home, s.tree, users, s'.tree)
    ensures Quiet(c, s')
  {
    hide WellFormed, Saved, ReadBoth, TameUpTo, DirPath, DbPath, HashPath;
    SavedKeepsWellFormed(c, s, users, s'.tree);
    SavedHoldsIff(c.sha, c.home, s.tree, users, s'.tree);
    HoldsNeedsFiles(c, s'.tree, users);
    forall limit: int | TameUpTo(users, limit) ensures LoadsUpTo(c, s'.tree, limit) {
      HeldFilesRaiseNothing(c.sha, c.home, s'.tree, users, limit);
    }
  }

  lemma UsersAfterAreTame(sha: Hasher, users: Table, account: Account, body: Body)
    requires TameUpTo(users, ADMIN) && body.User? && account.permission <= ADMIN
    requires UserCode(users, account, body) == OP_SUCCESS && body.flag == USR_ACT_CREATE_USER && body.passwd.Some? ==>
      Tame(CString(body.name), Account(body.permission, sha(CString(body.passwd.value))))
    ensures TameUpTo(UsersAfter(sha, users, account, body), ADMIN)
  {
    hide Tame, CString;
  }

  lemma UserStepKeepsQuiet(c: Config, s: State, account: Account, body: Body, s': State, code: Byte)
    requires Quiet(c, s) && body.User? && account.permission <= ADMIN
    requires UserAction(c, s, account, body, s', code)
    requires code == OP_SUCCESS && body.flag == USR_ACT_CREATE_USER && body.passwd.Some? ==>
      Tame(CString(body.name), Account(body.permission, c.sha(CString(body.passwd.value))))
    ensures Quiet(c, s')
  {
    hide WellFormed, Saved, ReadBoth, TameUpTo, CString, UserCode, UsersAfter, DirPath, DbPath, HashPath, Tame;
    UsersAfterAreTame(c.sha, s.users, account, body);
    UnchangedUsers(c.sha, s.users, account, body);
    if code == OP_SUCCESS {
      SavedIsQuiet(c, s, s'.users, s');
    }
  }

  lemma ReadDependsOnFiles(c: Config, tree: Tree, tree': Tree)
    requires SamePath(tree, tree', DbPath(c.home)) && SamePath(tree, tree', HashPath(c.home))
    ensures ReadBoth(c.sha, c.home, tree') == ReadBoth(c.sha, c.home, tree)
  {
    hide LoadFiles, DbPath, HashPath;
  }

  lemma FileStepKeepsQuiet(c: Config, s: State, req: WirePayload)
    requires Quiet(c, s) && req.body.Std? && ChangesFiles(req.optCode) && InBuffer(c, s.tree, req)
    requires FileAction(c, s.tree, req).1 == OP_SUCCESS ==> !TouchesDb(c, s.tree, req)
    ensures Quiet(c, s.(tree := FileAction(c, s.tree, req).0))
  {
    hide IsHome, WellFormed, ReadBoth, TameUpTo, FileAction, InBuffer, Touched, DirPath, DbPath, HashPath;
    hide ChangesFiles, ChangesAt;
    var (t, code) := FileAction(c, s.tree, req);
    if code == OP_SUCCESS {
      FileActionEffect(c, s.tree, req);
      ChangesOnDb(c.home, s.tree, req, Touched(c, s.tree, req).value, t);
      ReadDependsOnFiles(c, s.tree, t);
    } else {
      FailedFileAction(c, s.tree, req);
    }
  }

  lemma SessionsKeepQuiet(c: Config, s: State, sessions: map<nat, int>)
    requires Quiet(c, s)
    ensures Quiet(c, s.(sessions := sessions))
  {
    hide WellFormed, ReadBoth, TameUpTo;
  }

  lemma ActKeepsQuiet(
      c: Config, s: State, account: Account, req: WirePayload, s': State, code: Byte, content: Option<Content>)
    requires Quiet(c, s) && WellTyped(req) && account.permission <= ADMIN
    requires Act(c, s, account, req, s', code, content)
    requires code == OP_SUCCESS ==> !NamesUntame(c, req) && !TouchesDb(c, s.tree, req)
    ensures Quiet(c, s')
  {
    hide IsHome, UserAction, FileAction, ListAction, GetFile, Quiet, InBuffer, CString, TouchesDb, Tame;
    if req.optCode == ACT_USER_OPERATION {
      hide Act;
      ActIsUserAction(c, s, account, req, s', code, content);
      UserStepKeepsQuiet(c, s, account, req.body, s', code);
    } else if ChangesFiles(req.optCode) && account.permission >= READ_WRITE {
      FileStepKeepsQuiet(c, s, req);
    }
  }

  lemma QuietPermissions(c: Config, s: State)
    requires Quiet(c, s)
    ensures forall n | n in s.users :: s.users[n].permission <= ADMIN
  {
    hide IsHome, WellFormed, ReadBoth, LoadsUpTo;
    assert TameUpTo(s.users, ADMIN);
  }

  lemma ServeKeepsQuiet(c: Config, s: State, req: WirePayload, now: int, drawn: nat, s': State, r: Reply)
    requires Quiet(c, s) && Serve(c, s, req, now, drawn, s', r) && !Upsets(c, s, Served(req, now), r.code)
    ensures Quiet(c, s')
  {
    hide IsHome, Act, Serve, Quiet, WellTyped, NamesUntame, TouchesDb;
    QuietPermissions(c, s);
    var account, m := ServeCases(c, s, req, now, drawn, s', r);
    SessionsKeepQuiet(c, s, m.sessions);
    if account.Some? {
      ActKeepsQuiet(c, m, account.value, req, s', r.code, r.content);
    }
  }

  /** A restart from a quiet state raises no permission, and ends in a quiet state. */
  lemma RestartStaysQuiet(c: Config, s: State, saved: bool, tree: Tree, s': State)
    requires Quiet(c, s) && Restarts(c, s, saved, tree, s')
    ensures Quiet(c, s')
    ensures forall limit: int | TameUpTo(s.users, limit) :: TameUpTo(s'.users, limit)
  {
    hide IsHome, WellFormed, Saved, ReadBoth, TameUpTo, DirPath, DbPath, HashPath, Quiet;
    var stopped := s.(tree := tree);
    if saved {
      QuietParts(c, s);
      SavedIsQuiet(c, s, s.users, stopped);
    }
    StartIsQuiet(c, stopped, s');
  }

  lemma QuietParts(c: Config, s: State)
    requires Quiet(c, s)
    ensures WellFormed(s.tree) && IsDir(s.tree, DirPath(c.home))
    ensures IsFile(s.tree, DbPath(c.home)) && IsFile(s.tree, HashPath(c.home))
    ensures TameUpTo(s.users, ADMIN)
  {
    hide IsHome, WellFormed, TameUpTo, LoadsUpTo, DirPath, DbPath, HashPath;
  }

  lemma StartIsQuiet(c: Config, s: State, s': State)
    requires Quiet(c, s) && Init(c.sha, c.home, s.tree).loaded.Loaded?
    requires var r := Init(c.sha, c.home, s.tree); s' == State(r.loaded.users, map[], r.tree)
    ensures Quiet(c, s')
    ensures forall limit: int | TameUpTo(s.users, limit) :: TameUpTo(s'.users, limit)
  {
    hide IsHome, WellFormed, ReadBoth, TameUpTo, DirPath, DbPath, HashPath, StoreFiles, DbBytes;
    assert s'.tree == s.tree && ReadBoth(c.sha, c.home, s.tree) == Loaded(s'.users);
    assert LoadsUpTo(c, s.tree, ADMIN);
  }

  /** Every step but the ones that upset it keeps a quiet state, and a restart raises no permission. */
  lemma NextKeepsQuiet(c: Config, s: State, ev: Event, s': State, r: Reply)
    requires Quiet(c, s) && Next(c, s, ev, s', r) && !Upsets(c, s, ev, r.code)
    ensures Quiet(c, s')
    ensures ev.Restart? ==> forall limit: int | TameUpTo(s.users, limit) :: TameUpTo(s'.users, limit)
  {
    hide Serve, Restarts, Quiet, Upsets, TameUpTo;
    match ev
    case Served(req, now) =>
      var drawn: nat :| Serve(c, s, req, now, drawn, s', r);
      ServeKeepsQuiet(c, s, req, now, drawn, s', r);
    case ReadFailed(_) =>
      SessionsKeepQuiet(c, s, s'.sessions);
    case Restart(saved) =>
      var tree: Tree :| Restarts(c, s, saved, tree, s');
      RestartStaysQuiet(c, s, saved, tree, s');
  }
}
