/** What the next start of the server makes of a user name with a ':': whether it starts at all, and with which
    accounts. */
module NextStart {
  import opened Bytes
  import opened Codes
  import opened Paths
  import opened FileTree
  import opened Accounts
  import opened Reload
  import opened Crypto
  import opened FileApi
  import opened Store
  import opened Database
  import opened Protocol
  import opened Runs

  /** The log line is the successful creation of this user. */
  predicate Creates(e: LogLine, name: Text) {
    && e.ev.Served? && e.reply.code == OP_SUCCESS
    && e.ev.req.optCode == ACT_USER_OPERATION && e.ev.req.body.User?
    && e.ev.req.body.flag == USR_ACT_CREATE_USER && CString(e.ev.req.body.name) == name
  }

  /** Files and memory agree on a table in which this name has a ':' and no newline, beside clean names. */
  ghost predicate HasColonName(c: Config, s: State, name: Text) {
    WellFormed(s.tree) && Holds(c.sha, c.home, s.tree, s.users) && ColonBeside(s.users, name)
  }

  // ----- after the creation -----

  lemma HoldsIsSavable(sha: Hasher, home: Path, tree: Tree, users: Table)
    requires Holds(sha, home, tree, users)
    ensures Savable(home, tree)
  {
    hide IsHome, IsOrder, DbBytes, DirPath, DbPath, HashPath;
  }

  lemma CreatedBeside(sha: Hasher, users: Table, account: Account, body: Body)
    requires StorableTable(users) && CleanTable(users) && account.permission <= ADMIN
    requires body.User? && body.flag == USR_ACT_CREATE_USER && UserCode(users, account, body) == OP_SUCCESS
    ensures CString(body.name) !in users
    ensures CleanBeside(CString(body.name), UsersAfter(sha, users, account, body))
  {
    hide CString, Clean, Storable;
    UsersAfterIsStorable(sha, users, account, body);
  }

  /** From an agreeing state a creation leaves the new table on disk, whatever the name. */
  lemma CreationIsHeld(c: Config, s: State, e: LogLine, s1: State, name: Text)
    requires Inv(c, s) && Next(c, s, e.ev, s1, e.reply) && Creates(e, name)
    ensures WellFormed(s1.tree) && Holds(c.sha, c.home, s1.tree, s1.users)
    ensures name !in s.users && CleanBeside(name, s1.users)
  {
    hide IsHome, Act, Next, Inv, Authenticate, CString, Authorized, WellFormed, Holds, StorableTable, CleanTable;
    hide Savable, UserCode, UsersAfter, Saved, CleanBeside, HashesFit, WellTyped;
    InvParts(c, s);
    NextKeepsSane(c, s, e.ev, s1, e.reply);
    InvHolds(c, s);
    HoldsIsSavable(c.sha, c.home, s.tree, s.users);
    UserChangeHoldsIff(c, s, e, s1);
    var account, m := ServeUnfolds(c, s, e, s1);
    GateAccount(c, s, e.ev.req, account);
    ActIsUserAction(c, m, account, e.ev.req, s1, e.reply.code, e.reply.content);
    CreatedBeside(c.sha, s.users, account, e.ev.req.body);
  }

  lemma InvHolds(c: Config, s: State)
    requires Inv(c, s)
    ensures Holds(c.sha, c.home, s.tree, s.users)
  {
    hide Holds, WellFormed, StorableTable, CleanTable;
  }

  lemma GateAccount(c: Config, s: State, req: WirePayload, account: Account)
    requires forall n | n in s.users :: s.users[n].permission <= ADMIN
    requires CString(req.username) in s.users && account == s.users[CString(req.username)]
    ensures account.permission <= ADMIN
  {
    hide CString;
  }

  /** The creation of a name with a ':' ends the agreement in fact: no start on a tree that holds the new table
      loads that table. */
  lemma ColonCreationIsLost(c: Config, s: State, e: LogLine, s1: State, name: Text, tree: Tree)
    requires Inv(c, s) && Next(c, s, e.ev, s1, e.reply) && Creates(e, name) && COLON in name
    ensures Holds(c.sha, c.home, s1.tree, s1.users)
    ensures Holds(c.sha, c.home, tree, s1.users) ==> Init(c.sha, c.home, tree).loaded != Loaded(s1.users)
  {
    hide IsHome, Inv, Next, Creates, Holds, Init;
    CreationIsHeld(c, s, e, s1, name);
    if Holds(c.sha, c.home, tree, s1.users) {
      assert forall n | n in s1.users :: Storable(n, s1.users[n]);
      HeldColonIsLost(c.sha, c.home, tree, s1.users, name);
    }
  }

  lemma CreationHasColonName(c: Config, s: State, e: LogLine, s1: State, name: Text)
    requires Inv(c, s) && Next(c, s, e.ev, s1, e.reply) && Creates(e, name)
    requires COLON in name && NEWLINE !in name
    ensures HasColonName(c, s1, name) && name !in s.users
  {
    hide IsHome, Inv, Next, Creates, Holds, WellFormed, CleanBeside;
    CreationIsHeld(c, s, e, s1, name);
  }

  // ----- the start -----

  /** What a stop leaves holds the same table, saved again or not. */
  lemma StoppedHolds(c: Config, s: State, saved: bool, tree: Tree)
    requires Holds(c.sha, c.home, s.tree, s.users)
    requires if saved then Saved(c.sha, c.home, s.tree, s.users, tree) else tree == s.tree
    ensures Holds(c.sha, c.home, tree, s.users)
  {
    hide IsHome, Saved, Holds, Savable;
    if saved {
      HoldsIsSavable(c.sha, c.home, s.tree, s.users);
      SavedHoldsIff(c.sha, c.home, s.tree, s.users, tree);
    }
  }

  lemma LoadedAfterStart(sha: Hasher, home: Path, tree: Tree, users: Table, name: Text)
    requires Holds(sha, home, tree, users) && ColonBeside(users, name)
    ensures var r, t := Init(sha, home, tree), Reading(name, users[name]);
      && (r.loaded.Loaded? <==> t.Took?)
      && (t.Took? ==> exists order ::
           IsOrder(order, users) && r.loaded.users == AfterStart(order, users, name, t))
  {
    hide Init, Reading, AfterStart, IsOrder, DbBytes, Clean, Storable;
    var order :| HeldInOrder(sha, home, tree, users, order);
    InitReadsColonName(sha, home, tree, users, name, order);
  }

  /** These users are what a start makes of that table: the record of the name is read as an account, which
      takes its place as the order of printing decides. */
  ghost predicate ReadBack(users: Table, name: Text, users': Table) {
    && name in users && Reading(name, users[name]).Took?
    && exists order :: IsOrder(order, users) && users' == AfterStart(order, users, name, Reading(name, users[name]))
  }

  /** A start from such a state succeeds only so. */
  lemma StartReads(c: Config, s: State, e: LogLine, s': State, name: Text)
    requires HasColonName(c, s, name) && Next(c, s, e.ev, s', e.reply) && e.ev.Restart?
    ensures ReadBack(s.users, name, s'.users)
  {
    hide IsHome, Init, Saved, Holds, Reading, AfterStart, IsOrder, WellFormed, Clean, Storable, Serve;
    var tree: Tree :| Restarts(c, s, e.ev.saved, tree, s');
    StoppedHolds(c, s, e.ev.saved, tree);
    LoadedAfterStart(c.sha, c.home, tree, s.users, name);
  }

  /** The tree db_shutdown leaves when it prints in this order. */
  lemma SavedInOrderHolds(c: Config, s: State, name: Text, order: seq<Text>) returns (tree: Tree)
    requires HasColonName(c, s, name) && IsOrder(order, s.users)
    ensures Saved(c.sha, c.home, s.tree, s.users, tree) && IsDir(tree, c.home) && IsDir(tree, DirPath(c.home))
    ensures HeldInOrder(c.sha, c.home, tree, s.users, order)
  {
    hide IsHome, IsOrder, WellFormed, Holds, HeldInOrder, ColonBeside, DbBytes, Savable, DirPath, Saved;
    HoldsIsSavable(c.sha, c.home, s.tree, s.users);
    BesidePrintable(s.users, name);
    tree := SaveInOrder(c, s, order);
    SavedIsHeld(c.sha, c.home, s.tree, s.users, tree, order);
    SavedKeepsWellFormed(c, s, s.users, tree);
    HomeOfDbDir(c.home, tree);
  }

  lemma SaveInOrder(c: Config, s: State, order: seq<Text>) returns (tree: Tree)
    requires IsOrder(order, s.users) && forall n | n in s.users :: s.users[n].permission <= 9
    ensures SavedInOrder(c.sha, c.home, s.tree, s.users, tree, order)
    ensures Saved(c.sha, c.home, s.tree, s.users, tree)
  {
    hide IsHome, Bounded, DbBytes, StoreFiles;
    PrintableIsBounded(s.users);
    tree := SaveWith(c.sha, c.home, s.tree, s.users, order);
  }

  lemma StartsOn(c: Config, s: State, saved: bool, tree: Tree, r: Reply) returns (s': State)
    requires if saved then Saved(c.sha, c.home, s.tree, s.users, tree) else tree == s.tree
    requires IsDir(tree, c.home) && Init(c.sha, c.home, tree).loaded.Loaded?
    ensures Next(c, s, Restart(saved), s', r) && s'.users == Init(c.sha, c.home, tree).loaded.users
  {
    hide IsHome, Init, Saved, Serve;
    var started := Init(c.sha, c.home, tree);
    s' := State(started.loaded.users, map[], started.tree);
    assert Restarts(c, s, saved, tree, s');
  }

  /** Conversely, whatever order db_shutdown prints in, there is that start. */
  lemma StartsInAnyOrder(c: Config, s: State, name: Text, order: seq<Text>, r: Reply) returns (s': State)
    requires HasColonName(c, s, name) && IsOrder(order, s.users) && name in s.users
    requires Reading(name, s.users[name]).Took?
    ensures Next(c, s, Restart(true), s', r)
    ensures s'.users == AfterStart(order, s.users, name, Reading(name, s.users[name]))
  {
    hide IsHome, Init, Saved, IsOrder, WellFormed, Holds, HeldInOrder, ColonBeside, Reading, AfterStart, DirPath, Next;
    var tree := SavedInOrderHolds(c, s, name, order);
    InitReadsColonName(c.sha, c.home, tree, s.users, name, order);
    s' := StartsOn(c, s, true, tree, r);
  }

  /** The server starts again, saved or not, exactly when the record of the name is read as an account. */
  lemma StartsIffTaken(c: Config, s: State, saved: bool, name: Text, r: Reply)
    requires HasColonName(c, s, name)
    ensures name in s.users
    ensures (exists s' :: Next(c, s, Restart(saved), s', r)) <==> Reading(name, s.users[name]).Took?
  {
    hide IsHome, Init, Saved, IsOrder, WellFormed, HeldInOrder, Storable, Clean, Reading, AfterStart, DirPath, Next;
    var order :| HeldInOrder(c.sha, c.home, s.tree, s.users, order);
    if Reading(name, s.users[name]).Took? {
      if saved {
        HeldIsOrder(c, s, order);
        var s' := StartsInAnyOrder(c, s, name, order, r);
      } else {
        HomeOfDbDir(c.home, s.tree);
        InitReadsColonName(c.sha, c.home, s.tree, s.users, name, order);
        var s' := StartsOn(c, s, false, s.tree, r);
      }
    }
    forall s' | Next(c, s, Restart(saved), s', r) ensures Reading(name, s.users[name]).Took? {
      StartReads(c, s, LogLine(Restart(saved), r), s', name);
    }
  }

  lemma HeldIsOrder(c: Config, s: State, order: seq<Text>)
    requires HeldInOrder(c.sha, c.home, s.tree, s.users, order)
    ensures IsOrder(order, s.users)
  {
    hide IsOrder, DbBytes;
  }

  /** The account a record was read as is there. */
  predicate HasRead(users: Table, t: Turn) {
    t.Took? && t.name in users && users[t.name] == t.account
  }

  lemma AfterStartRaises(users: Table, name: Text, t: Turn, order: seq<Text>, limit: int)
    requires t.Took? && forall n | n in users :: users[n].permission <= limit
    ensures var after := AfterStart(order, users, name, t);
      && (HasAtLeast(after, limit + 1) <==> t.account.permission > limit && HasRead(after, t))
      && (t.name !in users ==> HasRead(after, t))
      && (forall n | n in after && n != t.name :: SameAccount(users, after, n))
  {
    hide ComesAfter;
    var after := AfterStart(order, users, name, t);
    if t.name in after && after[t.name].permission > limit {
      assert after[t.name].permission >= limit + 1;
    }
  }

  /** A permission above all those in memory is there after the start exactly when the record is read as one of
      such a permission and the account it is read as was not replaced by a later record of its name, as it can
      only be where that name is a user's already. */
  lemma RaisedIffTaken(c: Config, s: State, e: LogLine, s': State, name: Text, limit: int)
    requires HasColonName(c, s, name) && Next(c, s, e.ev, s', e.reply) && e.ev.Restart?
    requires forall n | n in s.users :: s.users[n].permission <= limit
    ensures name in s.users && Reading(name, s.users[name]).Took?
    ensures var t := Reading(name, s.users[name]);
      && (HasAtLeast(s'.users, limit + 1) <==> t.account.permission > limit && HasRead(s'.users, t))
      && (t.name !in s.users ==> HasRead(s'.users, t))
      && (forall n | n in s'.users && n != t.name :: SameAccount(s.users, s'.users, n))
  {
    hide IsHome, Next, HasColonName, Reading, IsOrder, AfterStart, HasAtLeast, SameAccount, HasRead;
    StartReads(c, s, e, s', name);
    var t := Reading(name, s.users[name]);
    var order :| IsOrder(order, s.users) && s'.users == AfterStart(order, s.users, name, t);
    AfterStartRaises(s.users, name, t, order, limit);
  }

  // ----- where the account the record is read as belongs to another user -----

  lemma SwappedIsOrder(order: seq<Text>, users: Table, i: nat, j: nat)
    requires IsOrder(order, users) && i < j < |order|
    ensures IsOrder(order[i := order[j]][j := order[i]], users)
  {
    var swapped := order[i := order[j]][j := order[i]];
    assert swapped[i] == order[j] && swapped[j] == order[i];
    forall n | n in users ensures n in swapped {
      var k :| 0 <= k < |order| && order[k] == n;
      assert k != i && k != j ==> swapped[k] == n;
    }
  }

  /** Some order has the record of `later` after that of `name`. */
  lemma SomeOrderAfter(order: seq<Text>, users: Table, name: Text, later: Text) returns (found: seq<Text>)
    requires IsOrder(order, users) && name in users && later in users && name != later
    ensures IsOrder(found, users) && ComesAfter(found, name, later) && !ComesAfter(found, later, name)
  {
    var i :| 0 <= i < |order| && order[i] == name;
    var j :| 0 <= j < |order| && order[j] == later;
    if i < j {
      found := order;
      assert found[i] == name && found[j] == later;
    } else {
      SwappedIsOrder(order, users, j, i);
      found := order[j := order[i]][i := order[j]];
      assert found[j] == name && found[i] == later;
    }
  }

  /** Then the order of printing decides: one start puts the account it is read as in the user's place, another
      leaves the user as it was. */
  lemma OrderDecides(c: Config, s: State, name: Text, r: Reply) returns (s1: State, s2: State)
    requires HasColonName(c, s, name) && name in s.users
    requires Reading(name, s.users[name]).Took? && Reading(name, s.users[name]).name in s.users
    ensures Next(c, s, Restart(true), s1, r) && Next(c, s, Restart(true), s2, r)
    ensures var t := Reading(name, s.users[name]);
      && s1.users == (s.users - {name})[t.name := t.account]
      && s2.users == s.users - {name}
  {
    hide IsHome, Next, Reading, IsOrder, WellFormed, HeldInOrder, ComesAfter, ColonBeside, DirPath;
    var t := Reading(name, s.users[name]);
    ReadingIsOther(s.users, name);
    var order :| HeldInOrder(c.sha, c.home, s.tree, s.users, order);
    HeldIsOrder(c, s, order);
    hide Holds;
    var before := SomeOrderAfter(order, s.users, t.name, name);
    var behind := SomeOrderAfter(order, s.users, name, t.name);
    s1 := StartsInAnyOrder(c, s, name, before, r);
    s2 := StartsInAnyOrder(c, s, name, behind, r);
  }

  // ----- runs after the creation -----

  /** A successful user operation or a successful request about a database file. */
  predicate WritesDb(c: Config, s: State, e: LogLine) {
    && e.ev.Served? && e.reply.code == OP_SUCCESS
    && (e.ev.req.optCode == ACT_USER_OPERATION || TouchesDb(c, s.tree, e.ev.req))
  }

  predicate LeavesDb(c: Config, s: State, e: LogLine) {
    !e.ev.Restart? && !WritesDb(c, s, e)
  }

  lemma SuccessSparesDb(c: Config, s: State, e: LogLine, s': State)
    requires WellFormed(s.tree) && Next(c, s, e.ev, s', e.reply) && LeavesDb(c, s, e)
    requires IsDir(s.tree, DirPath(c.home)) && IsFile(s.tree, DbPath(c.home)) && IsFile(s.tree, HashPath(c.home))
    requires e.ev.Served? && e.reply.code == OP_SUCCESS
    ensures SameDbPaths(c.home, s.tree, s'.tree) && s'.users == s.users
  {
    hide IsHome, Next, Act, Authenticate, CString, WellFormed, WellTyped, FileAction, InBuffer, Touched, Authorized;
    hide DirPath, DbPath, HashPath, SamePath, ChangesAt, ChangesFiles;
    var account, m := ServeUnfolds(c, s, e, s');
    var req := e.ev.req;
    ActIsUserAction(c, m, account, req, s', e.reply.code, e.reply.content);
    if ChangesFiles(req.optCode) && account.permission >= READ_WRITE {
      ActIsFileAction(c, m, account, req, s', e.reply.code, e.reply.content);
      FileActionEffect(c, s.tree, req);
      ChangesOnDb(c.home, s.tree, req, Touched(c, s.tree, req).value, s'.tree);
    } else {
      forall p: Path ensures SamePath(s.tree, s'.tree, p) {
        if !SamePath(s.tree, s'.tree, p) {
          ActOnFiles(c, m, account, req, s', e.reply.code, e.reply.content, p);
        }
      }
    }
  }

  lemma StepSparesDb(c: Config, s: State, e: LogLine, s': State)
    requires WellFormed(s.tree) && Next(c, s, e.ev, s', e.reply) && LeavesDb(c, s, e)
    requires IsDir(s.tree, DirPath(c.home)) && IsFile(s.tree, DbPath(c.home)) && IsFile(s.tree, HashPath(c.home))
    ensures SameDbPaths(c.home, s.tree, s'.tree) && s'.users == s.users
  {
    hide IsHome, Serve, Restarts, Authenticate, WellFormed, DirPath, DbPath, HashPath, TouchesDb;
    if e.ev.Served? {
      hide Next;
      if e.reply.code == OP_SUCCESS {
        SuccessSparesDb(c, s, e, s');
      } else {
        RefusedStepsChangeNothing(c, s, e, s');
      }
    }
  }

  lemma StepKeepsColonName(c: Config, s: State, e: LogLine, s': State, name: Text)
    requires HasColonName(c, s, name) && Next(c, s, e.ev, s', e.reply) && LeavesDb(c, s, e)
    ensures HasColonName(c, s', name) && s'.users == s.users
  {
    hide IsHome, Next, LeavesDb, Holds, WellFormed, DirPath, DbPath, HashPath, SamePath, Clean;
    HoldsNeedsFiles(c, s.tree, s.users);
    assert forall n | n in s.users :: Storable(n, s.users[n]);
    NextKeepsSane(c, s, e.ev, s', e.reply);
    StepSparesDb(c, s, e, s');
    HoldsDependsOnFiles(c, s.tree, s.users, s'.tree);
  }

  lemma {:induction false} ColonNameStays(c: Config, states: seq<State>, log: seq<LogLine>, i: nat, j: nat, name: Text)
    requires IsRun(c, states, log) && i <= j <= |log| && HasColonName(c, states[i], name)
    requires forall k | i <= k < j :: LeavesDb(c, states[k], log[k])
    ensures HasColonName(c, states[j], name) && states[j].users == states[i].users
    decreases j - i
  {
    hide IsHome, Next, LeavesDb, HasColonName;
    if i < j {
      ColonNameStays(c, states, log, i, j - 1, name);
      assert StepAt(c, states, log, j - 1);
      StepKeepsColonName(c, states[j - 1], log[j - 1], states[j], name);
    }
  }

  /** From the creation of a name with a ':' to the next successful change of the users or of a database file:
      there the server is started again only if the record of the name is read as an account, and then it has
      that account for it. */
  lemma StartAfterCreation(c: Config, states: seq<State>, log: seq<LogLine>, i: nat, j: nat, name: Text)
    requires IsRun(c, states, log) && i < j < |log| && Inv(c, states[i]) && Creates(log[i], name)
    requires COLON in name && NEWLINE !in name && log[j].ev.Restart?
    requires forall k | i < k < j :: LeavesDb(c, states[k], log[k])
    ensures ReadBack(states[i + 1].users, name, states[j + 1].users)
  {
    hide IsHome, Next, Inv, Creates, LeavesDb, HasColonName, ReadBack;
    assert StepAt(c, states, log, i) && StepAt(c, states, log, j);
    CreationHasColonName(c, states[i], log[i], states[i + 1], name);
    ColonNameStays(c, states, log, i + 1, j, name);
    StartReads(c, states[j], log[j], states[j + 1], name);
  }

  /** The record of this name is read as an account. */
  predicate IsTaken(users: Table, name: Text) {
    name in users && Reading(name, users[name]).Took?
  }

  /** Where it is not, the server is never started again before the users or a database file are changed. */
  lemma {:induction false} NoStartAfterCreation(
      c: Config, states: seq<State>, log: seq<LogLine>, i: nat, j: nat, name: Text)
    requires IsRun(c, states, log) && i < j <= |log| && Inv(c, states[i]) && Creates(log[i], name)
    requires COLON in name && NEWLINE !in name && !IsTaken(states[i + 1].users, name)
    requires forall k | i < k < j :: !WritesDb(c, states[k], log[k])
    ensures forall k | i < k < j :: !log[k].ev.Restart?
    decreases j
  {
    hide IsHome, Next, Inv, Creates, WritesDb, Reading;
    if i < j - 1 {
      NoStartAfterCreation(c, states, log, i, j - 1, name);
      if log[j - 1].ev.Restart? {
        StartAfterCreation(c, states, log, i, j - 1, name);
      }
    }
  }

  // ----- after a database file was overwritten -----

  /** Both files are there, but the second does not hold the digest of the first. */
  predicate Mismatched(sha: Hasher, home: Path, tree: Tree) {
    && IsDir(tree, DirPath(home)) && IsFile(tree, DbPath(home)) && IsFile(tree, HashPath(home))
    && tree[HashPath(home)].data != MAGIC + sha(tree[DbPath(home)].data)
  }

  lemma MismatchedIsRefused(sha: Hasher, home: Path, tree: Tree)
    requires Mismatched(sha, home, tree)
    ensures Init(sha, home, tree) == InitResult(tree, Rejected)
  {
    hide Load, DbPath, HashPath, DirPath, ReadBoth;
    SignedIsRead(sha, home, tree);
  }

  /** The log line is a successful PUT of these bytes on this path. */
  predicate Puts(c: Config, s: State, e: LogLine, p: Path, data: Text) {
    && e.ev.Served? && e.reply.code == OP_SUCCESS && e.ev.req.optCode == ACT_PUT_REMOTE_FILE
    && e.ev.req.body.Std? && e.ev.req.body.stream == Some(data) && Touched(c, s.tree, e.ev.req) == Some(p)
  }

  lemma PutWrites(c: Config, s: State, e: LogLine, s': State, p: Path, data: Text)
    requires WellFormed(s.tree) && Next(c, s, e.ev, s', e.reply) && Puts(c, s, e, p, data)
    ensures s'.tree == s.tree[p := File(data)] && WellFormed(s'.tree) && s'.users == s.users
  {
    hide IsHome, Next, Act, CString, WellFormed, FileAction, InBuffer, Touched, Authorized, FileOrAbsent;
    var account, m := ServeUnfolds(c, s, e, s');
    PutIsAllowed(c, m, account, e.ev.req, s', e.reply.code, e.reply.content);
    ActIsFileAction(c, m, account, e.ev.req, s', e.reply.code, e.reply.content);
    ActIsUserAction(c, m, account, e.ev.req, s', e.reply.code, e.reply.content);
    FileActionEffect(c, s.tree, e.ev.req);
  }

  lemma PutIsAllowed(
      c: Config, s: State, account: Account, req: WirePayload, s': State, code: Byte, content: Option<Content>)
    requires WellTyped(req) && Act(c, s, account, req, s', code, content)
    requires req.optCode == ACT_PUT_REMOTE_FILE && code == OP_SUCCESS
    ensures account.permission >= READ_WRITE
  {
    hide IsHome, FileAction, InBuffer;
  }

  /** Bytes with another digest for the database file, or other bytes for the hash file. */
  predicate Breaks(sha: Hasher, home: Path, tree: Tree, p: Path, data: Text) {
    || (p == DbPath(home) && IsFile(tree, p) && sha(data) != sha(tree[p].data))
    || (p == HashPath(home) && IsFile(tree, p) && data != tree[p].data)
  }

  lemma BreakMismatches(sha: Hasher, home: Path, tree: Tree, p: Path, data: Text)
    requires IsDir(tree, DirPath(home)) && IsFile(tree, DbPath(home)) && IsFile(tree, HashPath(home))
    requires tree[HashPath(home)].data == MAGIC + sha(tree[DbPath(home)].data) && Breaks(sha, home, tree, p, data)
    ensures Mismatched(sha, home, tree[p := File(data)])
  {
    hide DirPath, DbPath, HashPath;
    DbPathsDiffer(home);
    OverwriteMismatches(sha, tree, DbPath(home), HashPath(home), p, data);
    assert IsDir(tree[p := File(data)], DirPath(home));
  }

  lemma OverwriteMismatches(sha: Hasher, tree: Tree, db: Path, hash: Path, p: Path, data: Text)
    requires db != hash && IsFile(tree, db) && IsFile(tree, hash) && tree[hash].data == MAGIC + sha(tree[db].data)
    requires (p == db && sha(data) != sha(tree[p].data)) || (p == hash && data != tree[p].data)
    ensures var t := tree[p := File(data)];
            IsFile(t, db) && IsFile(t, hash) && t[hash].data != MAGIC + sha(t[db].data)
  {
    SameAfterMagic(sha(data), sha(tree[db].data));
  }

  lemma HeldIsSigned(c: Config, s: State)
    requires Inv(c, s)
    ensures IsDir(s.tree, DirPath(c.home)) && IsFile(s.tree, DbPath(c.home)) && IsFile(s.tree, HashPath(c.home))
    ensures s.tree[HashPath(c.home)].data == MAGIC + c.sha(s.tree[DbPath(c.home)].data)
  {
    hide IsHome, WellFormed, DirPath, DbPath, HashPath, StorableTable, CleanTable, HeldInOrder;
    var order :| HeldInOrder(c.sha, c.home, s.tree, s.users, order);
    HeldGives(c.sha, c.home, s.tree, s.users, order);
  }

  lemma PutMismatches(c: Config, s: State, e: LogLine, s': State, p: Path, data: Text)
    requires Inv(c, s) && Next(c, s, e.ev, s', e.reply)
    requires Puts(c, s, e, p, data) && Breaks(c.sha, c.home, s.tree, p, data)
    ensures Mismatched(c.sha, c.home, s'.tree) && Sane(s')
  {
    hide IsHome, Next, Puts, Breaks, Mismatched, WellFormed, DirPath, DbPath, HashPath, Inv, StorableTable, CleanTable;
    InvParts(c, s);
    SaneIsWellFormed(s);
    HeldIsSigned(c, s);
    PutWrites(c, s, e, s', p, data);
    BreakMismatches(c.sha, c.home, s.tree, p, data);
    NextKeepsSane(c, s, e.ev, s', e.reply);
  }

  lemma StepSparesMismatch(c: Config, s: State, e: LogLine, s': State)
    requires WellFormed(s.tree) && Next(c, s, e.ev, s', e.reply) && LeavesDb(c, s, e)
    requires Mismatched(c.sha, c.home, s.tree)
    ensures Mismatched(c.sha, c.home, s'.tree)
  {
    hide IsHome, Next, LeavesDb, WellFormed, DirPath, DbPath, HashPath;
    StepSparesDb(c, s, e, s');
  }

  lemma MismatchRefusesStart(c: Config, s: State, e: LogLine, s': State)
    requires Next(c, s, e.ev, s', e.reply) && Mismatched(c.sha, c.home, s.tree)
    ensures e.ev != Restart(false)
  {
    hide IsHome, Serve, Init, Mismatched, Saved;
    if e.ev == Restart(false) {
      var tree: Tree :| Restarts(c, s, false, tree, s');
      MismatchedIsRefused(c.sha, c.home, s.tree);
    }
  }

  /** No change of the users or of a database file, and no db_shutdown. */
  predicate LeavesFiles(c: Config, s: State, e: LogLine) {
    !WritesDb(c, s, e) && e.ev != Restart(true)
  }

  lemma StepKeepsMismatch(c: Config, s: State, e: LogLine, s': State)
    requires Sane(s) && Next(c, s, e.ev, s', e.reply) && LeavesFiles(c, s, e) && Mismatched(c.sha, c.home, s.tree)
    ensures Sane(s') && Mismatched(c.sha, c.home, s'.tree) && !e.ev.Restart?
  {
    hide IsHome, Next, WritesDb, Mismatched, Sane, WellFormed;
    MismatchRefusesStart(c, s, e, s');
    SaneIsWellFormed(s);
    StepSparesMismatch(c, s, e, s');
    NextKeepsSane(c, s, e.ev, s', e.reply);
  }

  lemma {:induction false} MismatchStays(c: Config, states: seq<State>, log: seq<LogLine>, i: nat, j: nat)
    requires IsRun(c, states, log) && i <= j <= |log| && Sane(states[i]) && Mismatched(c.sha, c.home, states[i].tree)
    requires forall k | i <= k < j :: LeavesFiles(c, states[k], log[k])
    ensures Sane(states[j]) && Mismatched(c.sha, c.home, states[j].tree)
    ensures forall k | i <= k < j :: !log[k].ev.Restart?
    decreases j - i
  {
    hide IsHome, Next, LeavesFiles, Mismatched, Sane;
    if i < j {
      MismatchStays(c, states, log, i, j - 1);
      assert StepAt(c, states, log, j - 1);
      StepKeepsMismatch(c, states[j - 1], log[j - 1], states[j]);
    }
  }

  /** After a PUT that breaks the digest the server is not started again before the users or a database file are
      changed, except on what db_shutdown writes. */
  lemma NoStartAfterTampering(
      c: Config, states: seq<State>, log: seq<LogLine>, i: nat, j: nat, p: Path, data: Text)
    requires IsRun(c, states, log) && i < j <= |log| && Inv(c, states[i])
    requires Puts(c, states[i], log[i], p, data) && Breaks(c.sha, c.home, states[i].tree, p, data)
    requires forall k | i < k < j :: LeavesFiles(c, states[k], log[k])
    ensures forall k | i < k < j :: !log[k].ev.Restart?
  {
    hide IsHome, Next, Inv, Puts, Breaks, LeavesFiles, Mismatched, Sane;
    assert StepAt(c, states, log, i);
    PutMismatches(c, states[i], log[i], states[i + 1], p, data);
    MismatchStays(c, states, log, i + 1, j);
  }

  /** db_shutdown repairs that: where it can write both files, the next start has the users from before, whatever
      the files held. */
  lemma ShutdownRepairs(c: Config, s: State, e: LogLine, s': State)
    requires WellFormed(s.tree) && StorableTable(s.users) && CleanTable(s.users) && Savable(c.home, s.tree)
    requires Next(c, s, e.ev, s', e.reply) && e.ev == Restart(true)
    ensures s'.users == s.users && Inv(c, s')
  {
    hide IsHome, Serve, Init, Saved, WellFormed, Holds, Savable, StorableTable, CleanTable;
    var tree: Tree :| Restarts(c, s, true, tree, s');
    SavedKeepsWellFormed(c, s, s.users, tree);
    SavedHoldsIff(c.sha, c.home, s.tree, s.users, tree);
    InvReloads(c, s.(tree := tree));
  }

  // ----- inputs -----

  /** Names an account that may only read can create, with the permission to read. */
  lemma LowestMayCreate(name: Text, users: Table, hash: Text, passwd: Text)
    requires name == ABC_3 || name == ABC_COLON || name == AB_3_XY
    requires name !in users && NUL !in passwd && 6 <= |passwd| <= 32
    ensures UserCode(users, Account(READ, hash), User(USR_ACT_CREATE_USER, READ, name, Some(passwd))) == OP_SUCCESS
    ensures CString(name) == name && COLON in name && NEWLINE !in name
  {
    FindIs(passwd, NUL, |passwd|);
    assert passwd[..|passwd|] == passwd;
    FindIs(name, NUL, |name|);
    assert name[..|name|] == name;
    assert ABC_3[3] == ABC_COLON[3] == AB_3_XY[2] == COLON;
  }

  /** Where nobody was an administrator, "abc:3" is one after the next start, under the name "abc". */
  lemma AbcComesBackAsAdmin(c: Config, s: State, e: LogLine, s1: State, restart: LogLine, s2: State)
    requires Inv(c, s) && Next(c, s, e.ev, s1, e.reply) && Next(c, s1, restart.ev, s2, restart.reply)
    requires Creates(e, ABC_3) && restart.ev.Restart?
    requires forall n | n in s.users :: s.users[n].permission < ADMIN && n != ABC
    ensures HasAtLeast(s2.users, ADMIN) && !HasAtLeast(s.users, ADMIN)
  {
    hide IsHome, Inv, Next, HasColonName, Reading, CString;
    assert ABC_3[3] == COLON;
    CreationHasColonName(c, s, e, s1, ABC_3);
    StepOnUser(c, s, e, s1, ABC);
    ColonNameParts(c, s1, ABC_3);
    AbcIsReadAsAdmin(s1.users[ABC_3]);
    RaisedIffTaken(c, s1, restart, s2, ABC_3, ADMIN);
    assert HasRead(s2.users, Reading(ABC_3, s1.users[ABC_3]));
  }

  lemma ColonNameParts(c: Config, s: State, name: Text)
    requires HasColonName(c, s, name)
    ensures name in s.users && forall n | n in s.users :: |s.users[n].hash| == 32 && s.users[n].permission <= ADMIN
  {
    hide Holds, WellFormed, Clean;
    assert forall n | n in s.users :: Storable(n, s.users[n]);
  }

  /** Where disk and memory agreed, the creation of "abc:" makes the next start refuse, and that of "ab:3:xy" makes
      it hang, whatever the password. */
  lemma CreationStopsStart(c: Config, s: State, e: LogLine, s1: State, name: Text)
    requires Inv(c, s) && Next(c, s, e.ev, s1, e.reply) && Creates(e, name)
    requires name == ABC_COLON || name == AB_3_XY
    ensures !IsTaken(s1.users, name) && COLON in name && NEWLINE !in name
    ensures Init(c.sha, c.home, s1.tree) == InitResult(s1.tree, if name == ABC_COLON then Rejected else Undefined)
  {
    hide IsHome, Inv, Next, Reading, CString, Init, HeldInOrder, ColonBeside, DirPath, WellFormed;
    assert ABC_COLON[3] == AB_3_XY[2] == COLON;
    CreationHasColonName(c, s, e, s1, name);
    ColonNameParts(c, s1, name);
    if name == ABC_COLON {
      AbcColonIsRefused(s1.users[name]);
    } else {
      XyHangs(s1.users[name]);
    }
    var order :| HeldInOrder(c.sha, c.home, s1.tree, s1.users, order);
    InitReadsColonName(c.sha, c.home, s1.tree, s1.users, name, order);
  }

  /** So an account that may only read can keep the server from being started again. */
  lemma ServerStaysDown(c: Config, states: seq<State>, log: seq<LogLine>, i: nat, j: nat, name: Text)
    requires IsRun(c, states, log) && i < j <= |log| && Inv(c, states[i]) && Creates(log[i], name)
    requires name == ABC_COLON || name == AB_3_XY
    requires forall k | i < k < j :: !WritesDb(c, states[k], log[k])
    ensures forall k | i < k < j :: !log[k].ev.Restart?
  {
    hide IsHome, Next, Inv, Creates, WritesDb, IsTaken, Init;
    assert StepAt(c, states, log, i);
    CreationStopsStart(c, states[i], log[i], states[i + 1], name);
    NoStartAfterCreation(c, states, log, i, j, name);
  }
}
