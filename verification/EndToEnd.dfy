/** A file that was PUT comes back from GET byte for byte, through both wire formats and any run between. */
module EndToEnd {
  import opened Bytes
  import opened Codes
  import opened ByteOrder
  import opened Paths
  import opened FileTree
  import opened Accounts
  import opened Crypto
  import opened FileApi
  import opened Listing
  import opened Screen
  import opened Store
  import opened Database
  import opened Streams
  import opened Protocol
  import opened Runs
  import opened Answers
  import opened Requests
  import opened Responses
  import Utf8

  // ----- paths without ".." -----

  /** The components that name something. */
  function Names(cs: seq<Name>): Path {
    if cs == [] then []
    else (if cs[0] == [] || cs[0] == [DOT] then [] else [cs[0]]) + Names(cs[1..])
  }

  lemma {:induction false} NamesConcat(a: seq<Name>, b: seq<Name>)
    ensures Names(a + b) == Names(a) + Names(b)
  {
    if a == [] {
      assert a + b == b;
    } else {
      assert (a + b)[1..] == a[1..] + b;
      NamesConcat(a[1..], b);
    }
  }

  lemma NamesOne(c: Name)
    ensures Names([c]) == if c == [] || c == [DOT] then [] else [c]
  {
    var cs := [c];
    assert cs[1..] == [];
  }

  lemma {:induction false} NamesOfStripped(s: Text)
    ensures Names(Split(s)) == Names(Split(Strip(s)))
    ensures [DOT, DOT] !in Split(s) ==> [DOT, DOT] !in Split(Strip(s))
    decreases |s|
  {
    hide SplitOn, Names;
    if EndsWithSlash(s) {
      var t := s[..|s| - 1];
      assert s == t + [SLASH] + [];
      SplitAtSlash(t, []);
      SplitPlain([]);
      NamesConcat(Split(t), [[]]);
      NamesOne([]);
      NamesOfStripped(t);
    }
  }

  /** The shape dirname and basename give a path that names an entry. */
  lemma DirBaseShape(child: Text)
    requires NamesAnEntry(child)
    ensures Basename(child) == AfterLastSlash(child) && Basename(child) != [DOT] && Basename(child) != []
    ensures var i := LastSlash(child);
      && (i < 0 ==> Dirname(child) == [DOT])
      && (i >= 0 ==> Dirname(child) == [SLASH] || Dirname(child) == Strip(child[..i]))
      && (i >= 0 && Dirname(child) == [SLASH] ==> Strip(child[..i]) == [] || Strip(child[..i]) == [SLASH])
  {
    hide Strip, LastSlash;
    assert Strip(child) == child;
  }

  /** The names of a path are those of its dirname, then its basename. */
  lemma NamesOfDirBase(child: Text)
    requires NamesAnEntry(child)
    ensures Names(Split(child)) == Names(Split(Dirname(child))) + [Basename(child)]
    ensures [DOT, DOT] !in Split(child) ==> [DOT, DOT] !in Split(Dirname(child))
    ensures Split(child) != [] && Split(child)[|Split(child)| - 1] == Basename(child)
  {
    hide SplitOn, Names, LastSlash, NamesAnEntry, Dirname, Basename, Strip, AfterLastSlash;
    DirBaseShape(child);
    NamesABase(child);
    if LastSlash(child) < 0 {
      NamesOfLoneBase(child);
    } else {
      NamesOfSlashedBase(child);
    }
  }

  lemma NamesOfLoneBase(child: Text)
    requires child != [] && LastSlash(child) < 0 && AfterLastSlash(child) != [DOT]
    ensures AfterLastSlash(child) == child && Split(child) == [child] && Names(Split(child)) == [child]
    ensures Names(Split([DOT])) == [] && Split([DOT]) == [[DOT]]
  {
    hide SplitOn, Names, LastSlash;
    assert SLASH !in child;
    SplitPlain(child);
    NamesOne(child);
    DotAndSlashHaveNoNames();
  }

  lemma NamesOfSlashedBase(child: Text)
    requires LastSlash(child) >= 0 && AfterLastSlash(child) != [] && AfterLastSlash(child) != [DOT]
    ensures var a, base := Strip(child[..LastSlash(child)]), AfterLastSlash(child);
      && Names(Split(child)) == Names(Split(a)) + [base]
      && ([DOT, DOT] !in Split(child) ==> [DOT, DOT] !in Split(a))
      && Split(child) != [] && Split(child)[|Split(child)| - 1] == base
    ensures Names(Split([SLASH])) == Names(Split([])) == [] && [DOT, DOT] !in Split([SLASH])
  {
    hide SplitOn, Names, LastSlash, Strip;
    var i := LastSlash(child);
    var a, base := child[..i], AfterLastSlash(child);
    assert child == a + [SLASH] + base;
    SplitPlain(base);
    NamesOne(base);
    SplitAtSlash(a, base);
    NamesConcat(Split(a), [base]);
    NamesOfStripped(a);
    DotAndSlashHaveNoNames();
  }

  lemma NamesABase(child: Text)
    requires NamesAnEntry(child)
    ensures child != [] && !EndsWithSlash(child) && Basename(child) != [DOT] && Basename(child) != [DOT, DOT]
  {
  }

  lemma DotAndSlashHaveNoNames()
    ensures Names(Split([DOT])) == [] && Names(Split([SLASH])) == [] && Names(Split([])) == []
    ensures Split([DOT]) == [[DOT]] && Split([SLASH]) == [[], []]
  {
    hide SplitOn, Names;
    SplitPlain([DOT]);
    SplitPlain([]);
    assert [SLASH] == [] + [SLASH] + [];
    SplitAtSlash([], []);
    NamesConcat([[]], [[]]);
    NamesOne([]);
    NamesOne([DOT]);
  }

  lemma {:induction false} PlainWalkAppends(tree: Tree, from: Path, cs: seq<Name>)
    requires [DOT, DOT] !in cs
    ensures Walk(tree, from, cs).Some? ==> Walk(tree, from, cs).value == from + Names(cs)
    decreases cs
  {
    if cs == [] {
      assert from + [] == from;
    } else if Enter(tree, from, cs[0]).Some? {
      var next := Enter(tree, from, cs[0]).value;
      PlainWalkAppends(tree, next, cs[1..]);
      assert cs[0] != [DOT, DOT];
      assert from + [cs[0]] + Names(cs[1..]) == from + ([cs[0]] + Names(cs[1..]));
      assert [] + Names(cs[1..]) == Names(cs[1..]);
    }
  }

  lemma {:induction false} LastNameCounts(cs: seq<Name>)
    requires cs != [] && cs[|cs| - 1] != [] && cs[|cs| - 1] != [DOT]
    ensures Names(cs) != []
  {
    assert cs == cs[..|cs| - 1] + [cs[|cs| - 1]];
    NamesConcat(cs[..|cs| - 1], [cs[|cs| - 1]]);
    NamesOne(cs[|cs| - 1]);
  }

  /** A path without ".." that ends in a name finds its target wherever that target is present. */
  lemma {:induction false} PlainWalkFinds(tree: Tree, from: Path, cs: seq<Name>)
    requires WellFormed(tree) && [DOT, DOT] !in cs
    requires cs != [] && cs[|cs| - 1] != [] && cs[|cs| - 1] != [DOT]
    requires from + Names(cs) in tree
    ensures Walk(tree, from, cs) == Some(from + Names(cs))
    decreases cs
  {
    hide WellFormed;
    var c, rest, target := cs[0], cs[1..], from + Names(cs);
    LastNameCounts(cs);
    Ancestors(tree, target, |from|);
    assert target[..|from|] == from;
    assert c != [DOT, DOT];
    if rest == [] {
      WalkOne(tree, from, c);
      assert cs == [c];
      NamesOne(c);
    } else {
      LastNameCounts(rest);
      if c == [] || c == [DOT] {
        assert Names(cs) == [] + Names(rest) == Names(rest);
        PlainWalkFinds(tree, from, rest);
      } else {
        assert Names(cs) == [c] + Names(rest);
        Ancestors(tree, target, |from| + 1);
        assert target[..|from| + 1] == from + [c];
        assert from + [c] + Names(rest) == target;
        PlainWalkFinds(tree, from + [c], rest);
      }
    }
  }

  /** What a client may PUT and GET under one name. */
  predicate PlainPath(home: Path, path: Text) {
    NamesAnEntry(path) && [DOT, DOT] !in Split(path) && NUL !in path && Fits(home, path)
  }

  function PlainTarget(home: Path, path: Text): Path {
    home + Names(Split(path))
  }

  lemma PlainPlace(tree: Tree, home: Path, path: Text)
    requires PlainPath(home, path)
    ensures NewPlace(tree, home, path).Some? ==>
      var place := NewPlace(tree, home, path).value; place.dir + [place.base] == PlainTarget(home, path)
  {
    hide Split, Names, Dirname, Basename, Walk, UnderHome, NamesAnEntry, PathText;
    NamesOfDirBase(path);
    PlainWalkAppends(tree, home, Split(Dirname(path)));
  }

  lemma PlainTargetFound(tree: Tree, home: Path, path: Text)
    requires WellFormed(tree) && PlainPath(home, path) && PlainTarget(home, path) in tree
    ensures Target(tree, home, path) == Some(PlainTarget(home, path))
  {
    hide Split, Names, Dirname, Walk, PathText, WellFormed, NamesAnEntry;
    NamesOfDirBase(path);
    NamesABase(path);
    PlainWalkFinds(tree, home, Split(path));
    HomeIsAbove(home, Names(Split(path)));
  }

  /** Walking plain names to a directory gets there, however the path ends. */
  lemma {:induction false} PlainWalkToDir(tree: Tree, from: Path, cs: seq<Name>)
    requires WellFormed(tree) && [DOT, DOT] !in cs && IsDir(tree, from + Names(cs))
    ensures Walk(tree, from, cs) == Some(from + Names(cs))
    decreases cs
  {
    hide WellFormed;
    var target := from + Names(cs);
    Ancestors(tree, target, |from|);
    assert target[..|from|] == from;
    if cs == [] {
      assert from + [] == from;
    } else {
      var c, rest := cs[0], cs[1..];
      assert c != [DOT, DOT];
      if c == [] || c == [DOT] {
        assert Names(cs) == [] + Names(rest) == Names(rest);
        PlainWalkToDir(tree, from, rest);
      } else {
        assert Names(cs) == [c] + Names(rest);
        Ancestors(tree, target, |from| + 1);
        assert target[..|from| + 1] == from + [c];
        assert from + [c] + Names(rest) == target;
        PlainWalkToDir(tree, from + [c], rest);
      }
    }
  }

  /** A plain path resolves exactly where its target is present. */
  lemma PlainTargetIff(tree: Tree, home: Path, path: Text)
    requires WellFormed(tree) && PlainPath(home, path)
    ensures Target(tree, home, path)
         == if PlainTarget(home, path) in tree then Some(PlainTarget(home, path)) else None
  {
    hide Split, Names, Walk, PathText, WellFormed, NamesAnEntry;
    if PlainTarget(home, path) in tree {
      PlainTargetFound(tree, home, path);
    } else {
      NamesOfDirBase(path);
      PlainWalkAppends(tree, home, Split(path));
      WalkStaysInTree(tree, home, Split(path));
    }
  }

  lemma PlainBase(home: Path, path: Text)
    requires PlainPath(home, path)
    ensures ValidName(Basename(path)) && PlainTarget(home, path) != []
    ensures PlainTarget(home, path) == home + Names(Split(Dirname(path))) + [Basename(path)]
  {
    hide Split, Names, Dirname, Strip, LastSlash;
    NamesOfDirBase(path);
    DirBaseShape(path);
    NamesABase(path);
    assert forall b | b in AfterLastSlash(path) :: b in path;
  }

  /** Something new can be created at a plain path wherever its parent is a directory. */
  lemma PlainPlaceFound(tree: Tree, home: Path, path: Text)
    requires WellFormed(tree) && PlainPath(home, path)
    requires PlainTarget(home, path) != [] && IsDir(tree, Parent(PlainTarget(home, path)))
    ensures NewPlace(tree, home, path) == Some(Place(Parent(PlainTarget(home, path)), Basename(path)))
    ensures ValidName(Basename(path))
  {
    hide Split, Names, Dirname, Basename, Walk, UnderHome, NamesAnEntry, PathText, WellFormed, PlainTarget, ValidName;
    PlainBase(home, path);
    PlainDir(home, path);
    var dir := home + Names(Split(Dirname(path)));
    assert Parent(PlainTarget(home, path)) == dir;
    PlainWalkToDir(tree, home, Split(Dirname(path)));
    JoinIsAbove(home, Names(Split(Dirname(path))), Basename(path));
    NotHere(path);
  }

  lemma PlainDir(home: Path, path: Text)
    requires PlainPath(home, path)
    ensures [DOT, DOT] !in Split(Dirname(path))
  {
    hide Split, Names, Dirname, NamesAnEntry;
    NamesOfDirBase(path);
  }

  lemma NotHere(path: Text)
    requires ValidName(Basename(path))
    ensures Basename(path) != [DOT]
  {
    hide Basename;
  }

  // ----- a file survives the steps that do not touch it -----

  /** A successful file operation on this path. */
  predicate Rewrites(c: Config, s: State, e: LogLine, p: Path) {
    && e.ev.Served? && e.reply.code == OP_SUCCESS && e.ev.req.body.Std? && ChangesFiles(e.ev.req.optCode)
    && Touched(c, s.tree, e.ev.req) == Some(p)
  }

  predicate HasFile(tree: Tree, p: Path, data: Text) {
    p in tree && tree[p] == File(data)
  }

  lemma SamePathHasFile(tree: Tree, tree': Tree, p: Path, data: Text)
    requires SamePath(tree, tree', p) && HasFile(tree, p, data)
    ensures HasFile(tree', p, data)
  {
  }

  lemma FileActionSparesFile(c: Config, tree: Tree, req: WirePayload, p: Path, data: Text)
    requires WellFormed(tree) && HasFile(tree, p, data)
    requires req.body.Std? && ChangesFiles(req.optCode) && InBuffer(c, tree, req)
    requires FileAction(c, tree, req).1 == OP_SUCCESS ==> Touched(c, tree, req) != Some(p)
    ensures HasFile(FileAction(c, tree, req).0, p, data)
  {
    hide IsHome, Touched, WellFormed, FileAction, Children, InBuffer, ChangesFiles;
    FileActionEffect(c, tree, req);
  }

  lemma ActSparesFile(
      c: Config, s: State, account: Account, req: WirePayload, s': State, code: Byte, content: Option<Content>,
      p: Path, data: Text)
    requires WellFormed(s.tree) && HasFile(s.tree, p, data) && !IsDbFile(c.home, p)
    requires WellTyped(req) && Act(c, s, account, req, s', code, content)
    requires req.body.Std? && ChangesFiles(req.optCode) && code == OP_SUCCESS ==> Touched(c, s.tree, req) != Some(p)
    ensures HasFile(s'.tree, p, data)
  {
    hide IsHome, Touched, Saved, ListAction, FileAction, GetFile, IsDbFile, UserCode, UsersAfter, WellFormed, CString;
    hide InBuffer, HasFile, SamePath;
    if req.optCode == ACT_USER_OPERATION {
      if code == OP_SUCCESS {
        SavedSamePath(c, s.tree, s'.users, s'.tree, p);
        SamePathHasFile(s.tree, s'.tree, p, data);
      }
    } else if ChangesFiles(req.optCode) && account.permission >= READ_WRITE {
      FileActionSparesFile(c, s.tree, req, p, data);
    }
  }

  lemma InitSparesFile(sha: Hasher, home: Path, tree: Tree, p: Path, data: Text)
    requires HasFile(tree, p, data) && !IsDbFile(home, p)
    ensures HasFile(Init(sha, home, tree).tree, p, data)
  {
    hide DbBytes, StoreFiles, ReadBoth, DirPath, DbPath, HashPath;
    var t := WithDbDir(home, tree);
    assert HasFile(t, p, data);
    hide WithDbDir;
    StoreKeepsOtherPaths(sha, home, t, DbBytes([DEFAULT_USER], DEFAULT_TABLE), p);
  }

  lemma RestartSparesFile(c: Config, s: State, saved: bool, tree: Tree, s': State, p: Path, data: Text)
    requires Restarts(c, s, saved, tree, s') && HasFile(s.tree, p, data) && !IsDbFile(c.home, p)
    ensures HasFile(s'.tree, p, data)
  {
    hide IsHome, Init, Saved, SamePath, IsDbFile, HasFile;
    if saved {
      SavedSamePath(c, s.tree, s.users, tree, p);
      SamePathHasFile(s.tree, tree, p, data);
    }
    InitSparesFile(c.sha, c.home, tree, p, data);
  }

  lemma StepSparesFile(c: Config, s: State, e: LogLine, s': State, p: Path, data: Text)
    requires WellFormed(s.tree) && Next(c, s, e.ev, s', e.reply)
    requires HasFile(s.tree, p, data) && !IsDbFile(c.home, p) && !Rewrites(c, s, e, p)
    ensures HasFile(s'.tree, p, data)
  {
    hide IsHome, Act, Restarts, IsDbFile, WellFormed, HasFile, Touched, Authenticate, WellTyped, ChangesFiles;
    match e.ev
    case Served(req, now) =>
      var drawn: nat :| Serve(c, s, req, now, drawn, s', e.reply);
      var gate := PassGate(c, s, req, now, drawn);
      if gate.Admitted? {
        ActSparesFile(
          c, s.(sessions := gate.sessions), gate.account, req, s', e.reply.code, e.reply.content, p, data);
      }
    case ReadFailed(_) =>
    case Restart(saved) =>
      var tree: Tree :| Restarts(c, s, saved, tree, s');
      RestartSparesFile(c, s, saved, tree, s', p, data);
  }

  /** A file other than the two of the database survives every run in which no successful request removes or
      overwrites it; attempts that are refused or fail do not count. */
  lemma {:induction false} FileSurvives(
      c: Config, states: seq<State>, log: seq<LogLine>, i: nat, j: nat, p: Path, data: Text)
    requires IsRun(c, states, log) && Sane(states[0]) && i <= j <= |log|
    requires HasFile(states[i].tree, p, data) && !IsDbFile(c.home, p)
    requires forall k | i <= k < j :: !Rewrites(c, states[k], log[k], p)
    ensures HasFile(states[j].tree, p, data)
    decreases j - i
  {
    hide IsHome, Next, Sane, Rewrites, IsDbFile, HasFile;
    if i < j {
      FileSurvives(c, states, log, i, j - 1, p, data);
      SaneAlways(c, states, log, j - 1);
      SaneIsWellFormed(states[j - 1]);
      assert StepAt(c, states, log, j - 1);
      StepSparesFile(c, states[j - 1], log[j - 1], states[j], p, data);
    }
  }

  // ----- through both wires -----

  /** The bytes of this client request arrived and were read as the request of this event. */
  ghost predicate Delivered(sha: Hasher, client: Client, ev: Event) {
    && Request(sha, client).Some? && ev.Served?
    && ReadRequest(Request(sha, client).value) == Parsed(ev.req, [])
  }

  lemma DeliveredIsMeant(sha: Hasher, client: Client, ev: Event)
    requires Delivered(sha, client, ev) && AsciiRequest(client)
    ensures ev.req == Meant(sha, client)
  {
    hide Request, ReadRequest, Meant, AsciiRequest;
    RequestRoundTrip(sha, client, []);
    assert Request(sha, client).value + [] == Request(sha, client).value;
  }

  lemma CStringOfPlain(s: Text)
    requires NUL !in s
    ensures CString(s) == s
  {
    FindIs(s, NUL, |s|);
    assert s[..|s|] == s;
  }

  lemma ActOfPut(
      c: Config, s: State, account: Account, req: WirePayload, s': State, code: Byte, content: Option<Content>)
    requires WellTyped(req) && req.optCode == ACT_PUT_REMOTE_FILE && code == OP_SUCCESS
    requires Act(c, s, account, req, s', code, content)
    ensures PutInBuffer(s.tree, c.home, CString(req.body.path))
    ensures PutFile(s.tree, c.home, CString(req.body.path), req.body.stream) == (s'.tree, OP_SUCCESS)
  {
    hide IsHome, PutFile, PutInBuffer, CString, UserAction, ListAction, GetFile;
  }

  // ----- plain paths -----

  /** A writer's PUT on a plain path succeeds exactly for a non-empty file, a target that is absent and a parent that
      is a directory; it never replaces anything. */
  lemma PlainPutIff(
      c: Config, s: State, req: WirePayload, now: int, s': State, r: Reply, path: Text)
    requires PastGate(c, s, req, now, s', r) && WellFormed(s.tree) && req.optCode == 6 && r.code != OP_PERMISSION_ERROR
    requires req.body.Std? && CString(req.body.path) == path && PlainPath(c.home, path)
    ensures var p, stream := PlainTarget(c.home, path), req.body.stream;
      && p != []
      && (r.code == OP_SUCCESS <==> stream.Some? && p !in s.tree && IsDir(s.tree, Parent(p)))
      && (r.code == OP_FILE_EXISTS <==> p in s.tree)
      && s'.tree == (if r.code == OP_SUCCESS then s.tree[p := File(stream.value)] else s.tree)
  {
    hide IsHome, Next, PastGate, WellFormed, Target, NewPlace, PlainPath, PlainTarget, ValidName, Basename, CString;
    PutAnswers(c, s, req, now, s', r);
    PlainPlaces(s.tree, c.home, path);
    if r.code == OP_SUCCESS {
      var place := NewPlace(s.tree, c.home, path).value;
      assert place.dir + [place.base] == PlainTarget(c.home, path);
    }
  }

  /** MKDIR likewise. */
  lemma PlainMakeDirIff(
      c: Config, s: State, req: WirePayload, now: int, s': State, r: Reply, path: Text)
    requires PastGate(c, s, req, now, s', r) && WellFormed(s.tree) && req.optCode == 5 && r.code != OP_PERMISSION_ERROR
    requires req.body.Std? && CString(req.body.path) == path && PlainPath(c.home, path)
    ensures var p := PlainTarget(c.home, path);
      && p != []
      && (r.code == OP_SUCCESS <==> p !in s.tree && IsDir(s.tree, Parent(p)))
      && s'.tree == (if r.code == OP_SUCCESS then s.tree[p := Dir] else s.tree)
  {
    hide IsHome, Next, PastGate, WellFormed, Target, NewPlace, PlainPath, PlainTarget, ValidName, Basename, CString;
    MakeDirAnswers(c, s, req, now, s', r);
    PlainPlaces(s.tree, c.home, path);
  }

  /** What both resolvers make of a plain path. */
  lemma PlainPlaces(tree: Tree, home: Path, path: Text)
    requires WellFormed(tree) && PlainPath(home, path)
    ensures var p := PlainTarget(home, path);
      && p != []
      && Target(tree, home, path) == (if p in tree then Some(p) else None)
      && (IsDir(tree, Parent(p)) ==>
           var place := NewPlace(tree, home, path);
           place.Some? && ValidName(place.value.base) && place.value.dir == Parent(p))
      && (NewPlace(tree, home, path).Some? ==>
           var place := NewPlace(tree, home, path).value; place.dir + [place.base] == p && place.dir == Parent(p))
  {
    hide Target, NewPlace, PlainPath, PlainTarget, WellFormed, ValidName, Basename;
    PlainTargetIff(tree, home, path);
    PlainBase(home, path);
    PlainPlace(tree, home, path);
    if IsDir(tree, Parent(PlainTarget(home, path))) {
      PlainPlaceFound(tree, home, path);
    }
  }

  /** DELETE on a plain path by a writer, and GET. */
  lemma PlainDeleteIff(
      c: Config, s: State, req: WirePayload, now: int, s': State, r: Reply, path: Text)
    requires PastGate(c, s, req, now, s', r) && WellFormed(s.tree) && req.optCode == 2 && r.code != OP_PERMISSION_ERROR
    requires req.body.Std? && CString(req.body.path) == path && PlainPath(c.home, path)
    ensures var p := PlainTarget(c.home, path);
      && (r.code == OP_SUCCESS
          <==> IsFile(s.tree, p) || (IsDir(s.tree, p) && NothingIn(s.tree, p)))
      && s'.tree == (if r.code == OP_SUCCESS then s.tree - {p} else s.tree)
  {
    hide IsHome, Next, PastGate, WellFormed, Target, NewPlace, PlainPath, PlainTarget, ValidName, CString, NothingIn;
    DeleteAnswers(c, s, req, now, s', r);
    PlainPlaces(s.tree, c.home, path);
  }

  lemma PlainGetIff(
      c: Config, s: State, req: WirePayload, now: int, s': State, r: Reply, path: Text)
    requires PastGate(c, s, req, now, s', r) && WellFormed(s.tree) && req.optCode == 4
    requires req.body.Std? && CString(req.body.path) == path && PlainPath(c.home, path)
    ensures var p := PlainTarget(c.home, path);
      && (r.code == OP_SUCCESS <==> IsFile(s.tree, p) && s.tree[p].data != [])
      && (r.code == OP_SUCCESS ==> r.content == Some(Content(c.sha(s.tree[p].data), s.tree[p].data)))
  {
    hide IsHome, Next, PastGate, WellFormed, Target, NewPlace, PlainPath, PlainTarget, ValidName, CString;
    var bytes := FetchAnswers(c, s, req, now, s', r);
    PlainPlaces(s.tree, c.home, path);
  }

  /** A successful PUT leaves exactly its payload, which was not empty, at the target. */
  lemma PutStores(c: Config, s: State, e: LogLine, s': State, path: Text, stream: Option<Text>)
    requires WellFormed(s.tree) && Next(c, s, e.ev, s', e.reply)
    requires e.ev.Served? && e.ev.req.optCode == ACT_PUT_REMOTE_FILE && e.reply.code == OP_SUCCESS
    requires e.ev.req.body.Std? && e.ev.req.body.path == path && e.ev.req.body.stream == stream
    requires PlainPath(c.home, path)
    ensures stream.Some? && HasFile(s'.tree, PlainTarget(c.home, path), stream.value)
  {
    hide IsHome, WellFormed, PutFile, NewPlace, PlainTarget, Next, Act, CString, Authorized, Authenticate;
    hide WellTyped, PlainPath, PutInBuffer;
    NulFree(c.home, path);
    CStringOfPlain(path);
    var account, m := ServeUnfolds(c, s, e, s');
    ActOfPut(c, m, account, e.ev.req, s', e.reply.code, e.reply.content);
    PutEffect(s.tree, c.home, path, stream);
    PlainPlace(s.tree, c.home, path);
  }

  /** A GET past the gate answers with the file at its target. */
  lemma GetAnswers(c: Config, s: State, e: LogLine, s': State, path: Text, data: Text)
    requires WellFormed(s.tree) && Next(c, s, e.ev, s', e.reply)
    requires e.ev.Served? && e.ev.req.optCode == ACT_GET_REMOTE_FILE && e.ev.req.sessionId < SESSION_LIMIT
    requires e.reply.code != OP_USER_AUTH && e.reply.code != OP_SESSION_ERROR
    requires e.ev.req.body.Std? && e.ev.req.body.path == path
    requires PlainPath(c.home, path) && HasFile(s.tree, PlainTarget(c.home, path), data) && data != []
    ensures e.reply.code == OP_SUCCESS && e.reply.content == Some(Content(c.sha(data), data))
    ensures e.reply.session < SESSION_LIMIT
  {
    hide IsHome, Restarts, WellFormed, Authenticate, Target, PlainTarget, PlainPath, Act, CString, WellTyped;
    NulFree(c.home, path);
    CStringOfPlain(path);
    PlainTargetFound(s.tree, c.home, path);
    var drawn: nat :| Serve(c, s, e.ev.req, e.ev.now, drawn, s', e.reply);
    var gate := PassGate(c, s, e.ev.req, e.ev.now, drawn);
    ActOfGet(c, s.(sessions := gate.sessions), gate.account, e.ev.req, s', e.reply.code, e.reply.content);
  }

  lemma NulFree(home: Path, path: Text)
    requires PlainPath(home, path)
    ensures NUL !in path
  {
    hide NamesAnEntry, Split;
  }

  /** No step strictly between i and j succeeds in overwriting or deleting the path. */
  ghost predicate Untouched(c: Config, states: seq<State>, log: seq<LogLine>, i: nat, j: nat, p: Path)
    requires |states| == |log| + 1 && i < j <= |log|
  {
    forall k | i < k < j :: !Rewrites(c, states[k], log[k], p)
  }

  /** The client reads this reply as a success with exactly these bytes and a valid hash, and leaves the
      bytes after it alone. */
  predicate BringsBack(c: Config, reply: Reply, data: Text, rest: Text) {
    var r := ReadResponse(ReplyPacket(c.messages, reply) + rest);
    && r.Some? && r.value.1 == rest
    && r.value.0.returnCode == OP_SUCCESS
    && r.value.0.payload == Some(data) && ValidHash(c.sha, r.value.0)
  }

  /** Whatever a successful PUT sent, a later GET of the same path that passes the gate brings back exactly,
      with a valid hash and nothing left unread, provided no step between succeeds in overwriting or deleting
      that path. */
  lemma PutThenGet(
      c: Config, states: seq<State>, log: seq<LogLine>, i: nat, j: nat, put: Client, get: Client, rest: Text)
    requires IsRun(c, states, log) && Sane(states[0]) && i < j < |log|
    requires Delivered(c.sha, put, log[i].ev) && AsciiRequest(put) && put.action == ACT_PUT_REMOTE_FILE
    requires Delivered(c.sha, get, log[j].ev) && AsciiRequest(get) && get.action == ACT_GET_REMOTE_FILE
    requires get.path == put.path && PlainPath(c.home, Utf8.Encode(put.path))
    requires !IsDbFile(c.home, PlainTarget(c.home, Utf8.Encode(put.path)))
    requires |put.payload| < 0x8000_0000_0000_0000
    requires log[i].reply.code == OP_SUCCESS
    requires log[j].reply.code != OP_USER_AUTH && log[j].reply.code != OP_SESSION_ERROR
    requires Untouched(c, states, log, i, j, PlainTarget(c.home, Utf8.Encode(put.path)))
    ensures BringsBack(c, log[j].reply, put.payload, rest)
  {
    hide IsHome, Next, Sane, Rewrites, IsDbFile, PlainPath, PlainTarget, HasFile, AsciiRequest, Request, ReadRequest;
    hide WellFormed, BringsBack, Utf8.Encode;
    var path := Utf8.Encode(put.path);
    PutLands(c, states, log, i, put);
    FileSurvives(c, states, log, i + 1, j, PlainTarget(c.home, path), put.payload);
    DeliveredIsMeant(c.sha, get, log[j].ev);
    DeliveredSession(c.sha, get, log[j].ev);
    SaneAlways(c, states, log, j);
    SaneIsWellFormed(states[j]);
    assert StepAt(c, states, log, j);
    GetAnswers(c, states[j], log[j], states[j + 1], path, put.payload);
    AnswerArrives(c, log[j].reply, put.payload, rest);
  }

  lemma PutLands(c: Config, states: seq<State>, log: seq<LogLine>, i: nat, put: Client)
    requires IsRun(c, states, log) && Sane(states[0]) && i < |log|
    requires Delivered(c.sha, put, log[i].ev) && AsciiRequest(put) && put.action == ACT_PUT_REMOTE_FILE
    requires PlainPath(c.home, Utf8.Encode(put.path)) && log[i].reply.code == OP_SUCCESS
    ensures put.payload != [] && HasFile(states[i + 1].tree, PlainTarget(c.home, Utf8.Encode(put.path)), put.payload)
  {
    hide IsHome, Next, Sane, PlainPath, PlainTarget, HasFile, AsciiRequest, Request, ReadRequest;
    hide WellFormed, Utf8.Encode;
    DeliveredIsMeant(c.sha, put, log[i].ev);
    SaneAlways(c, states, log, i);
    SaneIsWellFormed(states[i]);
    assert StepAt(c, states, log, i);
    PutStores(c, states[i], log[i], states[i + 1], Utf8.Encode(put.path), log[i].ev.req.body.stream);
  }

  lemma DeliveredSession(sha: Hasher, client: Client, ev: Event)
    requires Delivered(sha, client, ev) && AsciiRequest(client)
    ensures ev.req.sessionId < SESSION_LIMIT
  {
    hide Payload, Header, ReadRequest, AsciiRequest, Utf8.Encode;
    DeliveredIsMeant(sha, client, ev);
    RequestPacks(sha, client);
    PacksHead(sha, client);
  }

  /** A success with non-empty content reaches the client whole. */
  lemma AnswerArrives(c: Config, reply: Reply, data: Text, rest: Text)
    requires reply.code == OP_SUCCESS && reply.session < SESSION_LIMIT
    requires reply.content == Some(Content(c.sha(data), data)) && data != [] && |data| < 0x8000_0000_0000_0000
    ensures BringsBack(c, reply, data, rest)
  {
    hide IsHome, Packet, ReadResponse, Pow256;
    Widths();
    ResponseRoundTrip(reply.code, reply.session, c.messages(reply.code), reply.content, rest);
  }

  // ----- a directory listing, from the tree to the client's screen -----

  lemma ActOfList(
      c: Config, s: State, account: Account, req: WirePayload, s': State, code: Byte, content: Option<Content>)
    returns (d: Path, stream: Text)
    requires WellTyped(req) && req.optCode == ACT_LIST_REMOTE_DIRECTORY && code == OP_SUCCESS
    requires Act(c, s, account, req, s', code, content)
    ensures Target(s.tree, c.home, CString(req.body.path)) == Some(d) && IsDir(s.tree, d)
    ensures IsListing(stream, s.tree, d, c.dirSize) && stream != []
    ensures content == Some(Content(c.sha(stream), stream))
  {
    hide IsHome, Target, CString, IsListing, UserAction, FileAction, GetFile, InBuffer;
    d := Target(s.tree, c.home, CString(req.body.path)).value;
    stream :| IsListing(stream, s.tree, d, c.dirSize)
      && code == (if stream == [] then OP_DIR_EMPTY else OP_SUCCESS)
      && content == (if stream == [] then None else Attach(c.sha, Some(stream)));
  }

  /** A successful LS brings the client a listing of the target directory, in which it sees every file and
      directory but ".cape" as the tree has it, exactly when no name to show holds a colon or a newline. */
  lemma ListBringsDirectory(c: Config, s: State, e: LogLine, s': State, rest: Text) returns (d: Path, stream: Text)
    requires Next(c, s, e.ev, s', e.reply) && e.ev.Served? && e.ev.req.sessionId < SESSION_LIMIT
    requires WellFormed(s.tree)
    requires e.ev.req.optCode == ACT_LIST_REMOTE_DIRECTORY && e.reply.code == OP_SUCCESS
    ensures WellTyped(e.ev.req) && Target(s.tree, c.home, CString(e.ev.req.body.path)) == Some(d)
    ensures IsDir(s.tree, d) && e.reply.content == Some(Content(c.sha(stream), stream))
    ensures |stream| < 0x8000_0000_0000_0000 ==> BringsBack(c, e.reply, stream, rest)
    ensures ClientSees(s.tree, d, c.dirSize, stream) <==> AllListedClean(s.tree, d)
  {
    hide Act, Next, Authenticate, WellTyped, Authorized, Target, CString, BringsBack, IsReadDir, Entries, PrintListing;
    hide ClientSees, AllListedClean, WellFormed, ListingFits;
    var account, m := ServeUnfolds(c, s, e, s');
    d, stream := ActOfList(c, m, account, e.ev.req, s', e.reply.code, e.reply.content);
    var names :| IsReadDir(names, s.tree, d) && stream == PrintListing(Entries(s.tree, d, names, c.dirSize));
    ReplySession(c, s, e, s');
    if |stream| < 0x8000_0000_0000_0000 {
      AnswerArrives(c, e.reply, stream, rest);
    }
    ListingShowsDirectory(s.tree, d, names, c.dirSize);
  }
}
