/** What the server answers to a request past the gate: every code, and what it does, in terms of the users and the
    tree. */
module Answers {
  import opened Bytes
  import opened Codes
  import opened Paths
  import opened FileTree
  import opened Accounts
  import opened Crypto
  import opened Listing
  import opened FileApi
  import opened Store
  import opened Database
  import opened Protocol
  import opened Runs
  import opened Screen

  /** The request was neither refused for its credentials nor for its session. */
  ghost predicate PastGate(c: Config, s: State, req: WirePayload, now: int, s': State, r: Reply) {
    && Next(c, s, Served(req, now), s', r)
    && r.code != OP_USER_AUTH && r.code != OP_SESSION_ERROR
  }

  /** The request names a user of this permission. */
  predicate ActsWith(users: Table, req: WirePayload, permission: Byte) {
    CString(req.username) in users && users[CString(req.username)].permission == permission
  }

  // ----- the gate -----

  /** The session half of the gate: its code, the id answered and the whole session table. */
  predicate GateTable(c: Config, s: State, req: WirePayload, now: int, sessions: map<nat, int>, r: Reply) {
    var id := req.sessionId;
    && (r.code == OP_SESSION_ERROR
        <==> GivesPassword(c, s.users, req) && id != 0 && (id !in s.sessions || now - s.sessions[id] > c.timeout))
    && (r.code == OP_USER_AUTH ==> sessions == s.sessions)
    && (r.code == OP_SESSION_ERROR ==> sessions == s.sessions - {id})
    && (r.code == OP_USER_AUTH || r.code == OP_SESSION_ERROR ==> r.session == id && r.content == None)
    && (r.code != OP_USER_AUTH && r.code != OP_SESSION_ERROR ==>
         && sessions == s.sessions[r.session := now]
         && (if id != 0 then r.session == id else r.session !in s.sessions && r.session < 0x1_0000_0000))
  }

  /** Who is let in, under which session. A refused request keeps the id it came with; an id that has run out is
      dropped. */
  lemma GateAnswers(c: Config, s: State, req: WirePayload, now: int, s': State, r: Reply)
    requires Next(c, s, Served(req, now), s', r)
    ensures GateTable(c, s, req, now, s'.sessions, r)
  {
    hide IsHome, Restarts, Act, WellTyped, CString;
    var drawn: nat :| Serve(c, s, req, now, drawn, s', r);
    var gate := PassGate(c, s, req, now, drawn);
    if gate.Admitted? {
      ActCodes(c, s.(sessions := gate.sessions), gate.account, req, s', r.code, r.content);
    } else if req.sessionId !in s.sessions {
      assert s.sessions - {req.sessionId} == s.sessions;
    }
  }

  lemma PastGateActs(c: Config, s: State, req: WirePayload, now: int, s': State, r: Reply)
    returns (account: Account, m: State)
    requires PastGate(c, s, req, now, s', r)
    ensures WellTyped(req) && m.users == s.users && m.tree == s.tree
    ensures Act(c, m, account, req, s', r.code, r.content)
    ensures ActsWith(s.users, req, account.permission)
  {
    hide IsHome, Next, Act, WellTyped, CString, Authorized;
    account, m := ServeUnfolds(c, s, LogLine(Served(req, now), r), s');
  }

  // ----- users -----

  /** The rules of db_create_user for name and password. */
  predicate LengthsFit(name: Text, passwd: Text) {
    3 <= |name| <= 20 && 6 <= |passwd| <= 32
  }

  /** The codes of a creation: the permission first, then the password, the lengths and the name. */
  predicate CreationTable(users: Table, permission: Byte, body: Body, code: Byte)
    requires body.User?
  {
    var name := CString(body.name);
    && (code == OP_PERMISSION_ERROR <==> permission < body.permission)
    && (permission >= body.permission ==>
         && (code == OP_FAILURE <==> body.passwd.None?)
         && (body.passwd.Some? ==>
              var passwd := CString(body.passwd.value);
              && (code == OP_CRED_RULE_ERROR <==> !LengthsFit(name, passwd))
              && (code == OP_USER_EXISTS <==> LengthsFit(name, passwd) && name in users)
              && (code == OP_SUCCESS <==> LengthsFit(name, passwd) && name !in users)))
  }

  /** On success the new account, and nothing else, is added. */
  predicate CreationLeaves(sha: Hasher, users: Table, body: Body, code: Byte, after: Table)
    requires body.User?
  {
    if code == OP_SUCCESS then
      && body.passwd.Some?
      && after == users[CString(body.name) := Account(body.permission, sha(CString(body.passwd.value)))]
    else after == users
  }

  lemma CreationCodes(sha: Hasher, users: Table, account: Account, body: Body)
    requires body.User? && body.flag == 10
    ensures CreationTable(users, account.permission, body, UserCode(users, account, body))
    ensures CreationLeaves(sha, users, body, UserCode(users, account, body), UsersAfter(sha, users, account, body))
  {
    hide CString;
  }

  /** A creation asks for at most the creator's permission, then for a password, the lengths and an unused name, and
      succeeds exactly where all is given. */
  lemma CreationAnswers(c: Config, s: State, req: WirePayload, now: int, s': State, r: Reply)
    returns (permission: Byte)
    requires PastGate(c, s, req, now, s', r) && req.optCode == 1
    requires req.body.User? && req.body.flag == 10
    ensures ActsWith(s.users, req, permission)
    ensures CreationTable(s.users, permission, req.body, r.code)
    ensures CreationLeaves(c.sha, s.users, req.body, r.code, s'.users)
  {
    hide IsHome, Next, Act, WellTyped, CString, Authorized, UserCode, UsersAfter, Saved;
    hide CreationTable, CreationLeaves;
    var account, m := PastGateActs(c, s, req, now, s', r);
    permission := account.permission;
    ActIsUserAction(c, m, account, req, s', r.code, r.content);
    CreationCodes(c.sha, s.users, account, req.body);
  }

  /** The codes of any other user operation. */
  predicate RemovalTable(users: Table, permission: Byte, body: Body, code: Byte)
    requires body.User?
  {
    var name := CString(body.name);
    && (body.flag != 20 <==> code == OP_FAILURE)
    && (body.flag == 20 ==>
         && (code == OP_PERMISSION_ERROR <==> permission != 3)
         && (code == OP_USER_NO_EXIST <==> permission == 3 && name !in users)
         && (code == OP_SUCCESS <==> permission == 3 && name in users))
  }

  lemma RemovalCodes(sha: Hasher, users: Table, account: Account, body: Body)
    requires body.User? && body.flag != 10
    ensures var code := UserCode(users, account, body);
      && RemovalTable(users, account.permission, body, code)
      && UsersAfter(sha, users, account, body) == (if code == OP_SUCCESS then users - {CString(body.name)} else users)
  {
    hide CString;
  }

  /** A removal asks for an administrator, then for the user to be there. Any other flag fails. */
  lemma RemovalAnswers(c: Config, s: State, req: WirePayload, now: int, s': State, r: Reply)
    returns (permission: Byte)
    requires PastGate(c, s, req, now, s', r) && req.optCode == 1
    requires req.body.User? && req.body.flag != 10
    ensures ActsWith(s.users, req, permission)
    ensures RemovalTable(s.users, permission, req.body, r.code)
    ensures s'.users == if r.code == OP_SUCCESS then s.users - {CString(req.body.name)} else s.users
  {
    hide IsHome, Next, Act, WellTyped, CString, Authorized, UserCode, UsersAfter, Saved, RemovalTable;
    var account, m := PastGateActs(c, s, req, now, s', r);
    permission := account.permission;
    ActIsUserAction(c, m, account, req, s', r.code, r.content);
    RemovalCodes(c.sha, s.users, account, req.body);
  }

  // ----- files -----

  /** Deleting, making a directory and putting a file ask for the permission to write, whatever the path; no other
      operation on files does. */
  lemma WritersOnly(c: Config, s: State, req: WirePayload, now: int, s': State, r: Reply)
    returns (permission: Byte)
    requires PastGate(c, s, req, now, s', r) && req.optCode != 1
    ensures ActsWith(s.users, req, permission)
    ensures r.code == OP_PERMISSION_ERROR
       <==> (req.optCode == 2 || req.optCode == 5 || req.optCode == 6) && permission < 2
  {
    hide IsHome, Next, Act, WellTyped, CString, Authorized;
    var account, m := PastGateActs(c, s, req, now, s', r);
    permission := account.permission;
    ActIsAllowed(c, m, account, req, s', r.code, r.content);
  }

  lemma ActIsAllowed(
      c: Config, s: State, account: Account, req: WirePayload, s': State, code: Byte, content: Option<Content>)
    requires WellTyped(req) && Act(c, s, account, req, s', code, content) && req.optCode != 1
    ensures code == OP_PERMISSION_ERROR
       <==> (req.optCode == 2 || req.optCode == 5 || req.optCode == 6) && account.permission < 2
  {
    hide IsHome, FileAction, ListAction, GetFile, InBuffer, CString;
    if ChangesFiles(req.optCode) && account.permission >= READ_WRITE {
      FileIsAllowed(c, s.tree, req);
    } else if req.optCode == ACT_LIST_REMOTE_DIRECTORY {
      ListIsAllowed(c, s.tree, CString(req.body.path), code, content);
    } else if req.optCode == ACT_GET_REMOTE_FILE {
      TreeAllows(s.tree, c.home, CString(req.body.path), None);
    }
  }

  lemma TreeAllows(tree: Tree, home: Path, path: Text, stream: Option<Text>)
    ensures PutInBuffer(tree, home, path) ==> PutFile(tree, home, path, stream).1 != OP_PERMISSION_ERROR
    ensures JoinsInBuffer(tree, home, path) ==> MakeDir(tree, home, path).1 != OP_PERMISSION_ERROR
    ensures DelFile(tree, home, path).1 != OP_PERMISSION_ERROR
    ensures GetFile(tree, home, path).0 != OP_PERMISSION_ERROR
  {
    hide Target, NewPlace, Children, IsDir, ValidName, JoinsInBuffer;
  }

  lemma FileIsAllowed(c: Config, tree: Tree, req: WirePayload)
    requires req.body.Std? && ChangesFiles(req.optCode) && InBuffer(c, tree, req)
    ensures FileAction(c, tree, req).1 != OP_PERMISSION_ERROR
  {
    hide IsHome, PutFile, MakeDir, DelFile, CString, JoinsInBuffer;
    TreeAllows(tree, c.home, CString(req.body.path), req.body.stream);
  }

  lemma ListIsAllowed(c: Config, tree: Tree, path: Text, code: Byte, content: Option<Content>)
    requires ListAction(c, tree, path, code, content)
    ensures code != OP_PERMISSION_ERROR
  {
    hide IsHome, Target, IsListing;
  }

  lemma WriterActs(c: Config, s: State, req: WirePayload, now: int, s': State, r: Reply)
    requires PastGate(c, s, req, now, s', r) && ChangesFiles(req.optCode) && r.code != OP_PERMISSION_ERROR
    ensures req.body.Std? && InBuffer(c, s.tree, req)
    ensures FileAction(c, s.tree, req) == (s'.tree, r.code) && s'.users == s.users
  {
    hide IsHome, Next, CString, Act, FileAction, InBuffer;
    var account, m := PastGateActs(c, s, req, now, s', r);
    ActWrites(c, m, account, req, s', r.code, r.content);
  }

  lemma ActWrites(
      c: Config, s: State, account: Account, req: WirePayload, s': State, code: Byte, content: Option<Content>)
    requires WellTyped(req) && Act(c, s, account, req, s', code, content)
    requires ChangesFiles(req.optCode) && code != OP_PERMISSION_ERROR
    ensures req.body.Std? && InBuffer(c, s.tree, req)
    ensures FileAction(c, s.tree, req) == (s'.tree, code) && s'.users == s.users
  {
    hide IsHome, CString, FileAction, InBuffer;
  }

  /** The code of PUT for the path found, the place found and the bytes. */
  predicate PutTable(tree: Tree, found: Option<Path>, place: Option<Place>, stream: Option<Text>, code: Byte) {
    && (code == OP_FILE_EXISTS <==> found.Some?)
    && (found.None? ==>
         && (code == OP_RESOLVE_ERROR <==> place.None?)
         && (place.Some? ==>
              var d, p := place.value.dir, place.value.dir + [place.value.base];
              && (code == OP_PATH_NOT_FILE <==> stream.Some? && !IsDir(tree, d))
              && (code == OP_SUCCESS
                  <==> stream.Some? && IsDir(tree, d) && ValidName(place.value.base) && (p in tree ==> tree[p].File?))
              && (code == OP_SUCCESS || code == OP_PATH_NOT_FILE || code == OP_FAILURE)))
  }

  /** On success the node at the place, and no other, becomes this. */
  predicate PlaceBecomes(tree: Tree, place: Option<Place>, node: Node, code: Byte, after: Tree) {
    if code == OP_SUCCESS then place.Some? && after == tree[place.value.dir + [place.value.base] := node]
    else after == tree
  }

  predicate PutLeaves(tree: Tree, place: Option<Place>, stream: Option<Text>, code: Byte, after: Tree) {
    if code == OP_SUCCESS then stream.Some? && PlaceBecomes(tree, place, File(stream.value), code, after)
    else after == tree
  }

  lemma PutCodes(tree: Tree, home: Path, path: Text, stream: Option<Text>)
    requires PutInBuffer(tree, home, path)
    ensures var (after, code) := PutFile(tree, home, path, stream);
      && PutTable(tree, Target(tree, home, path), NewPlace(tree, home, path), stream, code)
      && PutLeaves(tree, NewPlace(tree, home, path), stream, code, after)
  {
    hide Target, NewPlace, ValidName;
  }

  /** PUT by a writer: the code of every case, and the file where it succeeds. */
  lemma PutAnswers(c: Config, s: State, req: WirePayload, now: int, s': State, r: Reply)
    requires PastGate(c, s, req, now, s', r) && req.optCode == 6 && r.code != OP_PERMISSION_ERROR
    ensures req.body.Std?
    ensures var path, stream := CString(req.body.path), req.body.stream;
            var found, place := Target(s.tree, c.home, path), NewPlace(s.tree, c.home, path);
      && PutTable(s.tree, found, place, stream, r.code)
      && PutLeaves(s.tree, place, stream, r.code, s'.tree)
  {
    hide IsHome, Next, CString, Target, NewPlace, PutFile, PutInBuffer, PutTable, PutLeaves;
    WriterActs(c, s, req, now, s', r);
    PutCodes(s.tree, c.home, CString(req.body.path), req.body.stream);
  }

  /** The code of MKDIR for the place found. */
  predicate MakeDirTable(tree: Tree, place: Option<Place>, code: Byte) {
    && (code == OP_RESOLVE_ERROR <==> place.None?)
    && (place.Some? ==>
         var d, p := place.value.dir, place.value.dir + [place.value.base];
         && (code == OP_FAILURE <==> !IsDir(tree, d))
         && (code == OP_DIR_EXISTS <==> IsDir(tree, d) && (p in tree || !ValidName(place.value.base)))
         && (code == OP_SUCCESS <==> IsDir(tree, d) && p !in tree && ValidName(place.value.base)))
  }

  lemma MakeDirCodes(tree: Tree, home: Path, path: Text)
    requires JoinsInBuffer(tree, home, path)
    ensures var (after, code) := MakeDir(tree, home, path);
            MakeDirTable(tree, NewPlace(tree, home, path), code)
            && PlaceBecomes(tree, NewPlace(tree, home, path), Dir, code, after)
  {
    hide NewPlace, ValidName, JoinsInBuffer;
  }

  /** MKDIR by a writer. */
  lemma MakeDirAnswers(c: Config, s: State, req: WirePayload, now: int, s': State, r: Reply)
    requires PastGate(c, s, req, now, s', r) && req.optCode == 5 && r.code != OP_PERMISSION_ERROR
    ensures req.body.Std?
    ensures var place := NewPlace(s.tree, c.home, CString(req.body.path));
            MakeDirTable(s.tree, place, r.code) && PlaceBecomes(s.tree, place, Dir, r.code, s'.tree)
  {
    hide IsHome, Next, CString, NewPlace, MakeDir, JoinsInBuffer, MakeDirTable, PlaceBecomes;
    WriterActs(c, s, req, now, s', r);
    MakeDirCodes(s.tree, c.home, CString(req.body.path));
  }

  /** The directory has no entry. */
  ghost predicate NothingIn(tree: Tree, p: Path) {
    forall n: Name :: p + [n] !in tree
  }

  lemma NoChildren(tree: Tree, p: Path)
    ensures Children(tree, p) == {} <==> NothingIn(tree, p)
  {
    if Children(tree, p) == {} {
      forall n: Name ensures p + [n] !in tree {
        assert Parent(p + [n]) == p;
        if p + [n] in tree {
          EntryOfParent(tree, p + [n]);
        }
      }
    } else {
      var n :| n in Children(tree, p);
      var q :| q in tree && q != [] && Parent(q) == p && q[|q| - 1] == n;
      assert q == p + [n];
    }
  }

  /** The code of DELETE for the path found. */
  ghost predicate DeleteTable(tree: Tree, found: Option<Path>, code: Byte) {
    match found
    case None => code == OP_RESOLVE_ERROR
    case Some(p) =>
      && p in tree
      && match tree[p]
         case File(_) => code == OP_SUCCESS
         case Special => code == OP_FAILURE
         case Dir =>
           code == if !NothingIn(tree, p) then OP_DIR_NOT_EMPTY else if p == [] then OP_FAILURE else OP_SUCCESS
  }

  predicate FoundGoes(tree: Tree, found: Option<Path>, code: Byte, after: Tree) {
    if code == OP_SUCCESS then found.Some? && after == tree - {found.value} else after == tree
  }

  lemma DeleteCodes(tree: Tree, home: Path, path: Text)
    requires WellFormed(tree) && Canonical(home)
    ensures var (after, code) := DelFile(tree, home, path);
            var found := Target(tree, home, path);
            DeleteTable(tree, found, code) && FoundGoes(tree, found, code, after)
  {
    hide Canonical, PathResolve, Children, NothingIn, WellFormed;
    PathResolveIsTarget(tree, home, path);
    hide Target;
    if Target(tree, home, path).Some? {
      NoChildren(tree, Target(tree, home, path).value);
    }
  }

  /** DELETE by a writer: a file or an empty directory goes, whatever else was found stays. */
  lemma DeleteAnswers(c: Config, s: State, req: WirePayload, now: int, s': State, r: Reply)
    requires PastGate(c, s, req, now, s', r) && req.optCode == 2 && r.code != OP_PERMISSION_ERROR
    requires WellFormed(s.tree)
    ensures req.body.Std?
    ensures var found := Target(s.tree, c.home, CString(req.body.path));
            DeleteTable(s.tree, found, r.code) && FoundGoes(s.tree, found, r.code, s'.tree)
  {
    HomeIsCanonical(c.home);
    hide IsHome, Next, CString, Canonical, DelFile, Target, DeleteTable, FoundGoes, WellFormed;
    WriterActs(c, s, req, now, s', r);
    DeleteCodes(s.tree, c.home, CString(req.body.path));
  }

  /** The code of GET for the path found, and the bytes. */
  predicate FetchTable(tree: Tree, found: Option<Path>, code: Byte, bytes: Option<Text>) {
    match found
    case None => code == OP_RESOLVE_ERROR && bytes == None
    case Some(p) =>
      && p in tree
      && match tree[p]
         case File(data) =>
           if data == [] then code == OP_FILE_EMPTY && bytes == None else code == OP_SUCCESS && bytes == Some(data)
         case _ => code == OP_PATH_NOT_FILE && bytes == None
  }

  lemma FetchCodes(tree: Tree, home: Path, path: Text)
    requires WellFormed(tree) && Canonical(home)
    ensures FetchTable(tree, Target(tree, home, path), GetFile(tree, home, path).0, GetFile(tree, home, path).1)
  {
    hide Canonical, PathResolve, WellFormed;
    PathResolveIsTarget(tree, home, path);
    hide Target;
  }

  /** GET: the bytes of a non-empty file with their digest, and a code for everything else. */
  lemma FetchAnswers(c: Config, s: State, req: WirePayload, now: int, s': State, r: Reply) returns (bytes: Option<Text>)
    requires PastGate(c, s, req, now, s', r) && req.optCode == 4 && WellFormed(s.tree)
    ensures req.body.Std?
    ensures FetchTable(s.tree, Target(s.tree, c.home, CString(req.body.path)), r.code, bytes)
    ensures r.content == match bytes case None => None case Some(b) => Some(Content(c.sha(b), b))
    ensures s'.users == s.users && s'.tree == s.tree
  {
    HomeIsCanonical(c.home);
    hide IsHome, Next, CString, Canonical, Act, Authorized, GetFile, Target, FetchTable, WellFormed;
    var account, m := PastGateActs(c, s, req, now, s', r);
    var path := CString(req.body.path);
    ActOfGet(c, m, account, req, s', r.code, r.content);
    FetchCodes(s.tree, c.home, path);
    bytes := GetFile(s.tree, c.home, path).1;
  }

  lemma ListingIsEmptyIff(tree: Tree, d: Path, names: seq<Name>, dirSize: Path -> nat)
    requires WellFormed(tree) && IsReadDir(names, tree, d)
    ensures PrintListing(Entries(tree, d, names, dirSize)) == [] <==> forall n :: !IsListed(tree, d, n)
  {
    hide WellFormed, IsReadDir, Entries, Shown, EntryOf, IsListed, PrintLine;
    var es := Entries(tree, d, names, dirSize);
    EntriesAreShown(tree, d, names, dirSize);
    if es != [] {
      assert es[0] in es;
      DescribedIsListed(tree, d, dirSize, es[0]);
    } else {
      forall n ensures !IsListed(tree, d, n) {
        if IsListed(tree, d, n) {
          ListedIsRead(tree, d, names, n);
        }
      }
    }
  }

  lemma DescribedIsListed(tree: Tree, d: Path, dirSize: Path -> nat, e: Entry)
    requires Describes(tree, d, dirSize, e)
    ensures IsListed(tree, d, e.name)
  {
  }

  /** The code of LS for the path found. */
  ghost predicate ListTable(tree: Tree, found: Option<Path>, code: Byte) {
    match found
    case None => code == OP_RESOLVE_ERROR
    case Some(p) =>
      code == if !IsDir(tree, p) then OP_PATH_NOT_DIR
              else if exists n :: IsListed(tree, p, n) then OP_SUCCESS else OP_DIR_EMPTY
  }

  lemma ListCodesAre(c: Config, tree: Tree, path: Text, code: Byte, content: Option<Content>)
    requires WellFormed(tree) && ListAction(c, tree, path, code, content)
    ensures ListTable(tree, Target(tree, c.home, path), code)
  {
    hide IsHome, Target, IsListed, WellFormed, IsReadDir, Entries, PrintListing, ListingFits;
    var p := Target(tree, c.home, path);
    if p.Some? && IsDir(tree, p.value) {
      var stream :| IsListing(stream, tree, p.value, c.dirSize)
        && code == (if stream == [] then OP_DIR_EMPTY else OP_SUCCESS);
      var names :| IsReadDir(names, tree, p.value) && stream == PrintListing(Entries(tree, p.value, names, c.dirSize));
      ListingIsEmptyIff(tree, p.value, names, c.dirSize);
    }
  }

  lemma ActOfListing(
      c: Config, s: State, account: Account, req: WirePayload, s': State, code: Byte, content: Option<Content>)
    requires WellTyped(req) && req.optCode == ACT_LIST_REMOTE_DIRECTORY
    requires Act(c, s, account, req, s', code, content)
    ensures s' == s && ListAction(c, s.tree, CString(req.body.path), code, content)
  {
    hide IsHome, CString, UserAction, FileAction, GetFile, ListAction, InBuffer;
  }

  /** LS succeeds exactly on a directory with something to show; ListBringsDirectory says what it then brings. */
  lemma ListAnswers(c: Config, s: State, req: WirePayload, now: int, s': State, r: Reply)
    requires PastGate(c, s, req, now, s', r) && req.optCode == 3 && WellFormed(s.tree)
    ensures req.body.Std?
    ensures ListTable(s.tree, Target(s.tree, c.home, CString(req.body.path)), r.code)
    ensures s'.users == s.users && s'.tree == s.tree
  {
    hide IsHome, Next, CString, Target, Act, Authorized, WellFormed, ListAction, ListTable;
    var account, m := PastGateActs(c, s, req, now, s', r);
    ActOfListing(c, m, account, req, s', r.code, r.content);
    ListCodesAre(c, s.tree, CString(req.body.path), r.code, r.content);
  }

  /** The local operation succeeds without doing anything, and an unknown action fails so. */
  lemma OtherAnswers(c: Config, s: State, req: WirePayload, now: int, s': State, r: Reply)
    requires PastGate(c, s, req, now, s', r) && !(1 <= req.optCode <= 6)
    ensures r.code == if req.optCode == 7 then OP_SUCCESS else OP_FAILURE
    ensures r.content == None && s'.users == s.users && s'.tree == s.tree
  {
    hide IsHome, Next, CString, UserAction, FileAction, GetFile, ListAction, InBuffer;
    var account, m := PastGateActs(c, s, req, now, s', r);
  }
}
