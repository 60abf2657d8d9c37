/** The two database files as a function of the user table: what db_update_db writes and db_init reads. */
module Store {
  import opened Bytes
  import opened Codes
  import opened Paths
  import opened FileTree
  import opened Accounts
  import opened Reload
  import opened Crypto
  import opened FileApi
  import Hex

  const DB_FILE: Text := [DOT, 99, 97, 112, 101, DOT, 100, 98] // ".cape.db"
  const HASH_FILE: Text := [DOT, 99, 97, 112, 101, DOT, 104, 97, 115, 104] // ".cape.hash"
  const DB_NAME: Text := DB_DIR + [SLASH] + DB_FILE
  const DB_HASH: Text := DB_DIR + [SLASH] + HASH_FILE

  /** 0xFFAAFABA as it lies in the memory of a little-endian machine. */
  const MAGIC: Text := [0xBA, 0xFA, 0xAA, 0xFF]

  const DEFAULT_USER: Text := [97, 100, 109, 105, 110] // "admin"

  const DEFAULT_DIGEST: Text := [
    0x5e, 0x88, 0x48, 0x98, 0xda, 0x28, 0x04, 0x71, 0x51, 0xd0, 0xe5, 0x6f, 0x8d, 0xc6, 0x29, 0x27,
    0x73, 0x60, 0x3d, 0x0d, 0x6a, 0xab, 0xbd, 0xd6, 0x2a, 0x11, 0xef, 0x72, 0x1d, 0x15, 0x42, 0xd8]

  const DEFAULT_TABLE: Table := map[DEFAULT_USER := Account(ADMIN, DEFAULT_DIGEST)]

  /** Resolved, and short enough for the names the server joins to it. */
  predicate IsHome(p: Path) {
    Canonical(p) && |PathText(p)| + LONGEST_DB_NAME + 2 <= PATH_MAX
  }

  const LONGEST_DB_NAME := 16

  /** A home directory the server was started with. */
  type Home = p: Path | IsHome(p) witness []

  lemma HomeIsCanonical(home: Home)
    ensures Canonical(home)
  {
    hide Canonical, PathText;
  }

  lemma HomeFits(home: Home)
    ensures Fits(home, DB_HASH) && Fits(home, DB_NAME) && Fits(home, DB_DIR)
  {
    hide Canonical, PathText;
    assert |DB_HASH| == LONGEST_DB_NAME;
  }

  function DirPath(home: Path): Path { home + [DB_DIR] }

  function DbPath(home: Path): Path { home + [DB_DIR, DB_FILE] }

  function HashPath(home: Path): Path { home + [DB_DIR, HASH_FILE] }

  lemma DbPathsDiffer(home: Path)
    ensures DbPath(home) != HashPath(home)
    ensures DbPath(home) != home && HashPath(home) != home
    ensures DbPath(home) != DirPath(home) && HashPath(home) != DirPath(home)
  {
    assert DbPath(home)[|home| + 1] != HashPath(home)[|home| + 1];
    assert |DbPath(home)| == |home| + 2 == |HashPath(home)| && |DirPath(home)| == |home| + 1;
  }

  // ----- resolving the database paths -----

  lemma DbNameParts(base: Name)
    requires base != [] && SLASH !in base
    ensures Dirname(DB_DIR + [SLASH] + base) == DB_DIR
    ensures Basename(DB_DIR + [SLASH] + base) == base
    ensures Split(DB_DIR + [SLASH] + base) == [DB_DIR, base]
    ensures Split(DB_DIR) == [DB_DIR]
    ensures Dirname(DB_DIR) == [DOT] && Basename(DB_DIR) == DB_DIR
  {
    hide SplitOn;
    var s := DB_DIR + [SLASH] + base;
    assert SLASH !in DB_DIR;
    SplitPlain(DB_DIR);
    SplitPlain(base);
    SplitAtSlash(DB_DIR, base);
    assert Strip(s) == s;
    assert s[|DB_DIR|] == SLASH;
    assert forall j | |DB_DIR| < j < |s| :: s[j] == base[j - |DB_DIR| - 1];
    assert LastSlash(s) == |DB_DIR|;
    assert s[..|DB_DIR|] == DB_DIR;
    assert s[|DB_DIR| + 1..] == base;
    assert LastSlash(DB_DIR) == -1;
    assert DB_DIR[0..] == DB_DIR;
  }

  lemma HomeIsAbove(home: Path, rest: Path)
    ensures UnderHome(home, PathText(home + rest))
  {
    SlashedConcat(home, rest);
    SlashedHead(home + rest);
    SlashedHead(home);
    assert home == [] ==> home + rest == rest;
  }

  lemma JoinIsAbove(home: Path, rest: Path, base: Name)
    ensures UnderHome(home, Join(PathText(home + rest), base))
  {
    HomeIsAbove(home, rest);
    var root := PathText(home + rest);
    assert root <= Join(root, base);
  }

  lemma WalkTwo(tree: Tree, from: Path, a: Name, b: Name)
    requires WellFormed(tree)
    requires ValidName(a) && ValidName(b)
    ensures Walk(tree, from, [a]) == if from + [a] in tree then Some(from + [a]) else None
    ensures Walk(tree, from, [a, b])
         == if IsDir(tree, from + [a]) && from + [a, b] in tree then Some(from + [a, b]) else None
  {
    assert from + [a] in tree ==> Parent(from + [a]) == from && IsDir(tree, from);
    hide WellFormed;
    WalkOne(tree, from, a);
    WalkOne(tree, from + [a], b);
    WalkConcat(tree, from, [a], [b]);
    assert [a] + [b] == [a, b];
    assert from + [a] + [b] == from + [a, b];
  }

  lemma InsideDbDir(tree: Tree, home: Path, base: Name)
    requires WellFormed(tree) && home + [DB_DIR, base] in tree
    ensures IsDir(tree, home + [DB_DIR])
  {
    assert Parent(home + [DB_DIR, base]) == home + [DB_DIR];
  }

  lemma DbDirIsName()
    ensures ValidName(DB_DIR) && ValidName(DB_FILE) && ValidName(HASH_FILE)
  {
  }

  /** ".cape/<base>" resolves to the entry of that name, if present. */
  lemma ResolveDbFile(tree: Tree, home: Path, base: Name)
    requires WellFormed(tree)
    requires ValidName(base) && Fits(home, DB_DIR + [SLASH] + base)
    ensures var p := home + [DB_DIR, base];
            Target(tree, home, DB_DIR + [SLASH] + base) == if p in tree then Some(p) else None
  {
    hide Split, Walk, PathText, Dirname, Basename, WellFormed;
    var p := home + [DB_DIR, base];
    DbNameParts(base);
    WalkTwo(tree, home, DB_DIR, base);
    HomeIsAbove(home, [DB_DIR, base]);
    if p in tree {
      InsideDbDir(tree, home, base);
    }
  }

  lemma PlaceOfDbFile(tree: Tree, home: Path, base: Name)
    requires WellFormed(tree)
    requires ValidName(base)
    ensures NewPlace(tree, home, DB_DIR + [SLASH] + base)
         == if DirPath(home) in tree then Some(Place(DirPath(home), base)) else None
  {
    hide Split, Walk, PathText, Dirname, Basename, WellFormed, Join;
    DbNameParts(base);
    WalkTwo(tree, home, DB_DIR, base);
    JoinIsAbove(home, [DB_DIR], base);
  }

  lemma ResolveDbDir(tree: Tree, home: Path)
    requires WellFormed(tree) && IsDir(tree, home)
    ensures Fits(home, DB_DIR) ==>
      Target(tree, home, DB_DIR) == if DirPath(home) in tree then Some(DirPath(home)) else None
    ensures NewPlace(tree, home, DB_DIR) == Some(Place(home, DB_DIR))
  {
    hide Split, Walk, PathText, Dirname, Basename, WellFormed, Join, ValidName;
    DbNameParts(DB_DIR);
    DbDirIsName();
    WalkTwo(tree, home, DB_DIR, DB_DIR);
    DotIsHere(tree, home);
    HomeIsAbove(home, [DB_DIR]);
    assert home + [] == home;
    JoinIsAbove(home, [], DB_DIR);
  }

  // ----- what is written -----

  /** The bytes db_update_db hands to the file: the magic and the records, as far as it counted them. */
  function DbBytes(order: seq<Text>, users: Table): Text
    requires forall n | n in order :: n in users
  {
    (MAGIC + PrintTable(order, users))[..WrittenSize(order, users)]
  }

  lemma DbBytesPrinted(order: seq<Text>, users: Table)
    requires IsOrder(order, users) && forall n | n in users :: users[n].permission <= 9
    ensures DbBytes(order, users) == MAGIC + PrintTable(order, users)
    ensures FitsBuffer(order, users)
  {
    hide PrintTable, TableBudget, ExtraDigits;
    WrittenSizeIsExact(order, users);
    BudgetAgainstPrinted(order, users);
    NoExtraDigits(order, users);
  }

  lemma NoExtraDigits(order: seq<Text>, users: Table)
    requires IsOrder(order, users) && forall n | n in users :: users[n].permission <= 9
    ensures ExtraDigits(order, users) == 0
  {
    hide ExtraDigits;
    BudgetAgainstPrinted(order, users);
  }

  /** The table can be printed without leaving the buffer, in any order. */
  ghost predicate Bounded(users: Table) {
    forall order | IsOrder(order, users) :: FitsBuffer(order, users)
  }

  lemma PrintableIsBounded(users: Table)
    requires forall n | n in users :: users[n].permission <= 9
    ensures Bounded(users)
  {
    hide FitsBuffer;
    forall order | IsOrder(order, users) ensures FitsBuffer(order, users) {
      DbBytesPrinted(order, users);
    }
  }

  predicate FileOrAbsent(tree: Tree, p: Path) {
    p in tree ==> tree[p].File?
  }

  /** Where db_update_db can store both files. */
  predicate Savable(home: Path, tree: Tree) {
    IsDir(tree, DirPath(home)) && FileOrAbsent(tree, DbPath(home)) && FileOrAbsent(tree, HashPath(home))
  }

  /** f_write_file of the database file, then update_db_hash: the tree, and whether both were written. The
      first is written even where the second then cannot be. */
  function StoreFiles(sha: Hasher, home: Path, tree: Tree, content: Text): (Tree, bool) {
    if !IsDir(tree, DirPath(home)) || !FileOrAbsent(tree, DbPath(home)) then (tree, false)
    else if !FileOrAbsent(tree, HashPath(home)) then (tree[DbPath(home) := File(content)], false)
    else (tree[DbPath(home) := File(content)][HashPath(home) := File(MAGIC + sha(content))], true)
  }

  /** The tree after db_update_db iterated the users in this order. */
  function SaveWith(sha: Hasher, home: Path, tree: Tree, users: Table, order: seq<Text>): Tree
    requires forall n | n in order :: n in users
  {
    StoreFiles(sha, home, tree, DbBytes(order, users)).0
  }

  ghost predicate SavedInOrder(sha: Hasher, home: Path, tree: Tree, users: Table, tree': Tree, order: seq<Text>) {
    IsOrder(order, users) && tree' == SaveWith(sha, home, tree, users, order)
  }

  /** The tree after db_update_db, whatever the iteration order. A table that does not fit its buffer has no
      such tree. */
  ghost predicate Saved(sha: Hasher, home: Path, tree: Tree, users: Table, tree': Tree) {
    Bounded(users) && exists order :: SavedInOrder(sha, home, tree, users, tree', order)
  }

  ghost predicate HeldInOrder(sha: Hasher, home: Path, tree: Tree, users: Table, order: seq<Text>) {
    && IsOrder(order, users)
    && IsFile(tree, DbPath(home)) && tree[DbPath(home)].data == DbBytes(order, users)
    && IsFile(tree, HashPath(home)) && tree[HashPath(home)].data == MAGIC + sha(DbBytes(order, users))
  }

  /** The files on disk are a printing of this table and its digest. */
  ghost predicate Holds(sha: Hasher, home: Path, tree: Tree, users: Table) {
    IsDir(tree, DirPath(home)) && exists order :: HeldInOrder(sha, home, tree, users, order)
  }

  // ----- what is read -----

  /** verify_magic. */
  predicate HasMagic(content: Text) {
    MAGIC <= content
  }

  /** db_init from the contents of the two files on. */
  function LoadFiles(sha: Hasher, db: Text, hash: Text): LoadResult {
    if !HasMagic(hash) || |hash| != SHA256_DIGEST_LENGTH + 4 then Rejected
    else if sha(db) != hash[4..] then Rejected
    else if !HasMagic(db) then Rejected
    else Load(db[4..])
  }

  function ReadBoth(sha: Hasher, home: Path, tree: Tree): LoadResult {
    if IsFile(tree, DbPath(home)) && IsFile(tree, HashPath(home))
    then LoadFiles(sha, tree[DbPath(home)].data, tree[HashPath(home)].data)
    else Rejected
  }

  /** Magic, length and digest together are the whole text. */
  lemma HashFileText(hash: Text, digest: Text)
    requires |digest| == SHA256_DIGEST_LENGTH
    ensures hash == MAGIC + digest <==> HasMagic(hash) && |hash| == SHA256_DIGEST_LENGTH + 4 && hash[4..] == digest
  {
    if HasMagic(hash) {
      assert hash == hash[..4] + hash[4..];
    }
  }

  /** What is loaded begins with the magic and is followed by its own digest in the other file. */
  lemma SignedIsLoaded(sha: Hasher, db: Text, hash: Text)
    ensures LoadFiles(sha, db, hash) == if MAGIC <= db && hash == MAGIC + sha(db) then Load(db[4..]) else Rejected
  {
    hide Load;
    HashFileText(hash, sha(db));
  }

  function WithDbDir(home: Path, tree: Tree): Tree {
    if DirPath(home) in tree then tree else tree[DirPath(home) := Dir]
  }

  datatype InitResult = InitResult(tree: Tree, loaded: LoadResult)

  /** db_init: create the directory; with neither file present create the defaults; with one missing
      refuse; then check and read both. */
  function Init(sha: Hasher, home: Path, tree: Tree): InitResult {
    var t := WithDbDir(home, tree);
    if DbPath(home) !in t && HashPath(home) !in t then
      var (saved, ok) := StoreFiles(sha, home, t, DbBytes([DEFAULT_USER], DEFAULT_TABLE));
      InitResult(saved, if ok then ReadBoth(sha, home, saved) else Rejected)
    else if DbPath(home) !in t || HashPath(home) !in t then InitResult(t, Rejected)
    else InitResult(t, ReadBoth(sha, home, t))
  }

  /** Both files are there, the first begins with the magic, and the second is the magic and the digest of all of
      the first. */
  predicate Signed(sha: Hasher, home: Path, tree: Tree) {
    && IsFile(tree, DbPath(home)) && IsFile(tree, HashPath(home))
    && MAGIC <= tree[DbPath(home)].data
    && tree[HashPath(home)].data == MAGIC + sha(tree[DbPath(home)].data)
  }

  lemma SignedIsRead(sha: Hasher, home: Path, tree: Tree)
    ensures ReadBoth(sha, home, tree)
         == if Signed(sha, home, tree) then Load(tree[DbPath(home)].data[4..]) else Rejected
  {
    hide Load, LoadFiles, DbPath, HashPath;
    if IsFile(tree, DbPath(home)) && IsFile(tree, HashPath(home)) {
      SignedIsLoaded(sha, tree[DbPath(home)].data, tree[HashPath(home)].data);
    }
  }

  lemma StoredIsRead(sha: Hasher, home: Path, tree: Tree, content: Text)
    requires DbPath(home) !in tree && HashPath(home) !in tree
    ensures var (t, ok) := StoreFiles(sha, home, tree, content); !ok ==> ReadBoth(sha, home, t) == Rejected
  {
    hide LoadFiles, DbPath, HashPath;
  }

  lemma InitIsRead(sha: Hasher, home: Path, tree: Tree)
    ensures Init(sha, home, tree).loaded == ReadBoth(sha, home, Init(sha, home, tree).tree)
  {
    hide ReadBoth, StoreFiles, DbPath, HashPath, WithDbDir, DbBytes;
    var t := WithDbDir(home, tree);
    if DbPath(home) !in t && HashPath(home) !in t {
      StoredIsRead(sha, home, t, DbBytes([DEFAULT_USER], DEFAULT_TABLE));
    } else {
      NothingReadWithoutBoth(sha, home, t);
    }
  }

  /** Whatever the disk holds: db_init succeeds exactly where the tree it leaves is signed and its records load, and
      then has what those records load to. */
  lemma InitLoadsIff(sha: Hasher, home: Path, tree: Tree)
    ensures var r := Init(sha, home, tree);
            r.loaded == if Signed(sha, home, r.tree) then Load(r.tree[DbPath(home)].data[4..]) else Rejected
  {
    hide Init, ReadBoth, Load, DbPath, HashPath;
    InitIsRead(sha, home, tree);
    SignedIsRead(sha, home, Init(sha, home, tree).tree);
  }

  lemma NothingReadWithoutBoth(sha: Hasher, home: Path, tree: Tree)
    ensures DbPath(home) !in tree || HashPath(home) !in tree ==> ReadBoth(sha, home, tree) == Rejected
  {
    hide LoadFiles, DbPath, HashPath;
  }

  /** Exactly one of the two files: refused, and nothing is written. */
  lemma OneFileIsRefused(sha: Hasher, home: Path, tree: Tree)
    requires IsDir(tree, DirPath(home)) && (DbPath(home) in tree <==> HashPath(home) !in tree)
    ensures Init(sha, home, tree) == InitResult(tree, Rejected)
  {
    hide DbPath, HashPath, DirPath, DbBytes, StoreFiles, ReadBoth;
  }

  // ----- disk refines memory -----

  lemma StoreKeepsWellFormed(sha: Hasher, home: Path, tree: Tree, content: Text)
    requires WellFormed(tree)
    ensures WellFormed(StoreFiles(sha, home, tree, content).0)
  {
    hide ValidName, WellFormed;
    DbDirIsName();
    DbPathsDiffer(home);
    if IsDir(tree, DirPath(home)) && FileOrAbsent(tree, DbPath(home)) {
      assert DirPath(home) + [DB_FILE] == DbPath(home);
      assert DirPath(home) + [HASH_FILE] == HashPath(home);
      AddKeepsWellFormed(tree, DirPath(home), DB_FILE, File(content));
      if FileOrAbsent(tree, HashPath(home)) {
        var t := tree[DbPath(home) := File(content)];
        AddKeepsWellFormed(t, DirPath(home), HASH_FILE, File(MAGIC + sha(content)));
      }
    }
  }

  predicate SamePath(tree: Tree, tree': Tree, p: Path) {
    (p in tree <==> p in tree') && (p in tree ==> tree[p] == tree'[p])
  }

  /** A save touches the two files and nothing else. */
  lemma StoreKeepsOtherPaths(sha: Hasher, home: Path, tree: Tree, content: Text, p: Path)
    ensures p != DbPath(home) && p != HashPath(home) ==> SamePath(tree, StoreFiles(sha, home, tree, content).0, p)
  {
  }

  /** A save re-establishes agreement of disk and memory exactly where ".cape" is a directory and neither
      file path is taken by something else. */
  lemma SavedHoldsIff(sha: Hasher, home: Path, tree: Tree, users: Table, tree': Tree)
    requires Saved(sha, home, tree, users, tree')
    ensures Holds(sha, home, tree', users) <==> Savable(home, tree)
  {
    hide Bounded, IsOrder;
    var order :| SavedInOrder(sha, home, tree, users, tree', order);
    SavedIsHeld(sha, home, tree, users, tree', order);
  }

  predicate FileAt(tree: Tree, p: Path, data: Text) {
    IsFile(tree, p) && tree[p].data == data
  }

  lemma StoreReachesFiles(sha: Hasher, home: Path, tree: Tree, content: Text)
    ensures var t := StoreFiles(sha, home, tree, content).0;
      && (IsDir(tree, DirPath(home)) && FileOrAbsent(tree, DbPath(home)) ==> FileAt(t, DbPath(home), content))
      && (!(IsDir(tree, DirPath(home)) && FileOrAbsent(tree, DbPath(home))) ==> t == tree)
      && (!Savable(home, tree) ==> SamePath(tree, t, HashPath(home)))
  {
    hide DirPath, DbPath, HashPath;
    DbPathsDiffer(home);
  }

  /** On every tree: the database file is written wherever it can be, even where the hash file then cannot be, and
      the hash file only where both can. */
  lemma SaveReachesFiles(sha: Hasher, home: Path, tree: Tree, users: Table, tree': Tree)
    requires Saved(sha, home, tree, users, tree')
    ensures IsDir(tree, DirPath(home)) && FileOrAbsent(tree, DbPath(home)) ==>
      exists order :: IsOrder(order, users) && FileAt(tree', DbPath(home), DbBytes(order, users))
    ensures !(IsDir(tree, DirPath(home)) && FileOrAbsent(tree, DbPath(home))) ==> tree' == tree
    ensures !Savable(home, tree) ==> SamePath(tree, tree', HashPath(home))
  {
    hide SavedInOrder, Bounded, DbBytes, DirPath, DbPath, HashPath, FileAt, FileOrAbsent, SamePath;
    var order :| SavedInOrder(sha, home, tree, users, tree', order);
    SavedReaches(sha, home, tree, users, tree', order);
  }

  lemma SavedReaches(sha: Hasher, home: Path, tree: Tree, users: Table, tree': Tree, order: seq<Text>)
    requires SavedInOrder(sha, home, tree, users, tree', order)
    ensures IsOrder(order, users)
    ensures IsDir(tree, DirPath(home)) && FileOrAbsent(tree, DbPath(home)) ==>
      FileAt(tree', DbPath(home), DbBytes(order, users))
    ensures !(IsDir(tree, DirPath(home)) && FileOrAbsent(tree, DbPath(home))) ==> tree' == tree
    ensures !Savable(home, tree) ==> SamePath(tree, tree', HashPath(home))
  {
    hide DbBytes, DirPath, DbPath, HashPath, StoreFiles, FileAt, FileOrAbsent, SamePath;
    StoreReachesFiles(sha, home, tree, DbBytes(order, users));
  }

  lemma HeldIsFiles(sha: Hasher, home: Path, tree: Tree, users: Table, order: seq<Text>, printed: Text)
    requires IsOrder(order, users) && printed == DbBytes(order, users)
    ensures HeldInOrder(sha, home, tree, users, order)
       <==> FileAt(tree, DbPath(home), printed) && FileAt(tree, HashPath(home), MAGIC + sha(printed))
  {
    hide IsOrder, DbBytes, DbPath, HashPath;
  }

  lemma SavedIsHeld(sha: Hasher, home: Path, tree: Tree, users: Table, tree': Tree, order: seq<Text>)
    requires SavedInOrder(sha, home, tree, users, tree', order)
    ensures Savable(home, tree) ==> IsDir(tree', DirPath(home)) && HeldInOrder(sha, home, tree', users, order)
    ensures !Savable(home, tree) ==>
      !IsDir(tree', DirPath(home)) || !IsFile(tree', DbPath(home)) || !IsFile(tree', HashPath(home))
  {
    hide Savable, PrintTable, WrittenSize, StoreFiles, FileAt, HeldInOrder, DbPath, HashPath, DirPath;
    var printed := DbBytes(order, users);
    hide DbBytes, IsOrder;
    StoredFiles(sha, home, tree, printed);
    HeldIsFiles(sha, home, tree', users, order, printed);
  }

  lemma StoredFiles(sha: Hasher, home: Path, tree: Tree, content: Text)
    ensures var t := StoreFiles(sha, home, tree, content).0;
      && (Savable(home, tree) ==>
           && IsDir(t, DirPath(home)) && FileAt(t, DbPath(home), content)
           && FileAt(t, HashPath(home), MAGIC + sha(content)))
      && (!Savable(home, tree) ==>
           !IsDir(t, DirPath(home)) || !IsFile(t, DbPath(home)) || !IsFile(t, HashPath(home)))
  {
    hide DbPath, HashPath, DirPath;
    DbPathsDiffer(home);
    if Savable(home, tree) {
      WrittenBoth(tree, DirPath(home), DbPath(home), HashPath(home), content, MAGIC + sha(content));
    } else if IsDir(tree, DirPath(home)) && FileOrAbsent(tree, DbPath(home)) {
      assert StoreFiles(sha, home, tree, content).0 == tree[DbPath(home) := File(content)];
    }
  }

  lemma WrittenBoth(tree: Tree, dir: Path, p: Path, q: Path, a: Text, b: Text)
    requires IsDir(tree, dir) && p != q && p != dir && q != dir
    ensures var t := tree[p := File(a)][q := File(b)]; IsDir(t, dir) && FileAt(t, p, a) && FileAt(t, q, b)
  {
  }

  /** Whatever order the table was printed in, the two files load back to exactly that table. */
  lemma HeldFilesLoad(sha: Hasher, home: Path, tree: Tree, users: Table)
    requires Holds(sha, home, tree, users)
    requires StorableTable(users) && CleanTable(users)
    ensures ReadBoth(sha, home, tree) == Loaded(users)
  {
    hide PrintTable, Load, DbBytes;
    var order :| HeldInOrder(sha, home, tree, users, order);
    LoadPrinted(order, users);
    PrintedIsLoaded(sha, order, users);
  }

  /** The two contents of a save pass every check, and the parser gets what was printed. */
  lemma PrintedIsLoaded(sha: Hasher, order: seq<Text>, users: Table)
    requires IsOrder(order, users) && forall n | n in users :: users[n].permission <= 9
    ensures LoadFiles(sha, DbBytes(order, users), MAGIC + sha(DbBytes(order, users))) == Load(PrintTable(order, users))
  {
    hide PrintTable, Load;
    DbBytesPrinted(order, users);
    hide DbBytes;
    assert DbBytes(order, users)[4..] == PrintTable(order, users);
    assert (MAGIC + sha(DbBytes(order, users)))[4..] == sha(DbBytes(order, users));
  }

  /** Starting again on files that hold a table changes nothing and recovers the table. */
  lemma InitReloads(sha: Hasher, home: Path, tree: Tree, users: Table)
    requires Holds(sha, home, tree, users)
    requires StorableTable(users) && CleanTable(users)
    ensures Init(sha, home, tree) == InitResult(tree, Loaded(users))
  {
    HeldFilesLoad(sha, home, tree, users);
  }

  /** Reloading never gives a permission above those held, as long as every account is tame. */
  lemma HeldFilesRaiseNothing(sha: Hasher, home: Path, tree: Tree, users: Table, limit: int)
    requires Holds(sha, home, tree, users) && TameUpTo(users, limit)
    ensures var r := ReadBoth(sha, home, tree); r.Loaded? ==> TameUpTo(r.users, limit)
  {
    hide Load, DbBytes, ReadsUpTo;
    var order :| HeldInOrder(sha, home, tree, users, order);
    ReloadRaisesNothing(order, users, limit);
    PrintedIsLoaded(sha, order, users);
  }

  /** A table with a ':' in a name never comes back from the disk. */
  lemma HeldColonIsLost(sha: Hasher, home: Path, tree: Tree, users: Table, name: Text)
    requires Holds(sha, home, tree, users) && name in users && COLON in name
    requires forall n | n in users :: users[n].permission <= 9
    ensures Init(sha, home, tree).loaded != Loaded(users)
  {
    hide Load, DbBytes, PrintTable;
    var order :| HeldInOrder(sha, home, tree, users, order);
    PrintedIsLoaded(sha, order, users);
    ColonIsLost(PrintTable(order, users), users, name);
  }

  /** Starting on files that hold one name with a ':', printed in this order: how its record is read decides
      whether the server starts, and with which table. */
  lemma InitReadsColonName(sha: Hasher, home: Path, tree: Tree, users: Table, name: Text, order: seq<Text>)
    requires IsDir(tree, DirPath(home)) && HeldInOrder(sha, home, tree, users, order) && ColonBeside(users, name)
    ensures var t := Reading(name, users[name]);
            Init(sha, home, tree)
            == InitResult(tree, if t.Took? then Loaded(AfterStart(order, users, name, t))
                                else if t.Hangs? then Undefined else Rejected)
  {
    hide Load, DbBytes, PrintTable, Reading, AfterStart, Clean;
    ColonNameIsReadAs(order, users, name);
    BesidePrintable(users, name);
    PrintedIsLoaded(sha, order, users);
  }

  lemma BesidePrintable(users: Table, name: Text)
    requires ColonBeside(users, name)
    ensures forall n | n in users :: users[n].permission <= 9
  {
    assert forall n | n in users :: Storable(n, users[n]);
  }

  /** The first database file: the four bytes of the magic, "admin:3:", the hexadecimal digest, a newline. */
  lemma DefaultFileText()
    ensures DbBytes([DEFAULT_USER], DEFAULT_TABLE)
         == [0xBA, 0xFA, 0xAA, 0xFF] + [97, 100, 109, 105, 110, 58, 51, 58] + Hex.Print(DEFAULT_DIGEST) + [10]
  {
    hide DbBytes, Hex.Print;
    DefaultsAreStorable();
    DbBytesPrinted([DEFAULT_USER], DEFAULT_TABLE);
    OneRecordPrinted(DEFAULT_USER, DEFAULT_TABLE);
    assert Decimal(ADMIN) == [51];
  }

  lemma OneRecordPrinted(name: Text, users: Table)
    requires name in users
    ensures PrintTable([name], users) == PrintRecord(name, users[name])
  {
    assert [name][1..] == [];
    assert PrintTable([], users) == [];
  }

  lemma DefaultsAreStorable()
    ensures StorableTable(DEFAULT_TABLE) && CleanTable(DEFAULT_TABLE)
    ensures IsOrder([DEFAULT_USER], DEFAULT_TABLE)
  {
  }

  lemma NothingInsideAbsent(tree: Tree, home: Path)
    requires WellFormed(tree) && DirPath(home) !in tree
    ensures DbPath(home) !in WithDbDir(home, tree) && HashPath(home) !in WithDbDir(home, tree)
  {
    assert Parent(DbPath(home)) == DirPath(home) && Parent(HashPath(home)) == DirPath(home);
    assert |DirPath(home)| != |DbPath(home)| && |DirPath(home)| != |HashPath(home)|;
  }

  /** Neither database file is there. */
  predicate NothingStored(home: Path, tree: Tree) {
    DirPath(home) in tree ==> tree[DirPath(home)].Dir? && DbPath(home) !in tree && HashPath(home) !in tree
  }

  /** Starting where neither file is there, for the first time or because both were removed, leaves a well-formed
      tree that holds the default admin. */
  lemma InitFresh(sha: Hasher, home: Path, tree: Tree)
    requires WellFormed(tree) && IsDir(tree, home) && NothingStored(home, tree)
    ensures var r := Init(sha, home, tree);
            && r.loaded == Loaded(DEFAULT_TABLE)
            && WellFormed(r.tree)
            && Holds(sha, home, r.tree, DEFAULT_TABLE)
  {
    hide PrintTable, Load, DbBytes, ValidName, WellFormed, Holds, DirPath, DbPath, HashPath, IsOrder;
    hide ReadBoth;
    var t := WithDbDir(home, tree);
    WithDbDirKeeps(home, tree);
    if DirPath(home) !in tree {
      NothingInsideAbsent(tree, home);
    }
    DefaultsAreStorable();
    PrintableIsBounded(DEFAULT_TABLE);
    var order := [DEFAULT_USER];
    StoreKeepsWellFormed(sha, home, t, DbBytes(order, DEFAULT_TABLE));
    var saved := SaveWith(sha, home, t, DEFAULT_TABLE, order);
    assert SavedInOrder(sha, home, t, DEFAULT_TABLE, saved, order);
    SavedHoldsIff(sha, home, t, DEFAULT_TABLE, saved);
    HeldFilesLoad(sha, home, saved, DEFAULT_TABLE);
  }

  lemma WithDbDirKeeps(home: Path, tree: Tree)
    requires WellFormed(tree) && IsDir(tree, home)
    ensures WellFormed(WithDbDir(home, tree))
    ensures DirPath(home) !in tree ==> IsDir(WithDbDir(home, tree), DirPath(home))
  {
    hide ValidName, WellFormed;
    DbDirIsName();
    if DirPath(home) !in tree {
      AddKeepsWellFormed(tree, home, DB_DIR, Dir);
    }
  }
}
