/** server_db.c: the user and session tables in memory and their file on disk. */
module Database {
  import opened Bytes
  import opened Codes
  import opened Paths
  import opened FileTree
  import opened Accounts
  import opened Crypto
  import opened FileApi
  import opened Store
  import Hex

  // ----- formatted output into a byte buffer -----

  /** sprintf at an offset: the text and its NUL must lie inside the buffer. */
  method Sprintf(buffer: array<Byte>, offset: nat, text: Text) returns (writes: nat)
    requires offset + |text| + 1 <= buffer.Length
    modifies buffer
    ensures writes == |text|
    ensures buffer[..] == old(buffer[..offset]) + text + [NUL] + old(buffer[offset + |text| + 1..])
  {
    Memcpy(buffer, offset, text + [NUL]);
    return |text|;
  }

  /** The "%02x" loop into pw_hash, whose size leaves room for 32 bytes and a NUL. */
  method PrintHash(hash: Text) returns (text: Text)
    requires 2 * |hash| <= DIGEST_TEXT_LEN
    ensures text == Hex.Print(hash)
  {
    var pwHash := new Byte[DIGEST_TEXT_LEN + 1](_ => NUL);
    var hashOffset := 0;
    for i := 0 to |hash|
      invariant hashOffset == 2 * i
      invariant pwHash[..hashOffset] == Hex.Print(hash[..i])
    {
      var digits := [Hex.HexDigit(hash[i] / 16), Hex.HexDigit(hash[i] % 16)];
      ghost var before := pwHash[..hashOffset];
      var writes := Sprintf(pwHash, hashOffset, digits);
      Hex.PrintSnoc(hash[..i], hash[i]);
      assert hash[..i + 1] == hash[..i] + [hash[i]];
      assert pwHash[..hashOffset + writes] == before + digits;
      hashOffset := hashOffset + writes;
    }
    assert hash[..|hash|] == hash;
    text := pwHash[..hashOffset];
  }

  /** One run of the hash-table iterator: every key once, in an order the caller cannot know. */
  method IterateUsers(users: Table) returns (order: seq<Text>)
    ensures IsOrder(order, users)
  {
    var left := users.Keys;
    order := [];
    while left != {}
      invariant forall i, j | 0 <= i < j < |order| :: order[i] != order[j]
      invariant forall n :: n in users <==> n in order || n in left
      invariant forall n | n in order :: n !in left
    {
      var n :| n in left;
      order := order + [n];
      left := left - {n};
    }
  }

  /** First pass of db_update_db: the size of the write buffer, whatever order the second pass takes. */
  method CountChars(users: Table) returns (charCount: nat)
    ensures forall order | IsOrder(order, users) :: charCount == 4 + TableBudget(order, users)
  {
    charCount := 4;
    var entries := IterateUsers(users);
    for i := 0 to |entries|
      invariant charCount == 4 + TableBudget(entries[..i], users)
    {
      var account := users[entries[i]];
      PrintTableSnoc(entries, i, users);
      charCount := charCount + |entries[i]|;
      charCount := charCount + |account.hash| * 2;
      charCount := charCount + 5;
    }
    assert entries[..|entries|] == entries;
    forall order | IsOrder(order, users) ensures charCount == 4 + TableBudget(order, users) {
      BudgetOrderIndependent(entries, order, users);
    }
  }

  lemma RecordInTable(order: seq<Text>, users: Table, i: nat)
    requires (forall n | n in order :: n in users) && i < |order|
    ensures |PrintTable(order[..i], users)| + |PrintRecord(order[i], users[order[i]])| <= |PrintTable(order, users)|
    ensures PrintTable(order[..i + 1], users)
         == PrintTable(order[..i], users) + PrintRecord(order[i], users[order[i]])
  {
    hide PrintRecord, PrintTable, TableBudget;
    PrintTableSnoc(order, i, users);
    assert order == order[..i + 1] + order[i + 1..];
    PrintTableConcat(order[..i + 1], order[i + 1..], users);
  }

  lemma RecordFits(order: seq<Text>, users: Table, i: nat)
    requires IsOrder(order, users) && FitsBuffer(order, users) && i < |order|
    ensures |PrintTable(order[..i], users)| + |PrintRecord(order[i], users[order[i]])| + 1 <= TableBudget(order, users)
    ensures PrintTable(order[..i + 1], users)
         == PrintTable(order[..i], users) + PrintRecord(order[i], users[order[i]])
  {
    hide PrintRecord, PrintTable, TableBudget;
    RecordInTable(order, users, i);
  }

  /** sprintf of one account into the write buffer. */
  method PrintAccount(buffer: array<Byte>, offset: nat, name: Text, account: Account) returns (writes: nat)
    requires 2 * |account.hash| <= DIGEST_TEXT_LEN
    requires offset + |PrintRecord(name, account)| + 1 <= buffer.Length
    modifies buffer
    ensures writes == |PrintRecord(name, account)|
    ensures buffer[..offset + writes] == old(buffer[..offset]) + PrintRecord(name, account)
  {
    hide Hex.Print, Decimal;
    ghost var before := buffer[..offset];
    var pwHash := PrintHash(account.hash);
    var text := name + [COLON] + Decimal(account.permission) + [COLON] + pwHash + [NEWLINE];
    writes := Sprintf(buffer, offset, text);
    assert buffer[..offset + writes] == before + text;
  }

  /** Second pass: the records are printed one after the other. Every sprintf, its NUL included, stays in
      the buffer, and the part handed to the file is the magic and the records up to the size counted. */
  method PrintUsers(users: Table, charCount: nat) returns (content: Text)
    requires HashesFit(users) && Bounded(users)
    requires forall order | IsOrder(order, users) :: charCount == 4 + TableBudget(order, users)
    ensures exists order :: IsOrder(order, users) && content == DbBytes(order, users)
  {
    hide PrintRecord, TableBudget, PrintTable;
    var entries := IterateUsers(users);
    var buffer := new Byte[charCount](_ => NUL);
    content := PrintAll(buffer, entries, users);
  }

  method PrintAll(buffer: array<Byte>, entries: seq<Text>, users: Table) returns (content: Text)
    requires HashesFit(users) && IsOrder(entries, users) && FitsBuffer(entries, users)
    requires buffer.Length == 4 + TableBudget(entries, users)
    modifies buffer
    ensures content == DbBytes(entries, users)
  {
    hide PrintRecord, TableBudget, PrintTable, IsOrder, FitsBuffer;
    NothingPrinted(entries, users);
    BudgetAgainstPrinted(entries, users);
    buffer[0], buffer[1], buffer[2], buffer[3] := MAGIC[0], MAGIC[1], MAGIC[2], MAGIC[3];
    var offset, accounts := 4, 0;
    ghost var printed: Text := [];
    while accounts < |entries|
      invariant accounts <= |entries|
      invariant offset == 4 + |printed| <= buffer.Length
      invariant forall n | n in entries :: n in users
      invariant printed == PrintTable(entries[..accounts], users)
      invariant buffer[..offset] == MAGIC + printed
    {
      var name := entries[accounts];
      RecordFits(entries, users, accounts);
      EntryHashFits(entries, users, accounts);
      var writes := PrintAccount(buffer, offset, name, users[name]);
      printed := printed + PrintRecord(name, users[name]);
      offset := offset + writes;
      accounts := accounts + 1;
    }
    assert entries[..|entries|] == entries;
    content := buffer[..buffer.Length - accounts];
    assert content == buffer[..offset][..WrittenSize(entries, users)];
  }

  lemma EntryHashFits(entries: seq<Text>, users: Table, i: nat)
    requires HashesFit(users) && IsOrder(entries, users) && i < |entries|
    ensures 2 * |users[entries[i]].hash| <= DIGEST_TEXT_LEN
  {
  }

  lemma NothingPrinted(order: seq<Text>, users: Table)
    requires IsOrder(order, users)
    ensures forall n | n in order :: n in users
    ensures PrintTable(order[..0], users) == []
  {
  }

  // ----- parsing -----

  /** The scan of one segment and the conversion of its hash. */
  method ReadSegment(s: Text) returns (turn: Turn)
    requires !OneTurn(s).Hangs?
    ensures turn == OneTurn(s)
  {
    hide ScanRecord, Hex.Decode, Find;
    match ScanRecord(s) {
      case Eof => return EndOfText;
      case Short => return BadRecord;
      case Record(name, permission, pwHash) =>
        var hash := Hex.HexCharToByteArray(pwHash);
        if hash.None? {
          return BadRecord;
        }
        var newline := Find(s, NEWLINE);
        return Took(name, Account(permission, hash.value), 4 + |name| + |pwHash|,
                    if newline < |s| then Some(s[newline + 1..]) else None);
    }
  }

  /** populate_htable, where it neither hangs nor leaves the buffer. */
  method PopulateHtable(stream: Text) returns (users: Option<Table>)
    requires !Load(stream).Undefined?
    ensures users == match Load(stream) case Loaded(table) => Some(table) case _ => None
  {
    hide OneTurn;
    var table: Table := map[];
    var totalRead: nat := 0;
    var segment := Some(stream);
    while segment.Some? && totalRead < |stream|
      invariant segment.Some? ==> LoadFrom(segment.value, totalRead, |stream|, table) == Load(stream)
      invariant segment.None? ==> totalRead >= |stream| && Load(stream) == Loaded(table)
      decreases segment.Some?, if segment.Some? then |segment.value| else 0
    {
      var turn := ReadSegment(segment.value);
      match turn {
        case EndOfText => return Some(table);
        case BadRecord => return None;
        case Hangs => assert false;
        case Took(name, account, counted, next) =>
          totalRead := totalRead + counted;
          table := table[name := account];
          segment := next;
      }
    }
    return Some(table);
  }

  // ----- accounts -----

  /** The result of db_create_user. */
  function CreateCode(users: Table, name: Text, passwd: Option<Text>): Byte {
    if passwd.None? then OP_FAILURE
    else if |passwd.value| > MAX_PASSWD_LEN || |passwd.value| < MIN_PASSWD_LEN
         || |name| > MAX_USERNAME_LEN || |name| < MIN_USERNAME_LEN then OP_CRED_RULE_ERROR
    else if name in users then OP_USER_EXISTS
    else OP_SUCCESS
  }

  function WithUser(sha: Hasher, users: Table, name: Text, passwd: Option<Text>, permission: Byte): Table {
    if CreateCode(users, name, passwd) != OP_SUCCESS then users
    else users[name := Account(permission, sha(passwd.value))]
  }

  /** The code a creation answers and the table it leaves are these. */
  lemma CreationIs(
      sha: Hasher, users: Table, name: Text, passwd: Option<Text>, permission: Byte, code: Byte, after: Table)
    requires code == OP_FAILURE <==> passwd.None?
    requires code == OP_CRED_RULE_ERROR <==> passwd.Some? && !(6 <= |passwd.value| <= 32 && 3 <= |name| <= 20)
    requires code == OP_USER_EXISTS
        <==> passwd.Some? && 6 <= |passwd.value| <= 32 && 3 <= |name| <= 20 && name in users
    requires code == OP_SUCCESS
        <==> passwd.Some? && 6 <= |passwd.value| <= 32 && 3 <= |name| <= 20 && name !in users
    requires after == if code == OP_SUCCESS then users[name := Account(permission, sha(passwd.value))] else users
    ensures code == CreateCode(users, name, passwd) && after == WithUser(sha, users, name, passwd, permission)
  {
  }

  /** db_authenticate_user: the account, when the user exists and the password's hash is the stored one. */
  function Authenticate(sha: Hasher, users: Table, name: Text, passwd: Text): Option<Account> {
    if name in users && users[name].hash == sha(passwd) then Some(users[name]) else None
  }

  method ToArray(s: Text) returns (a: array<Byte>)
    ensures fresh(a) && a[..] == s
  {
    a := new Byte[|s|](i requires 0 <= i < |s| => s[i]);
  }

  /** The tree is well formed and no stored hash is longer than a SHA-256 digest, whatever the disk holds. */
  ghost predicate Usable(tree: Tree, users: Table) {
    WellFormed(tree) && HashesFit(users)
  }

  class Db {
    var users: Table
    var sessions: map<nat, int>
    const sha: Hasher
    const home: Home
    const fs: FileSystem

    /** What every operation relies on and keeps. */
    ghost predicate Valid()
      reads this, fs
    {
      Usable(fs.tree, users)
    }

    constructor (sha: Hasher, home: Home, fs: FileSystem, users: Table)
      ensures this.sha == sha && this.home == home && this.fs == fs
      ensures this.users == users && sessions == map[]
    {
      this.sha := sha;
      this.home := home;
      this.fs := fs;
      this.users := users;
      this.sessions := map[];
    }

    /** db_update_db, where the table fits its buffer. */
    method UpdateDb()
      requires Valid() && Bounded(users)
      modifies fs
      ensures Valid()
      ensures Saved(sha, home, old(fs.tree), users, fs.tree)
    {
      hide PrintTable, WellFormed, StoreFiles, DbBytes, Bounded;
      ghost var tree := fs.tree;
      var charCount := CountChars(users);
      var content := PrintUsers(users, charCount);
      ghost var order :| IsOrder(order, users) && content == DbBytes(order, users);
      var ok := SaveFiles(sha, home, fs, content);
      assert SavedInOrder(sha, home, tree, users, fs.tree, order);
    }

    /** db_create_user. */
    method CreateUser(name: Text, passwd: Option<Text>, permission: Byte) returns (code: Byte)
      requires Valid()
      requires CreateCode(users, name, passwd) == OP_SUCCESS ==> Bounded(WithUser(sha, users, name, passwd, permission))
      modifies this`users, fs
      ensures Valid()
      ensures code == OP_FAILURE <==> passwd.None?
      ensures code == OP_CRED_RULE_ERROR
         <==> passwd.Some? && !(6 <= |passwd.value| <= 32 && 3 <= |name| <= 20)
      ensures code == OP_USER_EXISTS
         <==> passwd.Some? && 6 <= |passwd.value| <= 32 && 3 <= |name| <= 20 && name in old(users)
      ensures code == OP_SUCCESS
         <==> passwd.Some? && 6 <= |passwd.value| <= 32 && 3 <= |name| <= 20 && name !in old(users)
      ensures users == if code == OP_SUCCESS then old(users)[name := Account(permission, sha(passwd.value))]
                       else old(users)
      ensures code != OP_SUCCESS ==> fs.tree == old(fs.tree)
      ensures code == OP_SUCCESS ==> Saved(sha, home, old(fs.tree), users, fs.tree)
    {
      hide WellFormed, Saved, Bounded;
      if passwd.None? {
        return OP_FAILURE;
      }
      if |passwd.value| > MAX_PASSWD_LEN || |passwd.value| < MIN_PASSWD_LEN
         || |name| > MAX_USERNAME_LEN || |name| < MIN_USERNAME_LEN {
        return OP_CRED_RULE_ERROR;
      }
      if name in users {
        return OP_USER_EXISTS;
      }
      var hash := sha(passwd.value);
      users := users[name := Account(permission, hash)];
      UpdateDb();
      return OP_SUCCESS;
    }

    /** db_remove_user. */
    method RemoveUser(name: Text) returns (code: Byte)
      requires Valid() && (name in users ==> Bounded(users - {name}))
      modifies this`users, fs
      ensures Valid()
      ensures code == if name in old(users) then OP_SUCCESS else OP_USER_NO_EXIST
      ensures users == old(users) - {name}
      ensures code != OP_SUCCESS ==> fs.tree == old(fs.tree)
      ensures code == OP_SUCCESS ==> Saved(sha, home, old(fs.tree), users, fs.tree)
    {
      hide WellFormed, Saved, Bounded;
      if name !in users {
        assert users - {name} == users;
        return OP_USER_NO_EXIST;
      }
      users := users - {name};
      UpdateDb();
      return OP_SUCCESS;
    }

    /** db_authenticate_user. */
    method AuthenticateUser(name: Text, passwd: Text) returns (code: Byte, account: Option<Account>)
      ensures code == OP_SUCCESS <==> name in users && users[name].hash == sha(passwd)
      ensures code == OP_USER_AUTH <==> name !in users || users[name].hash != sha(passwd)
      ensures account == if code == OP_SUCCESS then Some(users[name]) else None
    {
      if name !in users {
        return OP_USER_AUTH, None;
      }
      var stored := ToArray(users[name].hash);
      var given := ToArray(sha(passwd));
      var auth := HashMatch(stored, given);
      if auth {
        return OP_SUCCESS, Some(users[name]);
      }
      return OP_USER_AUTH, None;
    }
  }

  // ----- writing the two files -----

  lemma DbTexts(home: Home)
    ensures PlaceText(Place(DirPath(home), DB_FILE)) == PathText(DbPath(home))
    ensures Canonical(DbPath(home)) && Canonical(DirPath(home))
    ensures DirPath(home) + [DB_FILE] == DbPath(home) && DirPath(home) + [HASH_FILE] == HashPath(home)
  {
    hide PathText;
    DbDirIsName();
    TextOfChild(DirPath(home), DB_FILE);
    assert DirPath(home) + [DB_FILE] == DbPath(home);
    assert DirPath(home) + [HASH_FILE] == HashPath(home);
  }

  /** The names under ".cape" never overrun the buffer of join_paths. */
  lemma DbNamesInBuffer(home: Home, tree: Tree)
    requires WellFormed(tree)
    ensures JoinsInBuffer(tree, home, DB_HASH) && JoinsInBuffer(tree, home, DB_NAME)
    ensures JoinsInBuffer(tree, home, DB_DIR)
    ensures Fits(home, DB_NAME) && Fits(home, DB_DIR)
  {
    hide JoinsInBuffer, PathText;
    HomeFits(home);
    GuardCoversJoins(tree, home, DB_HASH);
    GuardCoversJoins(tree, home, DB_NAME);
    GuardCoversJoins(tree, home, DB_DIR);
  }

  lemma NoEntryWithoutDir(tree: Tree, home: Path)
    requires WellFormed(tree) && !IsDir(tree, DirPath(home))
    ensures DbPath(home) !in tree && HashPath(home) !in tree
  {
    assert Parent(DbPath(home)) == DirPath(home) && Parent(HashPath(home)) == DirPath(home);
  }

  /** update_db_hash: read the database file back and store its digest beside it. */
  method UpdateDbHash(sha: Hasher, home: Home, fs: FileSystem, dbFile: Text) returns (ok: bool)
    requires WellFormed(fs.tree) && dbFile == PathText(DbPath(home))
    modifies fs
    ensures ok <==> IsFile(old(fs.tree), DbPath(home)) && FileOrAbsent(old(fs.tree), HashPath(home))
    ensures fs.tree == if ok then old(fs.tree)[HashPath(home) := File(MAGIC + sha(old(fs.tree)[DbPath(home)].data))]
                       else old(fs.tree)
  {
    hide NewPlace, Walk, PathText, ValidName, WellFormed, JoinsInBuffer, Canonical, RealPath, DbPath, HashPath;
    DbDirIsName();
    DbTexts(home);
    RealPathOfText(fs.tree, DbPath(home));
    var found := RealPath(fs.tree, dbFile);
    if found.None? || !fs.tree[found.value].File? {
      return false;
    }
    var hash := sha(fs.tree[found.value].data);
    PlaceOfDbFile(fs.tree, home, HASH_FILE);
    DbNamesInBuffer(home, fs.tree);
    if !IsDir(fs.tree, DirPath(home)) {
      NoEntryWithoutDir(fs.tree, home);
    }
    var hashFile := fs.ResolveValid(home, DB_HASH);
    if hashFile.None? {
      return false;
    }
    var code := fs.WriteFile(hashFile.value, Place(DirPath(home), HASH_FILE), Some(MAGIC + hash));
    HashFileIsName();
    return code == OP_SUCCESS;
  }

  lemma HashFileIsName()
    ensures ValidName(DB_FILE) && ValidName(HASH_FILE)
  {
  }

  /** The end of db_update_db, and init_db_file before it: resolve, write, then update the hash file. */
  method SaveFiles(sha: Hasher, home: Home, fs: FileSystem, content: Text) returns (ok: bool)
    requires WellFormed(fs.tree)
    modifies fs
    ensures (fs.tree, ok) == StoreFiles(sha, home, old(fs.tree), content)
    ensures WellFormed(fs.tree)
  {
    hide NewPlace, Walk, PathText, ValidName, WellFormed, JoinsInBuffer, DbPath, HashPath;
    StoreKeepsWellFormed(sha, home, fs.tree, content);
    DbTexts(home);
    DbPathsDiffer(home);
    HashFileIsName();
    PlaceOfDbFile(fs.tree, home, DB_FILE);
    DbNamesInBuffer(home, fs.tree);
    if !IsDir(fs.tree, DirPath(home)) {
      NoEntryWithoutDir(fs.tree, home);
    }
    var path := fs.ResolveValid(home, DB_NAME);
    if path.None? {
      return false;
    }
    DbFileKeepsWellFormed(home, fs.tree, content);
    var code := fs.WriteFile(path.value, Place(DirPath(home), DB_FILE), Some(content));
    if code == OP_FAILURE {
      return false;
    }
    ok := UpdateDbHash(sha, home, fs, path.value);
  }

  lemma DbFileKeepsWellFormed(home: Home, tree: Tree, content: Text)
    requires WellFormed(tree)
    ensures IsDir(tree, DirPath(home)) && FileOrAbsent(tree, DbPath(home)) ==>
      WellFormed(tree[DbPath(home) := File(content)])
  {
    hide ValidName, WellFormed;
    HashFileIsName();
    if IsDir(tree, DirPath(home)) && FileOrAbsent(tree, DbPath(home)) {
      assert DirPath(home) + [DB_FILE] == DbPath(home);
      AddKeepsWellFormed(tree, DirPath(home), DB_FILE, File(content));
    }
  }

  // ----- starting up -----

  /** The buffer of init_db_file; its size check always passes. */
  method DefaultContent() returns (content: Option<Text>)
    ensures content == Some(DbBytes([DEFAULT_USER], DEFAULT_TABLE))
  {
    hide Hex.Print;
    var hash := PrintHash(DEFAULT_DIGEST);
    var arraySize := |MAGIC| + |DEFAULT_USER| + 1 + |hash| + 4;
    var buffer := new Byte[arraySize](_ => NUL);
    buffer[0], buffer[1], buffer[2], buffer[3] := MAGIC[0], MAGIC[1], MAGIC[2], MAGIC[3];
    assert buffer[..4] == MAGIC;
    var text := DEFAULT_USER + [COLON] + Decimal(ADMIN) + [COLON] + hash + [NEWLINE];
    var writeBytes := Sprintf(buffer, 4, text);
    if arraySize - 4 != writeBytes + 1 {
      return None;
    }
    assert buffer[..arraySize - 1] == MAGIC + text;
    var order := [DEFAULT_USER];
    assert order[1..] == [];
    assert PrintTable(order, DEFAULT_TABLE) == text + [];
    content := Some(buffer[..arraySize - 1]);
    DefaultsAreStorable();
    DbBytesPrinted(order, DEFAULT_TABLE);
    assert content.value == DbBytes(order, DEFAULT_TABLE);
  }

  /** get_stored_hash, hash_bytes_match, get_stored_data and populate_htable. */
  method LoadContents(sha: Hasher, db: Text, hash: Text) returns (users: Option<Table>)
    requires MAGIC <= db && hash == MAGIC + sha(db) ==> !Load(db[4..]).Undefined?
    ensures users.Some? <==> MAGIC <= db && hash == MAGIC + sha(db) && Load(db[4..]).Loaded?
    ensures users.Some? ==> Load(db[4..]) == Loaded(users.value)
  {
    HashFileText(hash, sha(db));
    if !HasMagic(hash) || |hash| != SHA256_DIGEST_LENGTH + |MAGIC| {
      return None;
    }
    var computed := ToArray(sha(db));
    var stored := ToArray(hash[|MAGIC|..]);
    var same := HashMatch(computed, stored);
    if !same || !HasMagic(db) {
      return None;
    }
    users := PopulateHtable(db[|MAGIC|..]);
  }

  /** init_db_dir when ".cape" does not resolve. */
  method EnsureDbDir(home: Home, fs: FileSystem)
    requires WellFormed(fs.tree) && IsDir(fs.tree, home)
    modifies fs
    ensures fs.tree == WithDbDir(home, old(fs.tree))
    ensures WellFormed(fs.tree)
  {
    hide NewPlace, Target, Walk, PathText, ValidName, WellFormed, JoinsInBuffer, Fits;
    DbDirIsName();
    DbNamesInBuffer(home, fs.tree);
    ResolveDbDir(fs.tree, home);
    WithDbDirKeeps(home, fs.tree);
    var dir := fs.ResolvePath(home, DB_DIR);
    if dir.None? {
      var path := fs.ResolveValid(home, DB_DIR);
      var code := fs.CreateDir(path.value, Place(home, DB_DIR));
    }
  }

  /** db_init. */
  method DbInit(sha: Hasher, home: Home, fs: FileSystem) returns (db: Db?)
    requires WellFormed(fs.tree) && IsDir(fs.tree, home)
    requires !Init(sha, home, fs.tree).loaded.Undefined?
    modifies fs
    ensures fs.tree == Init(sha, home, old(fs.tree)).tree
    ensures db != null <==> Init(sha, home, old(fs.tree)).loaded.Loaded?
    ensures db != null ==>
      && fresh(db) && db.fs == fs && db.sha == sha && db.home == home && db.sessions == map[]
      && db.users == Init(sha, home, old(fs.tree)).loaded.users && db.Valid()
  {
    hide Target, ReadBoth, PrintTable, ValidName, WellFormed, DbBytes, DbPath, HashPath, DirPath, StoreFiles, PathText;
    hide WithDbDir, HashesFit;
    HashFileIsName();
    InitHashesFit(sha, home, fs.tree);
    EnsureDbDir(home, fs);
    DbNamesInBuffer(home, fs.tree);
    DbTexts(home);
    ResolveDbFiles(fs.tree, home);
    var hashFile := fs.ResolvePath(home, DB_HASH);
    var dbFile := fs.ResolvePath(home, DB_NAME);
    if hashFile.None? && dbFile.None? {
      var content := DefaultContent();
      if content.None? {
        return null;
      }
      var ok := SaveFiles(sha, home, fs, content.value);
      if !ok {
        return null;
      }
    } else if hashFile.None? || dbFile.None? {
      return null;
    }
    var users := LoadBoth(sha, home, fs);
    if users.None? {
      return null;
    }
    db := new Db(sha, home, fs, users.value);
  }

  /** The two f_read_file of db_init and what follows them. */
  method LoadBoth(sha: Hasher, home: Home, fs: FileSystem) returns (users: Option<Table>)
    requires !ReadBoth(sha, home, fs.tree).Undefined?
    ensures users == match ReadBoth(sha, home, fs.tree) case Loaded(table) => Some(table) case _ => None
  {
    hide LoadFiles, Load, DbPath, HashPath;
    if !IsFile(fs.tree, DbPath(home)) || !IsFile(fs.tree, HashPath(home)) {
      return None;
    }
    SignedIsLoaded(sha, fs.tree[DbPath(home)].data, fs.tree[HashPath(home)].data);
    users := LoadContents(sha, fs.tree[DbPath(home)].data, fs.tree[HashPath(home)].data);
  }

  lemma ResolveDbFiles(tree: Tree, home: Home)
    requires WellFormed(tree)
    ensures Target(tree, home, DB_NAME) == if DbPath(home) in tree then Some(DbPath(home)) else None
    ensures Target(tree, home, DB_HASH) == if HashPath(home) in tree then Some(HashPath(home)) else None
  {
    hide Target, ValidName, WellFormed, PathText;
    HashFileIsName();
    ResolveDbFile(tree, home, DB_FILE);
    ResolveDbFile(tree, home, HASH_FILE);
  }

  lemma InitHashesFit(sha: Hasher, home: Path, tree: Tree)
    ensures Init(sha, home, tree).loaded.Loaded? ==> HashesFit(Init(sha, home, tree).loaded.users)
  {
    hide StoreFiles, WithDbDir, DbBytes;
    var t := Init(sha, home, tree).tree;
    ReadHashesFit(sha, home, t);
  }

  lemma ReadHashesFit(sha: Hasher, home: Path, tree: Tree)
    ensures ReadBoth(sha, home, tree).Loaded? ==> HashesFit(ReadBoth(sha, home, tree).users)
  {
    hide LoadFrom;
    if ReadBoth(sha, home, tree).Loaded? {
      var stream := tree[DbPath(home)].data[4..];
      LoadedHashesFit(stream, 0, |stream|, map[]);
    }
  }
}
