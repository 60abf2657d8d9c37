/** server_file_api.c over a file system whose tree the system calls change in place. */
module FileApi {
  import opened Bytes
  import opened Codes
  import opened Paths
  import opened FileTree
  import opened Listing

  // ----- system calls -----

  datatype Errno = NoError | EEXIST | ENOTDIR | OtherError

  /** How the system reads a path whose last component need not exist. */
  function OsPlace(tree: Tree, path: Text): Option<Place> {
    var cs := Split(path);
    match Walk(tree, [], cs[..|cs| - 1])
    case None => None
    case Some(d) => Some(Place(d, cs[|cs| - 1]))
  }

  /** fopen(path, "w") and fwrite. */
  function OpenAndWrite(tree: Tree, path: Text, data: Text): (Tree, Errno) {
    match OsPlace(tree, path)
    case None => (tree, OtherError)
    case Some(place) =>
      if !IsDir(tree, place.dir) then (tree, ENOTDIR)
      else if !ValidName(place.base) then (tree, OtherError)
      else
        var p := place.dir + [place.base];
        if p in tree && !tree[p].File? then (tree, OtherError) else (tree[p := File(data)], NoError)
  }

  function Mkdir(tree: Tree, path: Text): (Tree, Errno) {
    match OsPlace(tree, path)
    case None => (tree, OtherError)
    case Some(place) =>
      if !IsDir(tree, place.dir) then (tree, ENOTDIR)
      else if !ValidName(place.base) || place.dir + [place.base] in tree then (tree, EEXIST)
      else (tree[place.dir + [place.base] := Dir], NoError)
  }

  /** What one pass of readdir can return: every entry once, "." and ".." among them. */
  ghost predicate IsReadDir(names: seq<Name>, tree: Tree, d: Path) {
    && (forall i, j | 0 <= i < j < |names| :: names[i] != names[j])
    && (forall n :: n in names <==> n in Children(tree, d) || n == [DOT] || n == [DOT, DOT])
  }

  lemma OsPlaceOfVerified(tree: Tree, place: Place)
    requires WellFormed(tree) && place.dir in tree
    requires place.base != [] && (place.base == [SLASH] || SLASH !in place.base)
    ensures OsPlace(tree, PlaceText(place))
         == Some(Place(place.dir, if place.base == [SLASH] then [] else place.base))
  {
    hide SplitOn, PathText, Walk;
    var root := PathText(place.dir);
    RealPathOfPresent(tree, place.dir);
    if place.base == [SLASH] {
      assert PlaceText(place) == root + [SLASH] + [];
      SplitAtSlash(root, []);
      SplitPlain([]);
    } else {
      assert PlaceText(place) == root + [SLASH] + place.base;
      SplitAtSlash(root, place.base);
      SplitPlain(place.base);
    }
    var cs := Split(PlaceText(place));
    assert cs[..|cs| - 1] == Split(root);
  }

  // ----- the directory listing -----

  const DB_DIR: Text := [DOT, 99, 97, 112, 101] // ".cape"

  predicate Shown(tree: Tree, d: Path, name: Name) {
    && name != [DOT] && name != [DOT, DOT] && name != DB_DIR
    && d + [name] in tree && !tree[d + [name]].Special?
  }

  /** A file's size is its length; a directory's is whatever the host reports. */
  function EntryOf(tree: Tree, d: Path, name: Name, dirSize: Path -> nat): Entry
    requires Shown(tree, d, name)
  {
    match tree[d + [name]]
    case File(data) => Entry(Regular, |data|, name)
    case Dir => Entry(Directory, dirSize(d + [name]), name)
  }

  function Entries(tree: Tree, d: Path, names: seq<Name>, dirSize: Path -> nat): seq<Entry> {
    if names == [] then [] else
      var n := names[|names| - 1];
      Entries(tree, d, names[..|names| - 1], dirSize)
      + (if Shown(tree, d, n) then [EntryOf(tree, d, n, dirSize)] else [])
  }

  /** get_file_size joins directory and name in a buffer of its own. */
  predicate EntryPathFits(d: Path, name: Name) {
    |PathText(d)| + 1 + |name| < PATH_MAX
  }

  /** Reading the directory in this order writes past neither buffer of f_list_dir. */
  ghost predicate ListingFits(tree: Tree, d: Path, names: seq<Name>, dirSize: Path -> nat) {
    && (forall n | n in names && Shown(tree, d, n) :: EntryPathFits(d, n))
    && RawBuffer(Entries(tree, d, names, dirSize)).Some?
  }

  /** No order of reading it does. */
  ghost predicate ListInBuffers(tree: Tree, d: Path, dirSize: Path -> nat) {
    forall names | IsReadDir(names, tree, d) :: ListingFits(tree, d, names, dirSize)
  }

  /** The streams f_list_dir may produce for a directory, in the orders that stay in its buffers. */
  ghost predicate IsListing(stream: Text, tree: Tree, d: Path, dirSize: Path -> nat) {
    exists names ::
      && IsReadDir(names, tree, d) && ListingFits(tree, d, names, dirSize)
      && stream == PrintListing(Entries(tree, d, names, dirSize))
  }

  lemma {:induction false} FirstEntriesFit(tree: Tree, d: Path, names: seq<Name>, dirSize: Path -> nat, i: nat)
    requires i <= |names| && RawBuffer(Entries(tree, d, names, dirSize)).Some?
    ensures RawBuffer(Entries(tree, d, names[..i], dirSize)).Some?
    decreases |names|
  {
    hide PrintLine, Shown, EntryOf, Grown;
    if i == |names| {
      assert names[..i] == names;
    } else {
      var front, n := names[..|names| - 1], names[|names| - 1];
      if Shown(tree, d, n) {
        RawBufferSnoc(Entries(tree, d, front, dirSize), EntryOf(tree, d, n, dirSize));
      } else {
        assert Entries(tree, d, front, dirSize) + [] == Entries(tree, d, front, dirSize);
      }
      FirstEntriesFit(tree, d, front, dirSize, i);
      assert front[..i] == names[..i];
    }
  }

  /** The entry is a regular file with the length of its contents, or a directory with the size the host reports,
      and is not ".cape". */
  predicate Describes(tree: Tree, d: Path, dirSize: Path -> nat, e: Entry) {
    && e.name != [DOT, 99, 97, 112, 101] && d + [e.name] in tree
    && match tree[d + [e.name]]
       case File(data) => e.kind == Regular && e.size == |data|
       case Dir => e.kind == Directory && e.size == dirSize(d + [e.name])
       case Special => false
  }

  /** A name the listing has to have. */
  predicate IsListed(tree: Tree, d: Path, n: Name) {
    n != [DOT, 99, 97, 112, 101] && d + [n] in tree && (tree[d + [n]].File? || tree[d + [n]].Dir?)
  }

  /** Every entry of a listing describes its node, and every regular file and every directory that was read, but
      ".cape", ".", and "..", has an entry. */
  lemma {:induction false} EntriesAreShown(tree: Tree, d: Path, names: seq<Name>, dirSize: Path -> nat)
    ensures forall e | e in Entries(tree, d, names, dirSize) ::
      Describes(tree, d, dirSize, e) && e.name in names && e.name != [DOT] && e.name != [DOT, DOT]
    ensures forall n | n in names && n != [DOT] && n != [DOT, DOT] && IsListed(tree, d, n) ::
      exists e :: e in Entries(tree, d, names, dirSize) && e.name == n
  {
    if names != [] {
      var front, n := names[..|names| - 1], names[|names| - 1];
      EntriesAreShown(tree, d, front, dirSize);
      assert names == front + [n];
      var entries := Entries(tree, d, names, dirSize);
      assert forall e | e in Entries(tree, d, front, dirSize) :: e in entries;
      if Shown(tree, d, n) {
        assert EntryOf(tree, d, n, dirSize) in entries && EntryOf(tree, d, n, dirSize).name == n;
      }
    }
  }

  ghost predicate DistinctNames(es: seq<Entry>) {
    forall i, j | 0 <= i < j < |es| :: es[i].name != es[j].name
  }

  lemma DistinctSnoc(es: seq<Entry>, e: Entry)
    requires DistinctNames(es) && forall f | f in es :: f.name != e.name
    ensures DistinctNames(es + [e])
  {
    assert forall i | 0 <= i < |es| :: es[i] in es;
  }

  /** No name occurs twice, as readdir gives none twice. */
  lemma {:induction false} EntriesAreDistinct(tree: Tree, d: Path, names: seq<Name>, dirSize: Path -> nat)
    requires forall i, j | 0 <= i < j < |names| :: names[i] != names[j]
    ensures DistinctNames(Entries(tree, d, names, dirSize))
  {
    hide Describes, IsListed, Shown, EntryOf, DistinctNames;
    if names != [] {
      var front, n := names[..|names| - 1], names[|names| - 1];
      EntriesAreDistinct(tree, d, front, dirSize);
      EntriesAreShown(tree, d, front, dirSize);
      assert n !in front;
      var es := Entries(tree, d, front, dirSize);
      if Shown(tree, d, n) {
        NameOfEntry(tree, d, n, dirSize);
        DistinctSnoc(es, EntryOf(tree, d, n, dirSize));
      } else {
        assert es + [] == es;
      }
    } else {
      NothingTwice();
    }
  }

  lemma NothingTwice()
    ensures DistinctNames([])
  {
  }

  lemma NameOfEntry(tree: Tree, d: Path, name: Name, dirSize: Path -> nat)
    requires Shown(tree, d, name)
    ensures EntryOf(tree, d, name, dirSize).name == name
  {
  }

  lemma EntryCountDecidesEmptiness(tree: Tree, d: Path, names: seq<Name>)
    requires IsReadDir(names, tree, d)
    ensures |names| > 2 ==> Children(tree, d) != {}
    ensures Children(tree, d) != {} && (forall n | n in Children(tree, d) :: ValidName(n)) ==> |names| > 2
  {
    if |names| > 2 {
      assert names[0] != names[1] && names[0] != names[2] && names[1] != names[2];
      assert names[0] in names && names[1] in names && names[2] in names;
    }
    if Children(tree, d) != {} && forall n | n in Children(tree, d) :: ValidName(n) {
      var c :| c in Children(tree, d);
      assert c in names && [DOT] in names && [DOT, DOT] in names;
    }
  }

  class FileSystem {
    var tree: Tree

    constructor (tree: Tree)
      ensures this.tree == tree
    {
      this.tree := tree;
    }

    method ReadDir(d: Path) returns (names: seq<Name>)
      ensures IsReadDir(names, tree, d)
    {
      var left := Children(tree, d) + {[DOT], [DOT, DOT]};
      ghost var all := left;
      names := [];
      while left != {}
        invariant forall i, j | 0 <= i < j < |names| :: names[i] != names[j]
        invariant forall n :: n in all <==> n in names || n in left
        invariant forall n | n in names :: n !in left
      {
        var n :| n in left;
        names := names + [n];
        left := left - {n};
      }
    }

    /** join_paths: three strncat into a zeroed buffer of PATH_MAX bytes, then strdup. It asks of its callers
        what it does not check; every write then stays in the buffer. */
    method JoinPaths(root: Text, child: Text) returns (newPath: Text)
      requires |root| + |child| + (if child != [] && child[0] == SLASH then 0 else 1) < PATH_MAX
      ensures Some(newPath) == JoinBuffer(root, child)
    {
      hide JoinBuffer;
      JoinStaysInBuffer(root, child);
      var buffer := new Byte[PATH_MAX](_ => NUL);
      var omitChild := child != [] && child[0] == SLASH;
      assert buffer[..0] == [];
      var end := Strncat(buffer, 0, root);
      assert buffer[..end] == root;
      if !omitChild {
        end := Strncat(buffer, end, [SLASH]);
      }
      end := Strncat(buffer, end, child);
      newPath := buffer[..end];
      assert newPath == Join(root, child);
    }

    /** strncat at the end of the string in the buffer; text and NUL must lie inside it. */
    method Strncat(buffer: array<Byte>, end: nat, more: Text) returns (newEnd: nat)
      requires end + |more| < buffer.Length
      modifies buffer
      ensures newEnd == end + |more|
      ensures buffer[..newEnd] == old(buffer[..end]) + more && buffer[newEnd] == NUL
    {
      Memcpy(buffer, end, more + [NUL]);
      newEnd := end + |more|;
      assert buffer[newEnd] == buffer[..][newEnd];
    }

    /** f_path_resolve. */
    method ResolvePath(home: Path, child: Text) returns (path: Option<Text>)
      requires WellFormed(tree) && Canonical(home)
      ensures path == match Target(tree, home, child) case None => None case Some(p) => Some(PathText(p))
    {
      hide RealPath, JoinBuffer, Canonical, WellFormed;
      PathResolveIsTarget(tree, home, child);
      if |PathText(home)| + |child| + 2 > PATH_MAX {
        return None;
      }
      var joined := JoinPaths(PathText(home), child);
      var abs := RealPath(tree, joined);
      if abs.None? || !(PathText(home) <= PathText(abs.value)) {
        return None;
      }
      return Some(PathText(abs.value));
    }

    /** f_valid_resolve, where its joins stay in the buffer. */
    method ResolveValid(home: Path, child: Text) returns (path: Option<Text>)
      requires WellFormed(tree) && Canonical(home) && JoinsInBuffer(tree, home, child)
      ensures path == match NewPlace(tree, home, child) case None => None case Some(place) => Some(PlaceText(place))
    {
      hide RealPath, JoinBuffer, Canonical, WellFormed, Dirname, Basename;
      ValidResolveIsNewPlace(tree, home, child);
      RealPathOfJoin(tree, home, Dirname(child));
      JoinStaysInBuffer(PathText(home), Dirname(child));
      var joined := JoinPaths(PathText(home), Dirname(child));
      var dir := RealPath(tree, joined);
      if dir.None? {
        return None;
      }
      var base := Basename(child);
      if |base| == 1 && base[0] == DOT {
        return None;
      }
      var final := JoinPaths(PathText(dir.value), base);
      if !(PathText(home) <= final) {
        return None;
      }
      return Some(final);
    }

    /** f_write_file, on a path f_valid_resolve produced. */
    method WriteFile(path: Text, ghost place: Place, stream: Option<Text>) returns (code: Byte)
      requires WellFormed(tree) && path == PlaceText(place) && place.dir in tree
      requires place.base != [] && (place.base == [SLASH] || SLASH !in place.base)
      modifies this
      ensures (tree, code) == WriteAt(old(tree), place, stream)
    {
      if stream.None? {
        return OP_FAILURE;
      }
      OsPlaceOfVerified(tree, place);
      var (written, errno) := OpenAndWrite(tree, path, stream.value);
      tree := written;
      if errno != NoError {
        if errno == ENOTDIR {
          return OP_PATH_NOT_FILE;
        }
        return OP_FAILURE;
      }
      return OP_SUCCESS;
    }

    /** f_create_dir, on a path f_valid_resolve produced. */
    method CreateDir(path: Text, ghost place: Place) returns (code: Byte)
      requires WellFormed(tree) && path == PlaceText(place) && place.dir in tree
      requires place.base != [] && (place.base == [SLASH] || SLASH !in place.base)
      modifies this
      ensures (tree, code) == MkdirAt(old(tree), place)
    {
      OsPlaceOfVerified(tree, place);
      var (made, errno) := Mkdir(tree, path);
      tree := made;
      if errno != NoError {
        if errno == EEXIST {
          return OP_DIR_EXISTS;
        }
        return OP_FAILURE;
      }
      return OP_SUCCESS;
    }

    /** f_read_file, on a path f_path_resolve produced. */
    method ReadFile(path: Text, ghost p: Path) returns (code: Byte, content: Option<Text>)
      requires WellFormed(tree) && path == PathText(p) && p in tree
      ensures (code, content) == ReadAt(tree, p)
    {
      hide RealPath, PathText;
      RealPathOfPresent(tree, p);
      var found := RealPath(tree, path);
      if found.None? {
        return OP_IO_ERROR, None;
      }
      if !tree[found.value].File? {
        return OP_PATH_NOT_FILE, None;
      }
      return OP_SUCCESS, Some(tree[found.value].data);
    }

    /** f_del_file: a directory is empty when the bounded count stops at two. */
    method DeleteFile(path: Text, ghost p: Path) returns (code: Byte)
      requires WellFormed(tree) && path == PathText(p) && p in tree
      modifies this
      ensures (tree, code) == RemoveAt(old(tree), p)
    {
      hide RealPath, PathText;
      RealPathOfPresent(tree, p);
      var found := RealPath(tree, path);
      if found.None? {
        return OP_FAILURE;
      }
      match tree[found.value]
      case File(_) =>
        tree := tree - {found.value};
        return OP_SUCCESS;
      case Special =>
        return OP_FAILURE;
      case Dir =>
        var names := ReadDir(found.value);
        var fileCount := 0;
        while fileCount < |names| && fileCount < 4
          invariant fileCount <= |names| && fileCount <= 4
        {
          fileCount := fileCount + 1;
        }
        EntryCountDecidesEmptiness(tree, p, names);
        ChildrenAreValid(tree, p);
        if fileCount > 2 {
          return OP_DIR_NOT_EMPTY;
        }
        if found.value == [] {
          return OP_FAILURE;
        }
        tree := tree - {found.value};
        return OP_SUCCESS;
    }

    /** f_list_dir. */
    method ListDir(path: Text, ghost p: Path, dirSize: Path -> nat) returns (code: Byte, stream: Text)
      requires WellFormed(tree) && path == PathText(p) && p in tree
      requires IsDir(tree, p) ==> ListInBuffers(tree, p, dirSize)
      ensures code == if IsDir(tree, p) then OP_SUCCESS else OP_PATH_NOT_DIR
      ensures code == OP_SUCCESS ==> IsListing(stream, tree, p, dirSize)
    {
      hide RealPath, PathText;
      RealPathOfPresent(tree, p);
      stream := [];
      var found := RealPath(tree, path);
      if found.None? {
        return OP_IO_ERROR, [];
      }
      if !tree[found.value].Dir? {
        return OP_PATH_NOT_DIR, [];
      }
      var names := ReadDir(found.value);
      stream := PrintNames(found.value, names, dirSize);
      return OP_SUCCESS, stream;
    }

    /** The reading loop of f_list_dir: sprintf at an offset of a buffer that is doubled when the guard asks for it. */
    method PrintNames(d: Path, names: seq<Name>, dirSize: Path -> nat) returns (stream: Text)
      requires ListingFits(tree, d, names, dirSize)
      ensures stream == PrintListing(Entries(tree, d, names, dirSize))
    {
      hide PrintLine, PrintListing, Shown, RawBuffer, EntryPathFits;
      ghost var entries: seq<Entry> := [];
      EmptyListing();
      EmptyRawBuffer();
      var buffer, offset := new Byte[RAW_BUFFER](_ => NUL), 0;
      for i := 0 to |names|
        invariant entries == Entries(tree, d, names[..i], dirSize)
        invariant fresh(buffer) && RawBuffer(entries) == Some(buffer.Length)
        invariant offset == |PrintListing(entries)| <= buffer.Length && buffer[..offset] == PrintListing(entries)
      {
        var n := names[i];
        assert names[..i + 1][..i] == names[..i];
        if Shown(tree, d, n) {
          ghost var e := EntryOf(tree, d, n, dirSize);
          FirstEntriesFit(tree, d, names, dirSize, i + 1);
          RawBufferSnoc(entries, e);
          RawBufferHolds(entries);
          PrintListingSnoc(entries, e);
          buffer, offset := PrintEntry(buffer, offset, d, n, dirSize);
          entries := entries + [e];
        }
      }
      assert names[..|names|] == names;
      stream := buffer[..offset];
    }

    /** One entry: its size, the guard, the sprintf. */
    method PrintEntry(buffer: array<Byte>, offset: nat, d: Path, n: Name, dirSize: Path -> nat)
      returns (grown: array<Byte>, next: nat)
      requires Shown(tree, d, n) && EntryPathFits(d, n) && offset < buffer.Length
      requires offset + |PrintLine(EntryOf(tree, d, n, dirSize))| + 2 <= Grown(buffer.Length, offset, n)
      modifies buffer
      ensures grown == buffer || fresh(grown)
      ensures grown.Length == Grown(buffer.Length, offset, n)
      ensures var line := PrintLine(EntryOf(tree, d, n, dirSize)) + [NEWLINE];
              next == offset + |line| <= grown.Length && grown[..next] == old(buffer[..offset]) + line
    {
      hide PrintLine;
      var size, numLength := FileSize(d, n, dirSize);
      grown := buffer;
      if |n| + offset + numLength + 4 >= grown.Length {
        grown := Realloc(grown, offset);
      }
      var kind := if tree[d + [n]].File? then Regular else Directory;
      var line := PrintLine(Entry(kind, size, n)) + [NEWLINE];
      Memcpy(grown, offset, line + [NUL]);
      next := offset + |line|;
      assert grown[..next] == old(buffer[..offset]) + line;
    }

    /** get_file_size: the size, and always one digit for it. */
    method FileSize(d: Path, n: Name, dirSize: Path -> nat) returns (size: nat, numLength: nat)
      requires Shown(tree, d, n) && EntryPathFits(d, n)
      ensures size == EntryOf(tree, d, n, dirSize).size && numLength == 1
    {
      hide PathText;
      var path := new Byte[PATH_MAX](_ => NUL);
      var end := Strncat(path, 0, PathText(d));
      end := Strncat(path, end, [SLASH]);
      end := Strncat(path, end, n);
      size := EntryOf(tree, d, n, dirSize).size;
      numLength := 1; // the loop that would count more runs only for numLength > 9
    }

    /** realloc_buff: twice the size, zero from the offset on. */
    method Realloc(buffer: array<Byte>, offset: nat) returns (larger: array<Byte>)
      requires offset <= buffer.Length
      ensures fresh(larger) && larger.Length == 2 * buffer.Length && larger[..offset] == buffer[..offset]
    {
      larger := new Byte[2 * buffer.Length](_ => NUL);
      Memcpy(larger, 0, buffer[..offset]);
      assert larger[..offset] == buffer[..offset];
    }
  }

  lemma ChildrenAreValid(tree: Tree, d: Path)
    requires WellFormed(tree)
    ensures forall n | n in Children(tree, d) :: ValidName(n)
  {
  }
}
