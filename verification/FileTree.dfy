/** The file namespace without symbolic links: realpath as a walk, the two resolvers of
    server_file_api.c, and the tree operations the server performs. */
module FileTree {
  import opened Bytes
  import opened Codes
  import opened Paths

  datatype Node = Dir | File(data: Text) | Special

  type Tree = map<Path, Node>

  function Parent(p: Path): Path
    requires p != []
  {
    p[..|p| - 1]
  }

  predicate IsDir(tree: Tree, p: Path) {
    p in tree && tree[p].Dir?
  }

  predicate IsFile(tree: Tree, p: Path) {
    p in tree && tree[p].File?
  }

  /** Every present path has a valid name and a directory as parent. */
  ghost predicate WellFormed(tree: Tree) {
    && IsDir(tree, [])
    && forall p | p in tree && p != [] :: ValidName(p[|p| - 1]) && IsDir(tree, Parent(p))
  }

  // ----- realpath -----

  /** One component of a path, taken from the directory `d`. */
  function Enter(tree: Tree, d: Path, c: Name): Option<Path> {
    if !IsDir(tree, d) then None
    else if c == [] || c == [DOT] then Some(d)
    else if c == [DOT, DOT] then Some(if d == [] then [] else Parent(d))
    else if d + [c] in tree then Some(d + [c])
    else None
  }

  function Walk(tree: Tree, from: Path, cs: seq<Name>): Option<Path>
    decreases cs
  {
    if cs == [] then Some(from)
    else match Enter(tree, from, cs[0])
      case None => None
      case Some(next) => Walk(tree, next, cs[1..])
  }

  /** realpath of an absolute path text. */
  function RealPath(tree: Tree, text: Text): Option<Path> {
    Walk(tree, [], Split(text))
  }

  lemma {:induction false} WalkConcat(tree: Tree, from: Path, a: seq<Name>, b: seq<Name>)
    ensures Walk(tree, from, a + b)
         == match Walk(tree, from, a) case None => None case Some(d) => Walk(tree, d, b)
    decreases a
  {
    if a == [] {
      assert a + b == b;
    } else {
      assert (a + b)[1..] == a[1..] + b;
      var next := Enter(tree, from, a[0]);
      if next.Some? {
        WalkConcat(tree, next.value, a[1..], b);
      }
    }
  }

  /** Nothing is reached from what is not a directory. */
  lemma NotDirGoesNowhere(tree: Tree, from: Path, cs: seq<Name>)
    requires !IsDir(tree, from) && cs != []
    ensures Walk(tree, from, cs) == None
  {
  }

  lemma WalkOne(tree: Tree, from: Path, c: Name)
    ensures Walk(tree, from, [c]) == Enter(tree, from, c)
  {
    assert [c][1..] == [];
    if Enter(tree, from, c).Some? {
      assert Walk(tree, Enter(tree, from, c).value, [c][1..]) == Enter(tree, from, c);
    }
  }

  lemma EmptyIsHere(tree: Tree, from: Path)
    requires IsDir(tree, from)
    ensures Walk(tree, from, [[]]) == Some(from)
  {
    WalkOne(tree, from, []);
  }

  lemma {:induction false} Ancestors(tree: Tree, p: Path, k: nat)
    requires WellFormed(tree) && p in tree && k <= |p|
    ensures p[..k] in tree
    ensures k < |p| ==> IsDir(tree, p[..k])
    decreases |p|
  {
    if k == |p| {
      assert p[..k] == p;
    } else if k == |p| - 1 {
      assert p[..k] == Parent(p);
    } else {
      Ancestors(tree, Parent(p), k);
      assert Parent(p)[..k] == p[..k];
    }
  }

  lemma PresentNames(tree: Tree, p: Path)
    requires WellFormed(tree) && p in tree
    ensures Canonical(p)
  {
    forall i | 0 <= i < |p| ensures ValidName(p[i]) {
      Ancestors(tree, p, i + 1);
      assert p[..i + 1][i] == p[i];
    }
  }

  lemma ParentIsDir(tree: Tree, p: Path)
    requires WellFormed(tree) && p in tree && p != []
    ensures ValidName(p[|p| - 1]) && IsDir(tree, Parent(p))
  {
  }

  lemma EnterLast(tree: Tree, p: Path)
    requires WellFormed(tree) && p != [] && ValidName(p[|p| - 1])
    ensures Enter(tree, Parent(p), p[|p| - 1]) == if p in tree then Some(p) else None
  {
    assert p == Parent(p) + [p[|p| - 1]];
    if p in tree {
      ParentIsDir(tree, p);
    }
  }

  /** A canonical path is its own realpath exactly when it is present. */
  lemma {:induction false} WalkCanonical(tree: Tree, p: Path)
    requires WellFormed(tree) && Canonical(p)
    ensures Walk(tree, [], p) == if p in tree then Some(p) else None
    decreases |p|
  {
    hide WellFormed, Enter, ValidName;
    if p == [] {
      RootIsDir(tree);
    } else {
      var last := p[|p| - 1];
      assert p == Parent(p) + [last];
      WalkCanonical(tree, Parent(p));
      WalkConcat(tree, [], Parent(p), [last]);
      WalkOne(tree, Parent(p), last);
      EnterLast(tree, p);
      if p in tree {
        ParentIsDir(tree, p);
      }
    }
  }

  lemma RootIsDir(tree: Tree)
    requires WellFormed(tree)
    ensures IsDir(tree, [])
  {
  }

  lemma RealPathOfText(tree: Tree, p: Path)
    requires WellFormed(tree) && Canonical(p)
    ensures RealPath(tree, PathText(p)) == if p in tree then Some(p) else None
  {
    hide Canonical, SplitOn, Slashed;
    RootIsDir(tree);
    hide WellFormed;
    WalkCanonical(tree, p);
    SplitSlashed(p);
    WalkConcat(tree, [], [[]], p);
    EmptyIsHere(tree, []);
    if p == [] {
      SplitAtSlash([], []);
      SplitPlain([]);
      assert [SLASH] == [] + [SLASH] + [];
      WalkConcat(tree, [], [[]], [[]]);
    }
  }

  lemma RealPathOfPresent(tree: Tree, p: Path)
    requires WellFormed(tree) && p in tree
    ensures RealPath(tree, PathText(p)) == Some(p)
  {
    hide WellFormed, RealPath, PathText, Canonical;
    PresentNames(tree, p);
    RealPathOfText(tree, p);
  }

  lemma {:induction false} WalkStaysInTree(tree: Tree, from: Path, cs: seq<Name>)
    requires WellFormed(tree) && (from in tree || cs != [])
    ensures Walk(tree, from, cs).Some? ==> Walk(tree, from, cs).value in tree
    decreases cs
  {
    if cs != [] && Enter(tree, from, cs[0]).Some? {
      WalkStaysInTree(tree, Enter(tree, from, cs[0]).value, cs[1..]);
    }
  }

  /** Resolving home joined with a child is walking from home along the child's components. */
  lemma RealPathOfJoin(tree: Tree, home: Path, child: Text)
    requires WellFormed(tree) && Canonical(home)
    ensures RealPath(tree, Join(PathText(home), child)) == Walk(tree, home, Split(child))
  {
    hide SplitOn, PathText, Walk, Enter, Canonical, WellFormed;
    var root := PathText(home);
    RealPathOfText(tree, home);
    if !IsDir(tree, home) {
      NotDirGoesNowhere(tree, home, Split(child));
    }
    if child != [] && child[0] == SLASH {
      var rest := child[1..];
      assert child == [] + [SLASH] + rest;
      assert Join(root, child) == root + [SLASH] + rest;
      SplitAtSlash(root, rest);
      SplitAtSlash([], rest);
      SplitPlain([]);
      WalkConcat(tree, [], Split(root), Split(rest));
      if IsDir(tree, home) {
        WalkConcat(tree, home, [[]], Split(rest));
        EmptyIsHere(tree, home);
      } else {
        NotDirGoesNowhere(tree, home, Split(rest));
      }
    } else {
      SplitAtSlash(root, child);
      WalkConcat(tree, [], Split(root), Split(child));
    }
  }

  // ----- join_paths and its buffer -----

  const PATH_MAX := 4096

  /** strncat into a buffer of PATH_MAX bytes; None where text and NUL do not fit. */
  function Strncat(buffer: Text, more: Text): Option<Text> {
    if |buffer| + |more| < PATH_MAX then Some(buffer + more) else None
  }

  /** The three strncat of join_paths, without the test it does not make. */
  function JoinBuffer(root: Text, child: Text): Option<Text> {
    match Strncat([], root)
    case None => None
    case Some(b) =>
      match (if child != [] && child[0] == SLASH then Some(b) else Strncat(b, [SLASH]))
      case None => None
      case Some(b') => Strncat(b', child)
  }

  /** join_paths stays in its buffer exactly when root, child and the slash it adds are shorter than it. */
  lemma JoinStaysInBuffer(root: Text, child: Text)
    ensures JoinBuffer(root, child).Some?
       <==> |root| + |child| + (if child != [] && child[0] == SLASH then 0 else 1) < PATH_MAX
    ensures JoinBuffer(root, child) == if |Join(root, child)| < PATH_MAX then Some(Join(root, child)) else None
  {
    assert [] + root == root;
  }

  // ----- the resolvers -----

  predicate Fits(home: Path, child: Text) {
    |PathText(home)| + |child| + 2 <= PATH_MAX
  }

  /** strncmp(home, path, strlen(home)) == 0. */
  predicate UnderHome(home: Path, path: Text) {
    PathText(home) <= path
  }

  /** `Overrun`: the buffer of join_paths is written past its end. */
  datatype Resolution = Overrun | Unresolved | Resolved(path: Text)

  /** f_path_resolve, on texts. */
  function PathResolve(tree: Tree, home: Path, child: Text): Resolution {
    if !Fits(home, child) then Unresolved
    else match JoinBuffer(PathText(home), child)
      case None => Overrun
      case Some(joined) =>
        match RealPath(tree, joined)
        case None => Unresolved
        case Some(p) => if UnderHome(home, PathText(p)) then Resolved(PathText(p)) else Unresolved
  }

  /** f_valid_resolve, on texts: resolve the dirname, then append the basename. */
  function ValidResolve(tree: Tree, home: Path, child: Text): Resolution {
    match JoinBuffer(PathText(home), Dirname(child))
    case None => Overrun
    case Some(joined) =>
      match RealPath(tree, joined)
      case None => Unresolved
      case Some(d) =>
        if Basename(child) == [DOT] then Unresolved else
          match JoinBuffer(PathText(d), Basename(child))
          case None => Overrun
          case Some(path) => if UnderHome(home, path) then Resolved(path) else Unresolved
  }

  /** What f_path_resolve finds, as a path of the tree. */
  function Target(tree: Tree, home: Path, child: Text): Option<Path> {
    if !Fits(home, child) then None
    else match Walk(tree, home, Split(child))
      case None => None
      case Some(p) => if UnderHome(home, PathText(p)) then Some(p) else None
  }

  /** Where f_valid_resolve would create: a present path and the last component. */
  datatype Place = Place(dir: Path, base: Name)

  function NewPlace(tree: Tree, home: Path, child: Text): Option<Place> {
    match Walk(tree, home, Split(Dirname(child)))
    case None => None
    case Some(d) =>
      if Basename(child) == [DOT] || !UnderHome(home, Join(PathText(d), Basename(child))) then None
      else Some(Place(d, Basename(child)))
  }

  function PlaceText(place: Place): Text {
    Join(PathText(place.dir), place.base)
  }

  /** The lengths at which both joins of f_valid_resolve stay in the buffer. */
  predicate JoinsInBuffer(tree: Tree, home: Path, child: Text) {
    && |Join(PathText(home), Dirname(child))| < PATH_MAX
    && match Walk(tree, home, Split(Dirname(child)))
       case None => true
       case Some(d) => Basename(child) == [DOT] || |Join(PathText(d), Basename(child))| < PATH_MAX
  }

  /** The guard of f_path_resolve keeps its join in the buffer; what it returns is the walk from home. */
  lemma PathResolveIsTarget(tree: Tree, home: Path, child: Text)
    requires WellFormed(tree) && Canonical(home)
    ensures PathResolve(tree, home, child)
         == match Target(tree, home, child) case None => Unresolved case Some(p) => Resolved(PathText(p))
    ensures Target(tree, home, child).Some? ==> Target(tree, home, child).value in tree
  {
    hide Walk, SplitOn, PathText, RealPath, Canonical, WellFormed;
    JoinStaysInBuffer(PathText(home), child);
    hide JoinBuffer;
    RealPathOfJoin(tree, home, child);
    WalkStaysInTree(tree, home, Split(child));
  }

  /** f_valid_resolve has no guard: it overruns exactly at the other lengths, and elsewhere returns the walk
      along the dirname with the basename appended. */
  lemma ValidResolveIsNewPlace(tree: Tree, home: Path, child: Text)
    requires WellFormed(tree) && Canonical(home)
    ensures ValidResolve(tree, home, child)
         == if !JoinsInBuffer(tree, home, child) then Overrun
            else match NewPlace(tree, home, child)
                 case None => Unresolved
                 case Some(place) => Resolved(PlaceText(place))
    ensures NewPlace(tree, home, child).Some? ==>
      var place := NewPlace(tree, home, child).value;
      place.dir in tree && place.base != [] && (place.base == [SLASH] || SLASH !in place.base)
  {
    hide Walk, SplitOn, PathText, RealPath, Canonical, WellFormed, Dirname, Basename;
    var d := Walk(tree, home, Split(Dirname(child)));
    JoinStaysInBuffer(PathText(home), Dirname(child));
    if d.Some? {
      JoinStaysInBuffer(PathText(d.value), Basename(child));
    }
    hide JoinBuffer;
    RealPathOfJoin(tree, home, Dirname(child));
    WalkStaysInTree(tree, home, Split(Dirname(child)));
  }

  // ----- dirname and basename against the walk -----

  function OnlyDir(tree: Tree, p: Option<Path>): Option<Path> {
    if p.Some? && IsDir(tree, p.value) then p else None
  }

  lemma {:induction false} TrailingSlashesAskForADirectory(tree: Tree, from: Path, s: Text)
    ensures OnlyDir(tree, Walk(tree, from, Split(s))) == OnlyDir(tree, Walk(tree, from, Split(Strip(s))))
    ensures EndsWithSlash(s) ==> OnlyDir(tree, Walk(tree, from, Split(s))) == Walk(tree, from, Split(s))
    decreases |s|
  {
    hide Walk, SplitOn;
    if EndsWithSlash(s) {
      var t := s[..|s| - 1];
      assert s == t + [SLASH] + [];
      SplitAtSlash(t, []);
      SplitPlain([]);
      WalkConcat(tree, from, Split(t), [[]]);
      if Walk(tree, from, Split(t)).Some? {
        WalkOne(tree, Walk(tree, from, Split(t)).value, []);
      }
      TrailingSlashesAskForADirectory(tree, from, t);
    }
  }

  /** Walking a path without trailing slash is entering its basename from its dirname. */
  lemma WalkDirBase(tree: Tree, from: Path, child: Text)
    requires child != [] && !EndsWithSlash(child)
    ensures Walk(tree, from, Split(child))
         == match Walk(tree, from, Split(Dirname(child)))
            case None => None
            case Some(d) => Enter(tree, d, Basename(child))
  {
    hide SplitOn, Walk, Enter, LastSlash, Strip;
    if !IsDir(tree, from) {
      NotDirGoesNowhere(tree, from, Split(child));
      NotDirGoesNowhere(tree, from, Split(Dirname(child)));
      return;
    }
    assert Strip(child) == child;
    var i := LastSlash(child);
    var base := AfterLastSlash(child);
    assert Basename(child) == base;
    SplitPlain(base);
    if i < 0 {
      DotIsHere(tree, from);
      assert base == child;
      WalkOne(tree, from, child);
    } else {
      var a := child[..i];
      assert child == a + [SLASH] + base;
      SplitAtSlash(a, base);
      WalkConcat(tree, from, Split(a), [base]);
      if Walk(tree, from, Split(a)).Some? {
        WalkOne(tree, Walk(tree, from, Split(a)).value, base);
      }
      TrailingSlashesAskForADirectory(tree, from, a);
      SlashIsHere(tree, from);
      EnterOnlyDir(tree, Walk(tree, from, Split(a)), Walk(tree, from, Split(Dirname(child))), base);
    }
  }

  lemma EnterOnlyDir(tree: Tree, x: Option<Path>, y: Option<Path>, c: Name)
    requires OnlyDir(tree, x) == OnlyDir(tree, y)
    ensures (match x case None => None case Some(d) => Enter(tree, d, c))
         == (match y case None => None case Some(d) => Enter(tree, d, c))
  {
  }

  lemma DotIsHere(tree: Tree, from: Path)
    requires IsDir(tree, from)
    ensures Walk(tree, from, Split([DOT])) == Some(from)
  {
    SplitPlain([DOT]);
    WalkOne(tree, from, [DOT]);
  }

  lemma SlashIsHere(tree: Tree, from: Path)
    requires IsDir(tree, from)
    ensures Walk(tree, from, Split([SLASH])) == Some(from)
    ensures Walk(tree, from, Split([])) == Some(from)
  {
    assert [SLASH] == [] + [SLASH] + [];
    SplitPlain([]);
    SplitAtSlash([], []);
    WalkConcat(tree, from, [[]], [[]]);
    WalkOne(tree, from, []);
  }

  lemma DirBaseOfStripped(child: Text)
    requires Strip(child) != []
    ensures Dirname(child) == Dirname(Strip(child)) && Basename(child) == Basename(Strip(child))
  {
    assert Strip(Strip(child)) == Strip(child);
  }

  // ----- which children keep the joins in the buffer -----

  /** The components and their slashes. */
  function SplitSize(cs: seq<Name>): nat {
    if cs == [] then 0 else |cs[0]| + 1 + SplitSize(cs[1..])
  }

  lemma {:induction false} SizeOfSplit(s: Text)
    ensures SplitSize(Split(s)) == |s| + 1
    decreases |s|
  {
    var i := Find(s, SLASH);
    if i == |s| {
      assert [s][1..] == [];
    } else {
      SizeOfSplit(s[i + 1..]);
      assert ([s[..i]] + Split(s[i + 1..]))[1..] == Split(s[i + 1..]);
    }
  }

  lemma AppendedLength(d: Path, c: Name)
    ensures |PathText(d + [c])| <= |PathText(d)| + |c| + 1
    ensures |PathText(d)| <= |PathText(d + [c])| || d == []
    ensures |PathText(d)| >= 1 && |PathText([])| == 1
  {
    SlashedConcat(d, [c]);
    SlashedOne(c);
    SlashedHead(d);
  }

  lemma {:induction false} WalkLength(tree: Tree, from: Path, cs: seq<Name>)
    requires WellFormed(tree) && (from in tree || cs != [])
    ensures Walk(tree, from, cs).Some? ==> |PathText(Walk(tree, from, cs).value)| <= |PathText(from)| + SplitSize(cs)
    decreases cs
  {
    hide PathText, WellFormed;
    if cs != [] && Enter(tree, from, cs[0]).Some? {
      var next := Enter(tree, from, cs[0]).value;
      if next == from + [cs[0]] {
        AppendedLength(from, cs[0]);
      } else if next != from {
        AppendedLength(Parent(from), from[|from| - 1]);
        assert from == Parent(from) + [from[|from| - 1]];
      }
      if cs[1..] != [] {
        WalkLength(tree, next, cs[1..]);
      }
    }
  }

  /** What f_path_resolve lets through never overruns f_valid_resolve either. */
  lemma GuardCoversJoins(tree: Tree, home: Path, child: Text)
    requires WellFormed(tree) && Fits(home, child) && child != []
    ensures JoinsInBuffer(tree, home, child)
  {
    hide Walk, SplitOn, PathText, WellFormed, Dirname, Basename;
    DirBaseLengths(child);
    var dir := Dirname(child);
    if Walk(tree, home, Split(dir)).Some? {
      if dir == [DOT] || dir == [SLASH] {
        if IsDir(tree, home) {
          DotIsHere(tree, home);
          SlashIsHere(tree, home);
        } else {
          NotDirGoesNowhere(tree, home, Split(dir));
        }
      } else {
        WalkLength(tree, home, Split(dir));
        SizeOfSplit(dir);
      }
    }
  }

  /** "./././" and so on. */
  function Dots(n: nat): (s: Text)
    ensures |s| == 2 * n
  {
    if n == 0 then [] else Dots(n - 1) + [DOT, SLASH]
  }

  lemma {:induction false} DotsWalk(tree: Tree, from: Path, n: nat)
    requires IsDir(tree, from)
    ensures Walk(tree, from, Split(Dots(n) + [DOT])) == Some(from)
  {
    hide SplitOn, Walk;
    DotIsHere(tree, from);
    if n == 0 {
      assert Dots(0) + [DOT] == [DOT];
    } else {
      DotsWalk(tree, from, n - 1);
      assert Dots(n) + [DOT] == (Dots(n - 1) + [DOT]) + [SLASH] + [DOT];
      SplitAtSlash(Dots(n - 1) + [DOT], [DOT]);
      WalkConcat(tree, from, Split(Dots(n - 1) + [DOT]), Split([DOT]));
    }
  }

  lemma DotsParts(n: nat, base: Name)
    requires base != [] && SLASH !in base
    ensures Dirname(Dots(n + 1) + base) == Dots(n) + [DOT]
    ensures Basename(Dots(n + 1) + base) == base
  {
    hide LastSlash, Strip;
    var s := Dots(n + 1) + base;
    var i := 2 * n + 1;
    assert s[..i] == Dots(n) + [DOT] && s[i] == SLASH && s[i + 1..] == base;
    hide Dots;
    assert s[|s| - 1] == base[|base| - 1];
    assert forall j | i < j < |s| :: s[j] == base[j - (i + 1)];
    assert s[..i][|s[..i]| - 1] == DOT;
    StripOfPlain(s);
    LastSlashIs(s, i);
    StripOfPlain(s[..i]);
  }

  /** The code never checks the lengths: a long way of writing "f" overruns the buffer under every home,
      though everything else about it is in order. */
  lemma UnguardedOverrun(tree: Tree, home: Path, base: Name)
    requires WellFormed(tree) && Canonical(home) && IsDir(tree, home) && ValidName(base)
    requires UnderHome(home, Join(PathText(home), base))
    ensures ValidResolve(tree, home, Dots(2048) + base) == Overrun
    ensures NewPlace(tree, home, Dots(2048) + base) == Some(Place(home, base))
  {
    hide Walk, SplitOn, PathText, WellFormed, Dirname, Basename, Dots, ValidResolve;
    DotsParts(2047, base);
    DotsWalk(tree, home, 2047);
    AppendedLength(home, base);
    ValidResolveIsNewPlace(tree, home, Dots(2048) + base);
  }

  // ----- the two resolvers agree -----

  lemma TextOfChild(d: Path, base: Name)
    requires base != [] && base[0] != SLASH
    ensures d != [] ==> Join(PathText(d), base) == PathText(d + [base])
    ensures d == [] ==> Join(PathText(d), base) == [SLASH] + PathText([base])
  {
    hide Slashed;
    SlashedConcat(d, [base]);
    SlashedOne(base);
  }

  /** Under "/" a valid path is written "//name", which only a home of "/" is a prefix of. */
  lemma DoubleSlashUnderHome(home: Path, base: Name)
    requires PlainNames(home)
    ensures PathText([base]) == [SLASH] + base
    ensures UnderHome(home, [SLASH] + PathText([base])) <==> home == []
    ensures home == [] ==> UnderHome(home, PathText([base]))
  {
    SlashedOne(base);
    if home != [] {
      SlashedHead(home);
      assert Slashed(home)[1] == home[0][0] != SLASH;
    }
  }

  /** A last component that names an entry. */
  predicate NamesAnEntry(child: Text) {
    child != [] && !EndsWithSlash(child) && Basename(child) != [DOT] && Basename(child) != [DOT, DOT]
  }

  lemma BasenameOfEntry(child: Text)
    requires NamesAnEntry(child)
    ensures SLASH !in Basename(child) && Basename(child) != []
  {
    hide LastSlash, Strip;
    StripOfPlain(child);
  }

  lemma EntryWalk(tree: Tree, home: Path, child: Text)
    requires WellFormed(tree) && NamesAnEntry(child)
    ensures SLASH !in Basename(child)
    ensures Walk(tree, home, Split(child)).Some? ==>
      var p := Walk(tree, home, Split(child)).value;
      && p != [] && p[|p| - 1] == Basename(child)
      && Walk(tree, home, Split(Dirname(child))) == Some(Parent(p))
  {
    hide SplitOn, Walk, Dirname, Basename, WellFormed;
    BasenameOfEntry(child);
    WalkDirBase(tree, home, child);
    var d := Walk(tree, home, Split(Dirname(child)));
    if Walk(tree, home, Split(child)).Some? {
      var p := Walk(tree, home, Split(child)).value;
      assert p == d.value + [Basename(child)];
    }
  }

  /** For an existing target the resolvers give the same answer exactly when the target is not an entry
      of "/" that passes the home test. */
  lemma ResolversAgree(tree: Tree, home: Path, child: Text)
    requires WellFormed(tree) && Canonical(home)
    requires NamesAnEntry(child) && Fits(home, child)
    requires Walk(tree, home, Split(child)).Some?
    ensures var p := Walk(tree, home, Split(child)).value;
            PathResolve(tree, home, child) == ValidResolve(tree, home, child)
            <==> |p| > 1 || !UnderHome(home, PathText(p))
  {
    hide Split, Walk, Dirname, Basename, PathText, Slashed, Join, PathResolve, ValidResolve;
    var p := Walk(tree, home, Split(child)).value;
    EntryWalk(tree, home, child);
    PathResolveIsTarget(tree, home, child);
    ValidResolveIsNewPlace(tree, home, child);
    GuardCoversJoins(tree, home, child);
    TextOfChild(Parent(p), Basename(child));
    assert p == Parent(p) + [Basename(child)];
    if |p| == 1 {
      assert p == [Basename(child)];
      DoubleSlashUnderHome(home, Basename(child));
    }
  }

  /** Unless a sibling's name extends home's, whatever resolves lies inside home. */
  lemma ResolvedIsContained(tree: Tree, home: Path, child: Text)
    requires WellFormed(tree) && Canonical(home) && Fits(home, child)
    requires forall q | q in tree :: !SiblingOf(home, q)
    requires Walk(tree, home, Split(child)).Some?
    ensures Target(tree, home, child).Some? <==> home <= Walk(tree, home, Split(child)).value
  {
    WalkStaysInTree(tree, home, Split(child));
    PresentNames(tree, Walk(tree, home, Split(child)).value);
    TextPrefixIsContainment(home, Walk(tree, home, Split(child)).value);
  }

  /** What the prefix test lets through: paths inside home, and those of a sibling whose name extends
      home's name. */
  predicate NearHome(home: Path, p: Path) {
    home <= p || SiblingOf(home, p)
  }

  lemma TargetNearHome(tree: Tree, home: Path, child: Text)
    requires WellFormed(tree) && Canonical(home) && Target(tree, home, child).Some?
    ensures NearHome(home, Target(tree, home, child).value)
  {
    hide SplitOn, Walk, PathText;
    var p := Target(tree, home, child).value;
    WalkStaysInTree(tree, home, Split(child));
    PresentNames(tree, p);
    TextPrefixIsContainment(home, p);
  }

  lemma PlaceNearHome(tree: Tree, home: Path, child: Text)
    requires WellFormed(tree) && Canonical(home) && NewPlace(tree, home, child).Some?
    requires ValidName(NewPlace(tree, home, child).value.base)
    ensures var place := NewPlace(tree, home, child).value; NearHome(home, place.dir + [place.base])
  {
    hide SplitOn, Walk, PathText, Dirname, Basename, Join, WellFormed;
    var place := NewPlace(tree, home, child).value;
    var p := place.dir + [place.base];
    WalkStaysInTree(tree, home, Split(Dirname(child)));
    PresentNames(tree, place.dir);
    TextOfChild(place.dir, place.base);
    TextPrefixIsContainment(home, p);
    if place.dir == [] {
      DoubleSlashUnderHome(home, place.base);
    }
  }

  // ----- operations on the tree -----

  /** open(path, "w") and write, at dir/base. */
  function WriteAt(tree: Tree, place: Place, stream: Option<Text>): (Tree, Byte) {
    if stream.None? then (tree, OP_FAILURE)
    else if !IsDir(tree, place.dir) then (tree, OP_PATH_NOT_FILE)
    else if !ValidName(place.base) then (tree, OP_FAILURE)
    else
      var p := place.dir + [place.base];
      if p in tree && !tree[p].File? then (tree, OP_FAILURE)
      else (tree[p := File(stream.value)], OP_SUCCESS)
  }

  /** mkdir at dir/base. */
  function MkdirAt(tree: Tree, place: Place): (Tree, Byte) {
    if !IsDir(tree, place.dir) then (tree, OP_FAILURE)
    else if !ValidName(place.base) || place.dir + [place.base] in tree then (tree, OP_DIR_EXISTS)
    else (tree[place.dir + [place.base] := Dir], OP_SUCCESS)
  }

  /** The names in a directory, apart from "." and "..". */
  function Children(tree: Tree, d: Path): set<Name> {
    set p | p in tree && p != [] && Parent(p) == d :: p[|p| - 1]
  }

  /** f_del_file. */
  function RemoveAt(tree: Tree, p: Path): (Tree, Byte) {
    if p !in tree then (tree, OP_FAILURE) else match tree[p]
    case File(_) => (tree - {p}, OP_SUCCESS)
    case Dir =>
      if Children(tree, p) != {} then (tree, OP_DIR_NOT_EMPTY)
      else if p == [] then (tree, OP_FAILURE)
      else (tree - {p}, OP_SUCCESS)
    case Special => (tree, OP_FAILURE)
  }

  /** The lengths at which PUT stays in the buffers of join_paths. */
  predicate PutInBuffer(tree: Tree, home: Path, child: Text) {
    Target(tree, home, child).None? ==> JoinsInBuffer(tree, home, child)
  }

  /** do_put_file. */
  function PutFile(tree: Tree, home: Path, child: Text, stream: Option<Text>): (Tree, Byte)
    requires PutInBuffer(tree, home, child)
  {
    if Target(tree, home, child).Some? then (tree, OP_FILE_EXISTS)
    else match NewPlace(tree, home, child)
      case None => (tree, OP_RESOLVE_ERROR)
      case Some(place) => WriteAt(tree, place, stream)
  }

  /** do_make_dir. */
  function MakeDir(tree: Tree, home: Path, child: Text): (Tree, Byte)
    requires JoinsInBuffer(tree, home, child)
  {
    match NewPlace(tree, home, child)
    case None => (tree, OP_RESOLVE_ERROR)
    case Some(place) => MkdirAt(tree, place)
  }

  /** do_del_file. */
  function DelFile(tree: Tree, home: Path, child: Text): (Tree, Byte) {
    match Target(tree, home, child)
    case None => (tree, OP_RESOLVE_ERROR)
    case Some(p) => RemoveAt(tree, p)
  }

  /** f_read_file. */
  function ReadAt(tree: Tree, p: Path): (Byte, Option<Text>) {
    if p !in tree then (OP_IO_ERROR, None)
    else if !tree[p].File? then (OP_PATH_NOT_FILE, None)
    else (OP_SUCCESS, Some(tree[p].data))
  }

  /** do_get_file: the code and, on success, the contents. */
  function GetFile(tree: Tree, home: Path, child: Text): (Byte, Option<Text>) {
    match Target(tree, home, child)
    case None => (OP_RESOLVE_ERROR, None)
    case Some(p) => if ReadAt(tree, p).1 == Some([]) then (OP_FILE_EMPTY, None) else ReadAt(tree, p)
  }

  // ----- what the operations keep -----

  lemma AddKeepsWellFormed(tree: Tree, d: Path, base: Name, node: Node)
    requires WellFormed(tree) && IsDir(tree, d) && ValidName(base)
    requires d + [base] in tree ==> !IsDir(tree, d + [base])
    ensures WellFormed(tree[d + [base] := node])
  {
    var q := d + [base];
    assert Parent(q) == d;
    var t := tree[q := node];
    forall p | p in t && p != [] ensures ValidName(p[|p| - 1]) && IsDir(t, Parent(p)) {
      if p != q {
        assert p in tree;
      }
    }
  }

  lemma EntryOfParent(tree: Tree, q: Path)
    requires q in tree && q != []
    ensures q[|q| - 1] in Children(tree, Parent(q))
  {
  }

  lemma RemoveKeepsWellFormed(tree: Tree, p: Path)
    requires WellFormed(tree) && p in tree && p != []
    requires IsDir(tree, p) ==> Children(tree, p) == {}
    ensures WellFormed(tree - {p})
  {
    var t := tree - {p};
    forall q | q in t && q != [] ensures ValidName(q[|q| - 1]) && IsDir(t, Parent(q)) {
      assert q in tree;
      EntryOfParent(tree, q);
    }
  }

  /** PUT succeeds exactly when the path does not resolve, its dirname resolves to a directory and a regular
      file can be there; then that path, and no other, becomes the file. */
  lemma PutEffect(tree: Tree, home: Path, child: Text, stream: Option<Text>)
    requires WellFormed(tree) && PutInBuffer(tree, home, child)
    ensures var (t, code) := PutFile(tree, home, child, stream);
            && WellFormed(t)
            && (code != OP_SUCCESS ==> t == tree)
            && (code == OP_SUCCESS <==>
                 && Target(tree, home, child).None? && stream.Some? && NewPlace(tree, home, child).Some?
                 && var place := NewPlace(tree, home, child).value;
                    && IsDir(tree, place.dir) && ValidName(place.base)
                    && (place.dir + [place.base] in tree ==> IsFile(tree, place.dir + [place.base])))
            && (code == OP_SUCCESS ==>
                 var place := NewPlace(tree, home, child).value;
                 t == tree[place.dir + [place.base] := File(stream.value)])
  {
    hide Target, NewPlace, ValidName;
    var place := NewPlace(tree, home, child);
    if place.Some? && IsDir(tree, place.value.dir) && ValidName(place.value.base) && stream.Some? {
      var p := place.value.dir + [place.value.base];
      if p !in tree || tree[p].File? {
        AddKeepsWellFormed(tree, place.value.dir, place.value.base, File(stream.value));
      }
    }
  }

  lemma SlashChildHasNoPlaceInside(tree: Tree, home: Path, child: Text)
    requires Strip(child) == []
    ensures NewPlace(tree, home, child).Some? ==> !ValidName(NewPlace(tree, home, child).value.base)
  {
  }

  /** PUT replaces an existing file exactly when the path is too long for the existence test or ends in a
      slash; in every other case it succeeds only on an absent path. */
  lemma PutReplacesIff(tree: Tree, home: Path, child: Text, data: Text)
    requires WellFormed(tree) && Canonical(home) && PutInBuffer(tree, home, child)
    requires NewPlace(tree, home, child).Some?
    requires var place := NewPlace(tree, home, child).value;
             ValidName(place.base) && IsFile(tree, place.dir + [place.base])
    ensures PutFile(tree, home, child, Some(data)).1 == OP_SUCCESS
       <==> !Fits(home, child) || EndsWithSlash(child)
    ensures PutFile(tree, home, child, Some(data)).1 != OP_SUCCESS
       <==> PutFile(tree, home, child, Some(data)) == (tree, OP_FILE_EXISTS)
  {
    hide Split, Walk, Dirname, Basename, PathText, Slashed, Join, Strip;
    var place := NewPlace(tree, home, child).value;
    var p := place.dir + [place.base];
    var t := Strip(child);
    assert Parent(p) == place.dir;
    if t == [] {
      SlashChildHasNoPlaceInside(tree, home, child);
    } else {
      DirBaseOfStripped(child);
      WalkDirBase(tree, home, t);
      assert Walk(tree, home, Split(t)) == Some(p);
      if EndsWithSlash(child) {
        TrailingSlashesAskForADirectory(tree, home, child);
      } else {
        TextOfChild(place.dir, place.base);
        if place.dir == [] {
          assert p == [place.base];
          DoubleSlashUnderHome(home, place.base);
        }
      }
    }
  }

  lemma {:induction false} AllSlashes(s: Text)
    requires forall i | 0 <= i < |s| :: s[i] == SLASH
    ensures Strip(s) == []
  {
    if s != [] {
      AllSlashes(s[..|s| - 1]);
    }
  }

  lemma SlashesParts(n: nat, base: Name)
    requires n > 0 && base != [] && SLASH !in base
    ensures var s := seq(n, i => SLASH) + base; Dirname(s) == [SLASH] && Basename(s) == base && !EndsWithSlash(s)
  {
    var slashes := seq(n, i => SLASH);
    var s := slashes + base;
    assert s[|s| - 1] == base[|base| - 1];
    assert Strip(s) == s;
    assert forall j | n <= j < |s| :: s[j] == base[j - n];
    assert s[n - 1] == SLASH;
    assert LastSlash(s) == n - 1;
    AllSlashes(s[..n - 1]);
    assert s[n..] == base;
  }

  /** Both cases occur under every home: "f/", and "f" after enough slashes, which stay in the buffer. */
  lemma PutReplacesAt(tree: Tree, home: Path, base: Name, data: Text)
    requires WellFormed(tree) && Canonical(home) && |PathText(home)| + |base| + 2 < PATH_MAX
    requires ValidName(base) && IsFile(tree, home + [base]) && UnderHome(home, Join(PathText(home), base))
    ensures var long := seq(PATH_MAX, i => SLASH) + base;
      && PutInBuffer(tree, home, long) && !Fits(home, long) && !EndsWithSlash(long)
      && PutFile(tree, home, long, Some(data)) == (tree[home + [base] := File(data)], OP_SUCCESS)
    ensures var slash := base + [SLASH];
      && PutInBuffer(tree, home, slash) && Fits(home, slash)
      && PutFile(tree, home, slash, Some(data)) == (tree[home + [base] := File(data)], OP_SUCCESS)
  {
    hide Walk, SplitOn, PathText, Slashed, Dirname, Basename, Strip, Join, PutFile, WellFormed;
    HomeOfEntry(tree, home, base);
    var long, slash := seq(PATH_MAX, i => SLASH) + base, base + [SLASH];
    SlashesParts(PATH_MAX, base);
    SlashIsHere(tree, home);
    DotIsHere(tree, home);
    BaseAlone(base);
    assert EndsWithSlash(slash);
    GuardCoversJoins(tree, home, slash);
    JoinLengths(home, base);
    PutReplacesIff(tree, home, long, data);
    PutReplacesIff(tree, home, slash, data);
    PutEffect(tree, home, long, Some(data));
    PutEffect(tree, home, slash, Some(data));
  }

  lemma HomeOfEntry(tree: Tree, home: Path, base: Name)
    requires WellFormed(tree) && home + [base] in tree
    ensures IsDir(tree, home)
  {
    assert Parent(home + [base]) == home;
  }

  lemma JoinLengths(home: Path, base: Name)
    ensures |Join(PathText(home), [SLASH])| == |PathText(home)| + 1
    ensures |Join(PathText(home), base)| <= |PathText(home)| + 1 + |base|
  {
  }

  lemma BaseAlone(base: Name)
    requires base != [] && SLASH !in base
    ensures Dirname(base + [SLASH]) == [DOT] && Basename(base + [SLASH]) == base
  {
    var s := base + [SLASH];
    assert s[..|base|] == base;
    assert Strip(base) == base;
    assert Strip(s) == base;
    assert LastSlash(base) == -1;
  }

  /** MKDIR succeeds exactly on an absent path whose dirname resolves to a directory; that path becomes an
      empty directory and nothing else changes. */
  lemma MakeDirEffect(tree: Tree, home: Path, child: Text)
    requires WellFormed(tree) && JoinsInBuffer(tree, home, child)
    ensures var (t, code) := MakeDir(tree, home, child);
            && WellFormed(t)
            && (code != OP_SUCCESS ==> t == tree)
            && (code == OP_SUCCESS <==>
                 && NewPlace(tree, home, child).Some?
                 && var place := NewPlace(tree, home, child).value;
                    IsDir(tree, place.dir) && ValidName(place.base) && place.dir + [place.base] !in tree)
            && (code == OP_SUCCESS ==>
                 var place := NewPlace(tree, home, child).value;
                 var p := place.dir + [place.base];
                 t == tree[p := Dir] && Children(t, p) == {})
  {
    hide NewPlace, ValidName;
    var (t, code) := MakeDir(tree, home, child);
    if code == OP_SUCCESS {
      var place := NewPlace(tree, home, child).value;
      var p := place.dir + [place.base];
      AddKeepsWellFormed(tree, place.dir, place.base, Dir);
      forall q | q in t && q != [] ensures Parent(q) != p {
        if q != p {
          assert IsDir(tree, Parent(q));
        }
      }
    }
  }

  lemma RemoveEffect(tree: Tree, p: Path)
    requires WellFormed(tree)
    ensures var (t, code) := RemoveAt(tree, p);
            && WellFormed(t)
            && (code != OP_SUCCESS ==> t == tree)
            && (code == OP_SUCCESS <==> IsFile(tree, p) || (IsDir(tree, p) && Children(tree, p) == {} && p != []))
            && (code == OP_SUCCESS ==> p != [] && t == tree - {p})
            && (code == OP_DIR_NOT_EMPTY <==> IsDir(tree, p) && Children(tree, p) != {})
  {
    var code := RemoveAt(tree, p).1;
    hide Children;
    if code == OP_SUCCESS {
      NotTheRoot(tree, p);
      RemoveKeepsWellFormed(tree, p);
    }
  }

  lemma NotTheRoot(tree: Tree, p: Path)
    requires WellFormed(tree) && RemoveAt(tree, p).1 == OP_SUCCESS
    ensures p in tree && p != []
  {
    hide Children;
  }

  /** GET answers with the bytes of the target exactly when it is a non-empty regular file. */
  lemma GetEffect(tree: Tree, home: Path, child: Text)
    ensures var (code, content) := GetFile(tree, home, child);
            && (code == OP_SUCCESS <==>
                 && Target(tree, home, child).Some?
                 && var p := Target(tree, home, child).value; IsFile(tree, p) && tree[p].data != [])
            && content == (if code == OP_SUCCESS then Some(tree[Target(tree, home, child).value].data) else None)
  {
    hide Target;
  }

  /** DELETE removes the target of the path, and nothing else, exactly when that is a regular file or an
      empty directory. */
  lemma DelFileEffect(tree: Tree, home: Path, child: Text)
    requires WellFormed(tree) && Canonical(home)
    ensures var (t, code) := DelFile(tree, home, child);
            && WellFormed(t)
            && (code != OP_SUCCESS ==> t == tree)
            && (code == OP_SUCCESS <==>
                 && Target(tree, home, child).Some?
                 && var p := Target(tree, home, child).value;
                    IsFile(tree, p) || (IsDir(tree, p) && Children(tree, p) == {} && p != []))
            && (code == OP_SUCCESS ==>
                 var p := Target(tree, home, child).value; p != [] && t == tree - {p})
  {
    hide WellFormed, Children;
    PathResolveIsTarget(tree, home, child);
    hide Target;
    if Target(tree, home, child).Some? {
      RemoveEffect(tree, Target(tree, home, child).value);
    }
  }
}
