/** Where ".." in a path leads: out of a directory again, and out of home only as far as the home test lets it. */
module DotDot {
  import opened Bytes
  import opened Paths
  import opened FileTree

  const UP: Name := [DOT, DOT]

  /** Into a directory and out again is not to have moved, anywhere in a path. */
  lemma InAndOut(tree: Tree, from: Path, front: seq<Name>, a: Name, rest: seq<Name>)
    requires WellFormed(tree) && ValidName(a)
    requires Walk(tree, from, front).Some? && IsDir(tree, Walk(tree, from, front).value + [a])
    ensures Walk(tree, from, front + [a, UP] + rest) == Walk(tree, from, front + rest)
  {
    hide Walk;
    var d := Walk(tree, from, front).value;
    var p := d + [a];
    assert Parent(p) == d;
    hide WellFormed;
    WalkConcat(tree, from, front, rest);
    WalkConcat(tree, from, front + [a, UP], rest);
    WalkConcat(tree, from, front, [a, UP]);
    assert [a] + [UP] == [a, UP];
    WalkConcat(tree, d, [a], [UP]);
    EntersIn(tree, d, a);
    WalkOne(tree, d, a);
    WalkOne(tree, p, UP);
  }

  lemma EntersIn(tree: Tree, d: Path, a: Name)
    requires WellFormed(tree) && ValidName(a) && IsDir(tree, d + [a])
    ensures IsDir(tree, d) && Enter(tree, d, a) == Some(d + [a]) && Enter(tree, d + [a], UP) == Some(d)
  {
    assert Parent(d + [a]) == d;
  }

  // ----- on texts -----

  /** "a/../b". */
  function Around(a: Name, b: Text): Text {
    a + [SLASH] + UP + [SLASH] + b
  }

  /** "../last/b". */
  function Back(last: Name, b: Text): Text {
    UP + [SLASH] + last + [SLASH] + b
  }

  lemma SplitAround(a: Name, b: Text)
    requires SLASH !in a
    ensures Split(Around(a, b)) == [] + [a, UP] + Split(b)
    ensures Split(Back(a, b)) == [UP, a] + Split(b)
  {
    hide SplitOn;
    SplitPlain(a);
    SplitPlain(UP);
    SplitAtSlash(a, UP);
    SplitAtSlash(a + [SLASH] + UP, b);
    SplitAtSlash(UP, a);
    SplitAtSlash(UP + [SLASH] + a, b);
    assert [a] + [UP] == [a, UP] && [UP] + [a] == [UP, a];
  }

  /** Where both are short enough for f_path_resolve, "a/../b" resolves as "b" does. */
  lemma AroundResolves(tree: Tree, home: Path, a: Name, b: Text)
    requires WellFormed(tree) && Canonical(home) && ValidName(a) && IsDir(tree, home + [a])
    requires |PathText(home)| + |a| + |b| + 6 <= 4096
    ensures PathResolve(tree, home, Around(a, b)) == PathResolve(tree, home, b)
  {
    hide PathText, Walk, SplitOn, WellFormed, Canonical;
    PathResolveIsTarget(tree, home, Around(a, b));
    PathResolveIsTarget(tree, home, b);
    hide PathResolve;
    SplitAround(a, b);
    StayingIsHere(tree, home);
    InAndOut(tree, home, [], a, Split(b));
    assert [] + Split(b) == Split(b);
  }

  lemma StayingIsHere(tree: Tree, from: Path)
    ensures Walk(tree, from, []) == Some(from)
  {
  }

  /** So does "../<last name of home>/b", the way back into home. */
  lemma BackResolves(tree: Tree, home: Path, b: Text)
    requires WellFormed(tree) && Canonical(home) && IsDir(tree, home) && home != []
    requires |PathText(home)| + |home[|home| - 1]| + |b| + 6 <= 4096
    ensures PathResolve(tree, home, Back(home[|home| - 1], b)) == PathResolve(tree, home, b)
  {
    hide PathText, Walk, SplitOn, WellFormed;
    var last := home[|home| - 1];
    PathResolveIsTarget(tree, home, Back(last, b));
    PathResolveIsTarget(tree, home, b);
    hide PathResolve;
    SplitAround(last, b);
    ParentIsDir(tree, home);
    EnterLast(tree, home);
    assert [UP] + [last] == [UP, last];
    WalkConcat(tree, home, [UP, last], Split(b));
    WalkConcat(tree, home, [UP], [last]);
    WalkOne(tree, home, UP);
    WalkOne(tree, Parent(home), last);
  }

  /** A new entry asked for as "a/../b" is the entry "b" of home. */
  lemma AroundPlace(tree: Tree, home: Path, a: Name, b: Name)
    requires WellFormed(tree) && ValidName(a) && IsDir(tree, home + [a])
    requires b != [] && SLASH !in b
    ensures NewPlace(tree, home, Around(a, b)) == NewPlace(tree, home, b)
  {
    hide PathText, Walk, SplitOn, WellFormed, Dirname, Basename, Join;
    PartsOfAround(a, b);
    var dir := a + [SLASH] + UP;
    SplitPlain(a);
    SplitPlain(UP);
    SplitAtSlash(a, UP);
    assert Split(dir) == [] + [a, UP] + [];
    StayingIsHere(tree, home);
    InAndOut(tree, home, [], a, []);
    var none: seq<Name> := [];
    assert none + none == none;
    assert Parent(home + [a]) == home;
    ParentIsDir(tree, home + [a]);
    DotIsHere(tree, home);
  }

  lemma PartsOfAround(a: Name, b: Name)
    requires b != [] && SLASH !in b
    ensures Dirname(Around(a, b)) == a + [SLASH] + UP && Basename(Around(a, b)) == b
    ensures Dirname(b) == [DOT] && Basename(b) == b
  {
    hide Strip, LastSlash;
    var dir := a + [SLASH] + UP;
    var s := Around(a, b);
    assert s[..|dir|] == dir && s[|dir|] == SLASH && s[|dir| + 1..] == b;
    assert s[|s| - 1] == b[|b| - 1];
    assert forall j | |dir| < j < |s| :: s[j] == b[j - |dir| - 1];
    StripOfPlain(s);
    LastSlashIs(s, |dir|);
    StripOfPlain(dir);
    StripOfPlain(b);
    LastSlashIs(b, -1);
    assert b[0..] == b;
  }

  // ----- only ".." -----

  /** "../../..", n + 1 times "..". */
  function Ups(n: nat): Text {
    if n == 0 then UP else Ups(n - 1) + [SLASH] + UP
  }

  /** Every ".." takes one name off, down to the root. */
  lemma {:induction false} UpsWalk(tree: Tree, from: Path, n: nat)
    requires WellFormed(tree) && IsDir(tree, from)
    ensures Walk(tree, from, Split(Ups(n))) == Some(from[..if n + 1 <= |from| then |from| - n - 1 else 0])
  {
    hide Walk, SplitOn, WellFormed;
    SplitPlain(UP);
    var k := if n <= |from| then |from| - n else 0;
    Ancestors(tree, from, k);
    assert from[..|from|] == from;
    if n > 0 {
      UpsWalk(tree, from, n - 1);
      SplitAtSlash(Ups(n - 1), UP);
      WalkConcat(tree, from, Split(Ups(n - 1)), [UP]);
    }
    WalkOne(tree, from[..k], UP);
    if k > 0 {
      assert Parent(from[..k]) == from[..k - 1];
    }
  }

  /** A path of ".." alone never passes the home test, unless home is "/". */
  lemma UpsFail(tree: Tree, home: Path, n: nat)
    requires WellFormed(tree) && Canonical(home) && IsDir(tree, home)
    ensures home != [] ==> Target(tree, home, Ups(n)) == None
    ensures home == [] && |Ups(n)| + 3 <= 4096 ==> Target(tree, home, Ups(n)) == Some([])
  {
    hide Walk, SplitOn, WellFormed, PathText, Ups;
    UpsWalk(tree, home, n);
    if home != [] {
      TextPrefixIsContainment(home, home[..if n + 1 <= |home| then |home| - n - 1 else 0]);
    } else {
      RootText();
    }
  }

  lemma RootText()
    ensures |PathText([])| == 1 && PathText([]) <= PathText([])
  {
  }

  // ----- a path that names no entry -----

  /** Nothing can be created under the name ".", nor under no name at all. */
  lemma HereIsNoPlace(tree: Tree, home: Path, front: Text)
    ensures NewPlace(tree, home, []) == None && NewPlace(tree, home, [DOT]) == None
    ensures NewPlace(tree, home, front + [SLASH] + [DOT]) == None
  {
    hide Walk, SplitOn, PathText, Dirname, Strip, LastSlash;
    var s := front + [SLASH] + [DOT];
    StripOfPlain(s);
    StripOfPlain([DOT]);
    LastSlashIs(s, |front|);
    LastSlashIs([DOT], -1);
    assert s[|front| + 1..] == [DOT];
    assert [DOT][0..] == [DOT];
  }
}
