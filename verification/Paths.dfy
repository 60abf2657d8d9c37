/** Path text: splitting, dirname, basename and the text of a canonical path. */
module Paths {
  import opened Bytes

  type Name = Text
  type Path = seq<Name>

  predicate ValidName(n: Name) {
    n != [] && SLASH !in n && NUL !in n && n != [DOT] && n != [DOT, DOT]
  }

  /** The components between slashes, empty ones included. */
  function Split(s: Text): seq<Name> {
    SplitOn(s, SLASH)
  }

  lemma SplitAtSlash(a: Text, b: Text)
    ensures Split(a + [SLASH] + b) == Split(a) + Split(b)
  {
    SplitOnConcat(a, b, SLASH);
  }

  lemma SplitPlain(s: Text)
    requires SLASH !in s
    ensures Split(s) == [s]
  {
    SplitOnLast(s, SLASH);
  }

  // ----- dirname and basename -----

  /** `s` without its trailing slashes. */
  function Strip(s: Text): (t: Text)
    ensures t <= s
    ensures t != [] ==> t[|t| - 1] != SLASH
    ensures s == [] || s[|s| - 1] != SLASH ==> t == s
    ensures forall i | |t| <= i < |s| :: s[i] == SLASH
  {
    if s != [] && s[|s| - 1] == SLASH then Strip(s[..|s| - 1]) else s
  }

  function LastSlash(s: Text): (i: int)
    ensures -1 <= i < |s|
    ensures i >= 0 ==> s[i] == SLASH
    ensures forall j | i < j < |s| :: s[j] != SLASH
  {
    if s == [] then -1 else if s[|s| - 1] == SLASH then |s| - 1 else LastSlash(s[..|s| - 1])
  }

  /** What follows the last slash. */
  function AfterLastSlash(s: Text): (b: Text)
    ensures SLASH !in b && |b| <= |s|
    ensures s != [] && s[|s| - 1] != SLASH ==> b != []
  {
    s[LastSlash(s) + 1..]
  }

  lemma LastSlashIs(s: Text, i: int)
    requires -1 <= i < |s| && (i >= 0 ==> s[i] == SLASH)
    requires forall j | i < j < |s| :: s[j] != SLASH
    ensures LastSlash(s) == i
  {
  }

  lemma StripOfPlain(s: Text)
    requires s == [] || s[|s| - 1] != SLASH
    ensures Strip(s) == s
  {
  }

  function Basename(s: Text): (b: Text)
    ensures b != [] && (b == [SLASH] || SLASH !in b)
  {
    if s == [] then [DOT] else
      var t := Strip(s);
      if t == [] then [SLASH] else AfterLastSlash(t)
  }

  function Dirname(s: Text): (d: Text)
    ensures d != []
  {
    if s == [] then [DOT] else
      var t := Strip(s);
      if t == [] then [SLASH] else
        var i := LastSlash(t);
        if i < 0 then [DOT] else
          var u := Strip(t[..i]);
          if u == [] then [SLASH] else u
  }

  predicate EndsWithSlash(s: Text) {
    s != [] && s[|s| - 1] == SLASH
  }

  /** Dirname and basename together are no longer than the path, except where the dirname is "." or "/". */
  lemma DirBaseLengths(s: Text)
    requires s != []
    ensures |Dirname(s)| <= |s| && |Basename(s)| <= |s|
    ensures Dirname(s) == [DOT] || Dirname(s) == [SLASH] || |Dirname(s)| + 1 + |Basename(s)| <= |s|
  {
    hide Strip, LastSlash;
    var t := Strip(s);
    if t != [] {
      var i := LastSlash(t);
      if i >= 0 {
        var u := Strip(t[..i]);
        assert |u| <= i && |AfterLastSlash(t)| == |t| - i - 1;
      }
    }
  }

  // ----- the text of a canonical path -----

  function Slashed(p: Path): Text {
    if p == [] then [] else [SLASH] + p[0] + Slashed(p[1..])
  }

  function PathText(p: Path): Text {
    if p == [] then [SLASH] else Slashed(p)
  }

  lemma {:induction false} SlashedConcat(a: Path, b: Path)
    ensures Slashed(a + b) == Slashed(a) + Slashed(b)
  {
    if a == [] {
      assert a + b == b;
    } else {
      assert (a + b)[1..] == a[1..] + b;
      SlashedConcat(a[1..], b);
    }
  }

  predicate PlainNames(p: Path) {
    forall i | 0 <= i < |p| :: p[i] != [] && SLASH !in p[i]
  }

  /** What realpath can give. */
  predicate Canonical(p: Path)
    ensures Canonical(p) ==> PlainNames(p)
  {
    forall i | 0 <= i < |p| :: ValidName(p[i])
  }

  lemma {:induction false} SplitSlashed(p: Path)
    requires PlainNames(p)
    ensures Split(Slashed(p)) == [[]] + p
  {
    if p == [] {
      SplitPlain([]);
    } else {
      var front, last := p[..|p| - 1], p[|p| - 1];
      SplitSlashed(front);
      SlashedConcat(front, [last]);
      SlashedOne(last);
      assert p == front + [last];
      assert Slashed(p) == Slashed(front) + [SLASH] + last;
      SplitAtSlash(Slashed(front), last);
      SplitPlain(last);
    }
  }

  lemma SlashedOne(n: Name)
    ensures Slashed([n]) == [SLASH] + n
  {
    var p := [n];
    assert p[1..] == [];
  }

  /** join_paths: one slash between the two unless the child brings it. */
  function Join(root: Text, child: Text): Text {
    if child != [] && child[0] == SLASH then root + child else root + [SLASH] + child
  }

  // ----- the home test: a byte prefix against a component prefix -----

  /** A sibling's name may extend the name of the last component of home. */
  predicate SiblingOf(home: Path, p: Path) {
    && home != [] && |p| >= |home|
    && p[..|home| - 1] == home[..|home| - 1]
    && home[|home| - 1] < p[|home| - 1]
  }

  lemma {:induction false} PrefixOfSlashed(home: Path, p: Path)
    requires PlainNames(home) && PlainNames(p)
    ensures Slashed(home) <= Slashed(p) <==> home <= p || SiblingOf(home, p)
    decreases |home|
  {
    hide Slashed;
    if home == [] {
      SlashedHead([]);
    } else if p == [] {
      SlashedHead([]);
      SlashedHead(home);
    } else {
      var h, t := home[1..], p[1..];
      PrefixOfSlashed(h, t);
      FirstComponents(home, p);
      assert home == [home[0]] + h && p == [p[0]] + t;
      if h == [] {
        assert |home| == 1 && p[..0] == home[..0];
        assert home <= p <==> home[0] == p[0];
        assert home[0] <= p[0] <==> home[0] == p[0] || home[0] < p[0];
      } else {
        SiblingTail(home, p);
      }
    }
  }

  lemma SiblingTail(home: Path, p: Path)
    requires |home| >= 2 && p != []
    ensures home <= p <==> home[0] == p[0] && home[1..] <= p[1..]
    ensures SiblingOf(home, p) <==> home[0] == p[0] && SiblingOf(home[1..], p[1..])
  {
    if |p| >= |home| {
      var hf, pf := home[..|home| - 1], p[..|home| - 1];
      assert hf == [home[0]] + home[1..][..|home| - 2];
      assert pf == [p[0]] + p[1..][..|home| - 2];
    }
  }

  lemma SlashedHead(p: Path)
    ensures p == [] ==> Slashed(p) == []
    ensures p != [] ==> Slashed(p) == [SLASH] + (p[0] + Slashed(p[1..])) && Slashed(p)[0] == SLASH
  {
  }

  lemma FirstComponents(home: Path, p: Path)
    requires home != [] && p != []
    requires SLASH !in home[0] && SLASH !in p[0]
    ensures home[1..] != [] ==>
      (Slashed(home) <= Slashed(p) <==> home[0] == p[0] && Slashed(home[1..]) <= Slashed(p[1..]))
    ensures home[1..] == [] ==> (Slashed(home) <= Slashed(p) <==> home[0] <= p[0])
  {
    hide Slashed;
    SlashedHead(home);
    SlashedHead(p);
    SlashedHead(home[1..]);
    SlashedHead(p[1..]);
    SlashPrefix(home[0], Slashed(home[1..]), p[0], Slashed(p[1..]));
    ConsPrefix(home[0] + Slashed(home[1..]), p[0] + Slashed(p[1..]));
  }

  lemma ConsPrefix(u: Text, v: Text)
    ensures [SLASH] + u <= [SLASH] + v <==> u <= v
  {
    if [SLASH] + u <= [SLASH] + v {
      assert ([SLASH] + u)[1..] == u && ([SLASH] + v)[1..] == v;
      assert forall i | 0 <= i < |u| :: u[i] == ([SLASH] + u)[i + 1] == ([SLASH] + v)[i + 1] == v[i];
    }
  }

  /** Two slash-free heads, each followed by nothing or a slash. */
  lemma SlashPrefix(a: Text, x: Text, b: Text, y: Text)
    requires SLASH !in a && SLASH !in b
    requires x == [] || x[0] == SLASH
    requires y == [] || y[0] == SLASH
    ensures x != [] ==> (a + x <= b + y <==> a == b && x <= y)
    ensures x == [] ==> (a + x <= b + y <==> a <= b)
  {
    if a + x <= b + y {
      assert forall i | 0 <= i < |a| :: a[i] == (a + x)[i] == (b + y)[i];
      assert y != [] ==> (b + y)[|b|] == SLASH;
      assert |a| <= |b|;
      assert a <= b;
      if x != [] {
        assert (a + x)[|a|] == SLASH == (b + y)[|a|];
        assert |a| == |b|;
        assert (a + x)[|a|..] == x && (b + y)[|a|..] == y;
        assert forall i | 0 <= i < |x| :: x[i] == (a + x)[|a| + i] == (b + y)[|a| + i] == y[i];
      }
    }
  }

  /** strncmp on the two texts is containment exactly when no sibling's name extends home's. */
  lemma TextPrefixIsContainment(home: Path, p: Path)
    requires PlainNames(home) && PlainNames(p)
    ensures PathText(home) <= PathText(p) <==> home <= p || SiblingOf(home, p)
  {
    PrefixOfSlashed(home, p);
    SlashedHead(home);
    SlashedHead(p);
  }
}
