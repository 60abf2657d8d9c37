/** What the client shows of a directory: the tree's nodes against the lines it parses and sorts. */
module Screen {
  import opened Bytes
  import opened Paths
  import opened FileTree
  import opened Listing
  import opened FileApi

  /** The line is a file's, with the length of its contents, or a directory's, with the size the host reports. */
  predicate LineDescribes(tree: Tree, d: Path, dirSize: Path -> nat, l: DirLine) {
    && l.fName != [DOT, 99, 97, 112, 101] && d + [l.fName] in tree
    && match tree[d + [l.fName]]
       case File(data) => l.fType == [91, 70, 93] && l.size == |data|
       case Dir => l.fType == [91, 68, 93] && l.size == dirSize(d + [l.fName])
       case Special => false
  }

  /** Directories stand before files, and either by descending size. */
  ghost predicate InScreenOrder(ls: seq<DirLine>) {
    forall i, j | 0 <= i < j < |ls| ::
      if ls[i].fType == ls[j].fType then ls[i].size >= ls[j].size
      else ls[i].fType == [91, 68, 93] && ls[j].fType == [91, 70, 93]
  }

  ghost predicate Once(ls: seq<DirLine>) {
    forall i, j | 0 <= i < j < |ls| :: ls[i].fName != ls[j].fName
  }

  ghost predicate Covers(tree: Tree, d: Path, ls: seq<DirLine>) {
    forall n | IsListed(tree, d, n) :: exists i :: 0 <= i < |ls| && ls[i].fName == n
  }

  /** Every regular file and every directory but ".cape" has exactly one line, nothing else has one, and the lines
      stand in order. */
  ghost predicate ShowsDirectory(tree: Tree, d: Path, dirSize: Path -> nat, ls: seq<DirLine>) {
    && (forall i | 0 <= i < |ls| :: LineDescribes(tree, d, dirSize, ls[i]))
    && Once(ls) && Covers(tree, d, ls) && InScreenOrder(ls)
  }

  /** _parse_dir of a payload: the lines, sorted, or None where it raises. */
  function ClientLines(payload: Text): Option<seq<DirLine>> {
    match ParseLines(SplitOn(payload, NEWLINE)) case None => None case Some(ls) => Some(Sort(ls))
  }

  /** The client shows exactly this directory. */
  ghost predicate ClientSees(tree: Tree, d: Path, dirSize: Path -> nat, payload: Text) {
    ClientLines(payload).Some? && ShowsDirectory(tree, d, dirSize, ClientLines(payload).value)
  }

  /** No name to show has a line's separators. */
  ghost predicate AllListedClean(tree: Tree, d: Path) {
    forall n | IsListed(tree, d, n) :: Clean(n)
  }

  // ----- the printed entries -----

  lemma LinesDescribe(tree: Tree, d: Path, names: seq<Name>, dirSize: Path -> nat)
    requires WellFormed(tree) && IsReadDir(names, tree, d)
    ensures var ls := LinesOf(Entries(tree, d, names, dirSize));
      && (forall i | 0 <= i < |ls| :: LineDescribes(tree, d, dirSize, ls[i]))
      && Once(ls) && Covers(tree, d, ls)
  {
    hide WellFormed, Entries, Describes, LineDescribes, Covers;
    var es := Entries(tree, d, names, dirSize);
    var ls := LinesOf(es);
    EntriesAreShown(tree, d, names, dirSize);
    EntriesAreDistinct(tree, d, names, dirSize);
    forall i | 0 <= i < |ls| ensures LineDescribes(tree, d, dirSize, ls[i]) {
      assert es[i] in es;
      DescribedLine(tree, d, dirSize, es[i]);
    }
    LinesCover(tree, d, names, dirSize);
  }

  lemma DescribedLine(tree: Tree, d: Path, dirSize: Path -> nat, e: Entry)
    requires Describes(tree, d, dirSize, e)
    ensures LineDescribes(tree, d, dirSize, LineOf(e))
  {
  }

  lemma LinesCover(tree: Tree, d: Path, names: seq<Name>, dirSize: Path -> nat)
    requires WellFormed(tree) && IsReadDir(names, tree, d)
    ensures Covers(tree, d, LinesOf(Entries(tree, d, names, dirSize)))
  {
    hide WellFormed, Entries, IsListed, IsReadDir, Describes;
    var es := Entries(tree, d, names, dirSize);
    var ls := LinesOf(es);
    EntriesAreShown(tree, d, names, dirSize);
    forall n | IsListed(tree, d, n) ensures exists i :: 0 <= i < |ls| && ls[i].fName == n {
      ListedIsRead(tree, d, names, n);
      var e :| e in es && e.name == n;
      var i :| 0 <= i < |es| && es[i] == e;
      assert ls[i].fName == n;
    }
  }

  lemma ListedIsRead(tree: Tree, d: Path, names: seq<Name>, n: Name)
    requires WellFormed(tree) && IsReadDir(names, tree, d) && IsListed(tree, d, n)
    ensures n in names && n != [DOT] && n != [DOT, DOT]
  {
    EntryOfParent(tree, d + [n]);
    assert Parent(d + [n]) == d;
  }

  predicate EntriesClean(es: seq<Entry>) {
    forall i | 0 <= i < |es| :: Clean(es[i].name)
  }

  lemma ListedAreEntries(tree: Tree, d: Path, names: seq<Name>, dirSize: Path -> nat)
    requires WellFormed(tree) && IsReadDir(names, tree, d) && AllListedClean(tree, d)
    ensures EntriesClean(Entries(tree, d, names, dirSize))
  {
    hide WellFormed, Entries, Clean;
    var es := Entries(tree, d, names, dirSize);
    EntriesAreShown(tree, d, names, dirSize);
    forall i | 0 <= i < |es| ensures Clean(es[i].name) {
      assert es[i] in es;
      assert IsListed(tree, d, es[i].name);
    }
  }

  // ----- sorting moves lines only -----

  lemma SameLines(a: seq<DirLine>, b: seq<DirLine>)
    requires multiset(a) == multiset(b)
    ensures forall l :: l in a <==> l in b
    ensures |a| == |b|
  {
    assert forall l :: l in a <==> l in multiset(a);
    assert |multiset(a)| == |a| && |multiset(b)| == |b|;
  }

  lemma {:induction false} OnceCounts(ls: seq<DirLine>, l: DirLine)
    requires Once(ls)
    ensures multiset(ls)[l] <= 1
  {
    if ls != [] {
      assert ls == [ls[0]] + ls[1..];
      assert forall i | 0 <= i < |ls[1..]| :: ls[1..][i] == ls[i + 1] && ls[i + 1] != ls[0];
      assert ls[0] !in ls[1..];
      OnceCounts(ls[1..], l);
    }
  }

  lemma TwiceCounts(ls: seq<DirLine>, i: nat, j: nat)
    requires i < j < |ls| && ls[i] == ls[j]
    ensures multiset(ls)[ls[i]] >= 2
  {
    assert ls == ls[..j] + [ls[j]] + ls[j + 1..];
    assert ls[i] in ls[..j] by {
      assert ls[..j][i] == ls[i];
    }
  }

  lemma SortedOnce(tree: Tree, d: Path, dirSize: Path -> nat, a: seq<DirLine>, b: seq<DirLine>)
    requires multiset(a) == multiset(b) && Once(a)
    requires forall i | 0 <= i < |b| :: LineDescribes(tree, d, dirSize, b[i])
    ensures Once(b)
  {
    forall i, j | 0 <= i < j < |b| ensures b[i].fName != b[j].fName {
      if b[i].fName == b[j].fName {
        assert LineDescribes(tree, d, dirSize, b[i]) && LineDescribes(tree, d, dirSize, b[j]);
        TwiceCounts(b, i, j);
        OnceCounts(a, b[i]);
      }
    }
  }

  lemma SortedOrder(ls: seq<DirLine>)
    requires Sorted(ls)
    requires forall i | 0 <= i < |ls| :: ls[i].fType == [91, 70, 93] || ls[i].fType == [91, 68, 93]
    ensures InScreenOrder(ls)
  {
    FilesAreNotFirst();
  }

  lemma FilesAreNotFirst()
    ensures !TextLeq([91, 70, 93], [91, 68, 93])
  {
    assert [91, 70, 93][1..] == [70, 93] && [91, 68, 93][1..] == [68, 93];
  }

  lemma SortShows(tree: Tree, d: Path, dirSize: Path -> nat, ls: seq<DirLine>)
    requires forall i | 0 <= i < |ls| :: LineDescribes(tree, d, dirSize, ls[i])
    requires Once(ls) && Covers(tree, d, ls)
    ensures ShowsDirectory(tree, d, dirSize, Sort(ls))
  {
    hide IsListed, Once, Sort, Sorted;
    var sorted := Sort(ls);
    SortSorts(ls);
    SameLines(sorted, ls);
    forall i | 0 <= i < |sorted| ensures LineDescribes(tree, d, dirSize, sorted[i]) {
      assert sorted[i] in ls;
    }
    SortedOnce(tree, d, dirSize, ls, sorted);
    forall n | IsListed(tree, d, n) ensures exists i :: 0 <= i < |sorted| && sorted[i].fName == n {
      var i :| 0 <= i < |ls| && ls[i].fName == n;
      assert ls[i] in sorted;
      var k :| 0 <= k < |sorted| && sorted[k] == ls[i];
    }
    SortedOrder(sorted);
  }

  lemma ParsedAreClean(payload: Text)
    ensures ClientLines(payload).Some? ==> forall l | l in ClientLines(payload).value :: Clean(l.fName)
  {
    hide ParseLines, SplitOn, Clean, Sort, Sorted;
    var lines := ParseLines(SplitOn(payload, NEWLINE));
    if lines.Some? {
      ParsedNamesAreClean(SplitOn(payload, NEWLINE));
      SortSorts(lines.value);
      SameLines(Sort(lines.value), lines.value);
    }
  }

  /** The client shows the directory, file by file, exactly when no name to show holds a ':' or a newline. */
  lemma ListingShowsDirectory(tree: Tree, d: Path, names: seq<Name>, dirSize: Path -> nat)
    requires WellFormed(tree) && IsReadDir(names, tree, d)
    ensures ClientSees(tree, d, dirSize, PrintListing(Entries(tree, d, names, dirSize))) <==> AllListedClean(tree, d)
  {
    hide WellFormed, IsReadDir, Entries, PrintListing, ParseLines, SplitOn, IsListed, LineDescribes, Sort;
    var es := Entries(tree, d, names, dirSize);
    var shown := ClientLines(PrintListing(es));
    if AllListedClean(tree, d) {
      ListedAreEntries(tree, d, names, dirSize);
      ParsePrinted(es);
      LinesDescribe(tree, d, names, dirSize);
      SortShows(tree, d, dirSize, LinesOf(es));
    }
    if shown.Some? && ShowsDirectory(tree, d, dirSize, shown.value) {
      ParsedAreClean(PrintListing(es));
      forall n | IsListed(tree, d, n) ensures Clean(n) {
        var i :| 0 <= i < |shown.value| && shown.value[i].fName == n;
        assert shown.value[i] in shown.value;
      }
    }
  }
}
