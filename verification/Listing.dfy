/** The directory listing: f_list_dir prints it on the server, _parse_dir reads it on the client. */
module Listing {
  import opened Bytes

  datatype Kind = Regular | Directory

  datatype Entry = Entry(kind: Kind, size: nat, name: Text)

  const OPEN: Byte := 91
  const CLOSE: Byte := 93

  /** "[F]" or "[D]". */
  function KindText(kind: Kind): Text {
    [OPEN, if kind == Regular then 70 else 68, CLOSE]
  }

  /** "[%s]:%ld:%s" without its newline. */
  function PrintLine(e: Entry): Text {
    KindText(e.kind) + [COLON] + Decimal(e.size) + [COLON] + e.name
  }

  function PrintListing(entries: seq<Entry>): Text {
    if entries == [] then [] else PrintLine(entries[0]) + [NEWLINE] + PrintListing(entries[1..])
  }

  lemma {:induction false} PrintListingSnoc(entries: seq<Entry>, e: Entry)
    ensures PrintListing(entries + [e]) == PrintListing(entries) + PrintLine(e) + [NEWLINE]
  {
    if entries == [] {
      assert ([] + [e])[1..] == [];
    } else {
      assert (entries + [e])[1..] == entries[1..] + [e];
      PrintListingSnoc(entries[1..], e);
    }
  }

  // ----- the raw buffer of f_list_dir -----

  const RAW_BUFFER := 1024

  /** The buffer is doubled when the name, one digit and four more bytes would reach its end: get_file_size
      reports one digit for every size. */
  function Grown(size: nat, offset: nat, name: Text): nat {
    if |name| + offset + 1 + 4 >= size then 2 * size else size
  }

  /** The size of the buffer once these entries are printed; None where a sprintf, its newline and NUL included,
      went past it. */
  function RawBuffer(entries: seq<Entry>): Option<nat> {
    if entries == [] then Some(RAW_BUFFER) else
      var front, e := entries[..|entries| - 1], entries[|entries| - 1];
      match RawBuffer(front)
      case None => None
      case Some(size) =>
        var offset, grown := |PrintListing(front)|, Grown(size, |PrintListing(front)|, e.name);
        if offset + |PrintLine(e)| + 2 <= grown then Some(grown) else None
  }

  lemma RawBufferSnoc(entries: seq<Entry>, e: Entry)
    ensures RawBuffer(entries + [e])
         == match RawBuffer(entries)
            case None => None
            case Some(size) =>
              var offset, grown := |PrintListing(entries)|, Grown(size, |PrintListing(entries)|, e.name);
              if offset + |PrintLine(e)| + 2 <= grown then Some(grown) else None
  {
    assert (entries + [e])[..|entries|] == entries;
  }

  lemma {:induction false} RawBufferHolds(entries: seq<Entry>)
    ensures RawBuffer(entries).Some? ==>
      RAW_BUFFER <= RawBuffer(entries).value && |PrintListing(entries)| < RawBuffer(entries).value
  {
    hide PrintLine, PrintListing;
    if entries == [] {
      assert |PrintListing(entries)| == 0 by {
        EmptyListing();
      }
    } else {
      var front, e := entries[..|entries| - 1], entries[|entries| - 1];
      RawBufferHolds(front);
      assert entries == front + [e];
      PrintListingSnoc(front, e);
    }
  }

  lemma EmptyListing()
    ensures PrintListing([]) == []
  {
  }

  /** The next entry goes past the buffer exactly when the guard lets its record through by counting one digit of
      a size that has more, or by not counting the three bytes around the type. Names and sizes are those a host
      can have. */
  lemma RawOverrunIff(entries: seq<Entry>, e: Entry)
    requires RawBuffer(entries).Some? && |e.name| <= 255 && |Decimal(e.size)| <= 20
    ensures var size, offset, digits := RawBuffer(entries).value, |PrintListing(entries)|, |Decimal(e.size)|;
            RawBuffer(entries + [e]).None?
            <==> size < offset + |e.name| + digits + 7 && offset + |e.name| + 5 < size
  {
    hide PrintListing, Decimal;
    RawBufferHolds(entries);
    RawBufferSnoc(entries, e);
  }

  /** The input: four files of one-digit size whose names have 249 bytes. The last NUL falls behind the buffer. */
  lemma FourNamesOverrun(entries: seq<Entry>)
    requires |entries| == 4 && forall i | 0 <= i < 4 :: |entries[i].name| == 249 && entries[i].size < 10
    ensures RawBuffer(entries).None?
  {
    hide PrintListing, RawBuffer, Grown;
    var e := entries;
    assert forall i | 0 <= i < 4 :: |PrintLine(e[i])| == 255;
    EmptyListing();
    EmptyRawBuffer();
    LongNameStep([], e[0], 0);
    LongNameStep([] + [e[0]], e[1], 256);
    LongNameStep([] + [e[0]] + [e[1]], e[2], 512);
    var three := [] + [e[0]] + [e[1]] + [e[2]];
    assert entries == three + [e[3]];
    RawBufferSnoc(three, e[3]);
    assert Grown(1024, 768, e[3].name) == 1024 by {
      GrownUnlessClose(1024, 768, e[3].name);
    }
  }

  lemma EmptyRawBuffer()
    ensures RawBuffer([]) == Some(RAW_BUFFER)
  {
  }

  lemma GrownUnlessClose(size: nat, offset: nat, name: Text)
    ensures |name| + offset + 5 < size ==> Grown(size, offset, name) == size
  {
  }

  lemma LongNameStep(front: seq<Entry>, e: Entry, offset: nat)
    requires |PrintListing(front)| == offset <= 512 && RawBuffer(front) == Some(RAW_BUFFER)
    requires |PrintLine(e)| == 255 && |e.name| == 249
    ensures |PrintListing(front + [e])| == offset + 256 && RawBuffer(front + [e]) == Some(RAW_BUFFER)
  {
    hide PrintListing, PrintLine, RawBuffer;
    PrintListingSnoc(front, e);
    RawBufferSnoc(front, e);
  }

  // ----- the client's reading -----

  /** DirList. */
  datatype DirLine = DirLine(fType: Text, size: nat, fName: Text)

  /** file.split(":") into exactly three, the second all digits; anything else raises ValueError. */
  function ParseLine(line: Text): Option<DirLine> {
    var parts := SplitOn(line, COLON);
    if |parts| == 3 && parts[1] != [] && AllDigits(parts[1])
    then Some(DirLine(parts[0], DigitsValue(parts[1]), parts[2]))
    else None
  }

  /** The lines up to the first empty one. */
  function ParseLines(lines: seq<Text>): Option<seq<DirLine>> {
    if lines == [] || lines[0] == [] then Some([])
    else match ParseLine(lines[0])
      case None => None
      case Some(l) =>
        match ParseLines(lines[1..])
        case None => None
        case Some(ls) => Some([l] + ls)
  }

  // ----- list.sort(key = (f_type, -size)) -----

  predicate TextLeq(a: Text, b: Text) {
    a == [] || (b != [] && (a[0] < b[0] || (a[0] == b[0] && TextLeq(a[1..], b[1..]))))
  }

  predicate KeyLeq(x: DirLine, y: DirLine) {
    if x.fType == y.fType then x.size >= y.size else TextLeq(x.fType, y.fType)
  }

  ghost predicate Sorted(ls: seq<DirLine>) {
    forall i, j | 0 <= i < j < |ls| :: KeyLeq(ls[i], ls[j])
  }

  lemma {:induction false} TextLeqTotal(a: Text, b: Text)
    ensures TextLeq(a, b) || TextLeq(b, a)
    ensures TextLeq(a, b) && TextLeq(b, a) ==> a == b
  {
    if a != [] && b != [] && a[0] == b[0] {
      TextLeqTotal(a[1..], b[1..]);
      assert a == [a[0]] + a[1..] && b == [b[0]] + b[1..];
    }
  }

  lemma {:induction false} TextLeqTransitive(a: Text, b: Text, c: Text)
    requires TextLeq(a, b) && TextLeq(b, c)
    ensures TextLeq(a, c)
  {
    if a != [] && a[0] == b[0] == c[0] {
      TextLeqTransitive(a[1..], b[1..], c[1..]);
    }
  }

  lemma KeyLeqTransitive(x: DirLine, y: DirLine, z: DirLine)
    requires KeyLeq(x, y) && KeyLeq(y, z)
    ensures KeyLeq(x, z)
  {
    if x.fType != y.fType && y.fType != z.fType {
      TextLeqTransitive(x.fType, y.fType, z.fType);
      TextLeqTotal(x.fType, y.fType);
    }
  }

  function Insert(x: DirLine, ls: seq<DirLine>): seq<DirLine> {
    if ls == [] || KeyLeq(x, ls[0]) then [x] + ls else [ls[0]] + Insert(x, ls[1..])
  }

  function Sort(ls: seq<DirLine>): seq<DirLine> {
    if ls == [] then [] else Insert(ls[0], Sort(ls[1..]))
  }

  lemma {:induction false} InsertKeeps(x: DirLine, ls: seq<DirLine>)
    requires Sorted(ls)
    ensures Sorted(Insert(x, ls))
    ensures multiset(Insert(x, ls)) == multiset{x} + multiset(ls)
  {
    if ls != [] {
      assert ls == [ls[0]] + ls[1..];
      if KeyLeq(x, ls[0]) {
        forall i | 0 <= i < |ls| ensures KeyLeq(x, ls[i]) {
          if i > 0 {
            KeyLeqTransitive(x, ls[0], ls[i]);
          }
        }
      } else {
        TextLeqTotal(x.fType, ls[0].fType);
        var rest := Insert(x, ls[1..]);
        InsertKeeps(x, ls[1..]);
        forall i | 0 <= i < |rest| ensures KeyLeq(ls[0], rest[i]) {
          assert rest[i] in multiset(rest);
          assert rest[i] == x || rest[i] in ls[1..];
        }
      }
    }
  }

  /** Sorting orders by type, then by descending size, and loses nothing. */
  lemma {:induction false} SortSorts(ls: seq<DirLine>)
    ensures Sorted(Sort(ls))
    ensures multiset(Sort(ls)) == multiset(ls)
  {
    if ls != [] {
      SortSorts(ls[1..]);
      InsertKeeps(ls[0], Sort(ls[1..]));
      assert ls == [ls[0]] + ls[1..];
    }
  }

  /** _parse_dir: the sorted lines, or None where it raises. */
  method ParseDir(listing: Text) returns (dirObjs: Option<seq<DirLine>>)
    ensures dirObjs == match ParseLines(SplitOn(listing, NEWLINE)) case None => None case Some(ls) => Some(Sort(ls))
  {
    var lines := SplitOn(listing, NEWLINE);
    var objs: seq<DirLine> := [];
    var i := 0;
    assert lines[0..] == lines;
    assert ParseLines(lines).Some? ==> [] + ParseLines(lines).value == ParseLines(lines).value;
    while i < |lines| && lines[i] != []
      invariant i <= |lines|
      invariant ParseLines(lines) == Prepend(objs, ParseLines(lines[i..]))
    {
      var parts := SplitOn(lines[i], COLON);
      if |parts| != 3 || parts[1] == [] || !AllDigits(parts[1]) {
        return None;
      }
      var obj := DirLine(parts[0], DigitsValue(parts[1]), parts[2]);
      PrependOne(objs, obj, ParseLines(lines[i + 1..]));
      assert lines[i..][1..] == lines[i + 1..];
      objs := objs + [obj];
      i := i + 1;
    }
    assert objs + [] == objs;
    return Some(Sort(objs));
  }

  function Prepend(ls: seq<DirLine>, r: Option<seq<DirLine>>): Option<seq<DirLine>> {
    match r case None => None case Some(rest) => Some(ls + rest)
  }

  lemma PrependOne(ls: seq<DirLine>, l: DirLine, r: Option<seq<DirLine>>)
    ensures Prepend(ls, Prepend([l], r)) == Prepend(ls + [l], r)
  {
    if r.Some? {
      assert ls + ([l] + r.value) == (ls + [l]) + r.value;
    }
  }

  // ----- reading inverts printing -----

  function LineOf(e: Entry): DirLine {
    DirLine(KindText(e.kind), e.size, e.name)
  }

  function LinesOf(entries: seq<Entry>): (ls: seq<DirLine>)
    ensures |ls| == |entries| && forall i | 0 <= i < |ls| :: ls[i] == LineOf(entries[i])
  {
    if entries == [] then [] else [LineOf(entries[0])] + LinesOf(entries[1..])
  }

  lemma ParsePrintedLine(e: Entry)
    requires Clean(e.name)
    ensures ParseLine(PrintLine(e)) == Some(LineOf(e))
  {
    hide SplitOn, DigitsValue, Decimal;
    var k, d := KindText(e.kind), Decimal(e.size);
    assert PrintLine(e) == k + [COLON] + (d + [COLON] + e.name);
    SplitOnConcat(k, d + [COLON] + e.name, COLON);
    SplitOnConcat(d, e.name, COLON);
    SplitOnLast(k, COLON);
    SplitOnLast(d, COLON);
    SplitOnLast(e.name, COLON);
    assert SplitOn(PrintLine(e), COLON) == [k, d, e.name];
    DecimalValue(e.size);
  }

  lemma {:induction false} ParsePrinted(entries: seq<Entry>)
    requires forall i | 0 <= i < |entries| :: Clean(entries[i].name)
    ensures ParseLines(SplitOn(PrintListing(entries), NEWLINE)) == Some(LinesOf(entries))
  {
    hide SplitOn, ParseLine;
    if entries == [] {
      SplitOnLast([], NEWLINE);
    } else {
      var line := PrintLine(entries[0]);
      var rest := PrintListing(entries[1..]);
      SplitOnConcat(line, rest, NEWLINE);
      SplitOnLast(line, NEWLINE);
      ParsePrintedLine(entries[0]);
      ParsePrinted(entries[1..]);
      assert ([line] + SplitOn(rest, NEWLINE))[1..] == SplitOn(rest, NEWLINE);
    }
  }

  lemma {:induction false} ParsedNamesAreClean(lines: seq<Text>)
    requires forall l | l in lines :: NEWLINE !in l
    ensures var r := ParseLines(lines);
            r.Some? ==> forall l | l in r.value :: Clean(l.fName)
  {
    if lines != [] && lines[0] != [] && ParseLines(lines).Some? {
      ParsedNamesAreClean(lines[1..]);
      LineNameIsClean(lines[0]);
    }
  }

  lemma LineNameIsClean(line: Text)
    requires NEWLINE !in line
    ensures ParseLine(line).Some? ==> Clean(ParseLine(line).value.fName)
  {
    PiecesAreParts(line, COLON);
    var parts := SplitOn(line, COLON);
    assert |parts| == 3 ==> parts[2] in parts;
  }

  lemma {:induction false} PiecesAreParts(s: Text, sep: Byte)
    ensures forall piece | piece in SplitOn(s, sep) :: forall b | b in piece :: b in s
    decreases |s|
  {
    var i := Find(s, sep);
    if i < |s| {
      PiecesAreParts(s[i + 1..], sep);
    }
  }

  /** The client shows every listed entry, with its type, size and name, exactly when no name contains a
      colon or a newline. */
  lemma ListingRoundTrip(entries: seq<Entry>)
    ensures (var r := ParseLines(SplitOn(PrintListing(entries), NEWLINE));
             r.Some? && multiset(Sort(r.value)) == multiset(LinesOf(entries)))
       <==> forall i | 0 <= i < |entries| :: Clean(entries[i].name)
  {
    var r := ParseLines(SplitOn(PrintListing(entries), NEWLINE));
    if forall i | 0 <= i < |entries| :: Clean(entries[i].name) {
      ParsePrinted(entries);
      SortSorts(r.value);
    } else if r.Some? && multiset(Sort(r.value)) == multiset(LinesOf(entries)) {
      ParsedNamesAreClean(SplitOn(PrintListing(entries), NEWLINE));
      SortSorts(r.value);
      forall i | 0 <= i < |entries| ensures Clean(entries[i].name) {
        assert LinesOf(entries)[i] in multiset(LinesOf(entries));
        assert LinesOf(entries)[i] in r.value;
      }
    }
  }
}
