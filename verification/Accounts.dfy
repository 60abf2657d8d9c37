/** The text form of the user table: one "name:permission:hash" line an account. */
module Accounts {
  import opened Bytes
  import Hex

  const MIN_USERNAME_LEN := 3
  const MAX_USERNAME_LEN := 20
  const MIN_PASSWD_LEN := 6
  const MAX_PASSWD_LEN := 32
  const DIGEST_TEXT_LEN := 64

  const READ: Byte := 1
  const READ_WRITE: Byte := 2
  const ADMIN: Byte := 3

  datatype Account = Account(permission: Byte, hash: Text)

  type Table = map<Text, Account>

  // ----- printing -----

  /** "%s:%hhu:%s\n". */
  function PrintRecord(name: Text, a: Account): Text {
    name + [COLON] + Decimal(a.permission) + [COLON] + Hex.Print(a.hash) + [NEWLINE]
  }

  function PrintTable(order: seq<Text>, users: Table): Text
    requires forall n | n in order :: n in users
  {
    if order == [] then [] else PrintRecord(order[0], users[order[0]]) + PrintTable(order[1..], users)
  }

  /** What one record adds to `char_count`: one permission digit, two colons, newline and NUL. */
  function RecordBudget(name: Text, a: Account): nat {
    |name| + 2 * |a.hash| + 5
  }

  function TableBudget(order: seq<Text>, users: Table): nat
    requires forall n | n in order :: n in users
  {
    if order == [] then 0 else RecordBudget(order[0], users[order[0]]) + TableBudget(order[1..], users)
  }

  /** One possible order of iteration over the hash table. */
  ghost predicate IsOrder(order: seq<Text>, users: Table) {
    && (forall i, j | 0 <= i < j < |order| :: order[i] != order[j])
    && (forall n | n in order :: n in users)
    && (forall n | n in users :: n in order)
  }

  lemma {:induction false} PrintTableConcat(a: seq<Text>, b: seq<Text>, users: Table)
    requires forall n | n in a :: n in users
    requires forall n | n in b :: n in users
    ensures PrintTable(a + b, users) == PrintTable(a, users) + PrintTable(b, users)
    ensures TableBudget(a + b, users) == TableBudget(a, users) + TableBudget(b, users)
  {
    hide PrintRecord, RecordBudget;
    if a == [] {
      assert a + b == b;
    } else {
      assert (a + b)[1..] == a[1..] + b;
      PrintTableConcat(a[1..], b, users);
    }
  }

  lemma PrintTableSnoc(order: seq<Text>, k: nat, users: Table)
    requires k < |order|
    requires forall n | n in order :: n in users
    ensures PrintTable(order[..k + 1], users) == PrintTable(order[..k], users) + PrintRecord(order[k], users[order[k]])
    ensures TableBudget(order[..k + 1], users)
         == TableBudget(order[..k], users) + RecordBudget(order[k], users[order[k]])
  {
    assert order[..k + 1] == order[..k] + [order[k]];
    PrintTableConcat(order[..k], [order[k]], users);
    var last := [order[k]];
    assert last[1..] == [];
    assert PrintTable(last[1..], users) == [];
  }

  // ----- exact buffer accounting -----

  /** The digits of the permissions that the size of the buffer does not count. */
  function ExtraDigits(order: seq<Text>, users: Table): nat
    requires forall n | n in order :: n in users
  {
    if order == [] then 0 else |Decimal(users[order[0]].permission)| - 1 + ExtraDigits(order[1..], users)
  }

  lemma {:induction false} BudgetAgainstPrinted(order: seq<Text>, users: Table)
    requires forall n | n in order :: n in users
    ensures TableBudget(order, users) + ExtraDigits(order, users) == |PrintTable(order, users)| + |order|
    ensures TableBudget(order, users) >= |order|
    ensures ExtraDigits(order, users) == 0 <==> forall n | n in order :: users[n].permission <= 9
  {
    if order != [] {
      BudgetAgainstPrinted(order[1..], users);
      assert forall n :: n in order <==> n == order[0] || n in order[1..];
    }
  }

  /** `char_count - accounts`: how much of the buffer goes to the file. */
  function WrittenSize(order: seq<Text>, users: Table): (size: nat)
    requires forall n | n in order :: n in users
    ensures size <= 4 + |PrintTable(order, users)|
  {
    BudgetAgainstPrinted(order, users);
    4 + TableBudget(order, users) - |order|
  }

  /** The last sprintf, its NUL included, ends inside the buffer. */
  predicate FitsBuffer(order: seq<Text>, users: Table)
    requires forall n | n in order :: n in users
  {
    order == [] || |PrintTable(order, users)| < TableBudget(order, users)
  }

  /** What goes to the file is the whole printed table exactly when every permission has one digit; the
      printing stays in the buffer exactly as long as there are fewer uncounted digits than accounts. */
  lemma WrittenSizeIsExact(order: seq<Text>, users: Table)
    requires IsOrder(order, users)
    ensures WrittenSize(order, users) == 4 + |PrintTable(order, users)|
       <==> forall n | n in users :: users[n].permission <= 9
    ensures FitsBuffer(order, users) <==> order == [] || ExtraDigits(order, users) < |order|
  {
    BudgetAgainstPrinted(order, users);
  }

  // ----- scanning one record: sscanf(segment, "%20[^:]:%hhu:%64[^\n]", ...) -----

  /** "%<width>[^stop]": how many bytes it takes. */
  function Span(s: Text, width: nat, stop: Byte): (k: nat)
    ensures k <= |s| && k <= width
    ensures forall i | 0 <= i < k :: s[i] != stop && s[i] != NUL
    ensures k == |s| || k == width || s[k] == stop || s[k] == NUL
  {
    if s == [] || width == 0 || s[0] == stop || s[0] == NUL then 0 else 1 + Span(s[1..], width - 1, stop)
  }

  lemma SpanIs(s: Text, width: nat, stop: Byte, k: nat)
    requires k <= |s| && k <= width
    requires forall i | 0 <= i < k :: s[i] != stop && s[i] != NUL
    requires k == |s| || k == width || s[k] == stop || s[k] == NUL
    ensures Span(s, width, stop) == k
  {
  }

  function SkipWhite(s: Text): (r: Text)
    ensures |r| <= |s|
  {
    if s != [] && IsSpace(s[0]) then SkipWhite(s[1..]) else s
  }

  const ULONG_LIMIT := 0x1_0000_0000_0000_0000

  /** strtoul cut to one byte. */
  function WrapByte(negative: bool, n: nat): Byte {
    if n >= ULONG_LIMIT then 255 else if negative then (256 - n % 256) % 256 else n % 256
  }

  /** The digits of "%hhu", at least one. */
  function ScanDigits(negative: bool, u: Text): Option<(Byte, Text)> {
    var k := DigitRun(u);
    if k == 0 then None else Some((WrapByte(negative, DigitsValue(u[..k])), u[k..]))
  }

  /** "%hhu": white space, an optional sign, digits. */
  function ScanNumber(s: Text): Option<(Byte, Text)> {
    var t := SkipWhite(s);
    var signed := t != [] && (t[0] == PLUS || t[0] == MINUS);
    ScanDigits(signed && t[0] == MINUS, if signed then t[1..] else t)
  }

  datatype Scan = Eof | Short | Record(name: Text, permission: Byte, hash: Text)

  /** ":%hhu:%64[^\n]" behind the name and its ':'. */
  function ScanFields(name: Text, z: Text): (r: Scan)
    ensures r.Record? ==> r.name == name && NEWLINE !in r.hash && 0 < |r.hash| <= DIGEST_TEXT_LEN
  {
    match ScanNumber(z)
    case None => Short
    case Some((permission, rest)) =>
      if rest == [] || rest[0] != COLON then Short else
        var h := Span(rest[1..], DIGEST_TEXT_LEN, NEWLINE);
        if h == 0 then Short else Record(name, permission, rest[1..][..h])
  }

  function ScanRecord(s: Text): (r: Scan)
    ensures r.Record? ==> COLON !in r.name && NUL !in r.name && 0 < |r.name| <= MAX_USERNAME_LEN
    ensures r.Record? ==> NEWLINE !in r.hash && 0 < |r.hash| <= DIGEST_TEXT_LEN
  {
    if s == [] || s[0] == NUL then Eof else
      var n := Span(s, MAX_USERNAME_LEN, COLON);
      if n == 0 || n == |s| || s[n] != COLON then Short else ScanFields(s[..n], s[n + 1..])
  }

  lemma ScanRecordIs(name: Text, z: Text)
    requires |name| <= MAX_USERNAME_LEN && COLON !in name && NUL !in name
    ensures ScanRecord(name + ([COLON] + z)) == if name == [] then Short else ScanFields(name, z)
  {
    hide ScanFields;
    var s := name + ([COLON] + z);
    SpanIs(s, MAX_USERNAME_LEN, COLON, |name|);
    assert s[..|name|] == name && s[|name| + 1..] == z;
  }

  // ----- the parsing loop of populate_htable -----

  /** What one turn of the loop does. `counted` is what it adds to `total_read`; `next` is the segment
      after the newline, absent when memchr finds none. */
  datatype Turn =
    | EndOfText
    | BadRecord
    | Hangs
    | Took(name: Text, account: Account, counted: nat, next: Option<Text>)

  function OneTurn(s: Text): (t: Turn)
    ensures t.Took? && t.next.Some? ==> |t.next.value| < |s|
    ensures t.Took? ==> COLON !in t.name && NUL !in t.name && 0 < |t.name| <= MAX_USERNAME_LEN
  {
    match ScanRecord(s)
    case Eof => EndOfText
    case Short => BadRecord
    case Record(name, permission, hash) =>
      match Hex.Decode(hash)
      case Stuck => Hangs
      case Failed => BadRecord
      case Decoded(bytes) =>
        var newline := Find(s, NEWLINE);
        Took(name, Account(permission, bytes), 4 + |name| + |hash|,
             if newline < |s| then Some(s[newline + 1..]) else None)
  }

  /** `Undefined`: the hex loop hangs, or the segment pointer runs off the buffer. */
  datatype LoadResult = Loaded(users: Table) | Rejected | Undefined

  function LoadFrom(s: Text, totalRead: nat, size: nat, acc: Table): LoadResult
    decreases |s|
  {
    if totalRead >= size then Loaded(acc)
    else match OneTurn(s)
      case EndOfText => Loaded(acc)
      case BadRecord => Rejected
      case Hangs => Undefined
      case Took(name, account, counted, next) =>
        if next.Some? then LoadFrom(next.value, totalRead + counted, size, acc[name := account])
        else if totalRead + counted >= size then Loaded(acc[name := account])
        else Undefined
  }

  function Load(stream: Text): LoadResult {
    LoadFrom(stream, 0, |stream|, map[])
  }

  // ----- the scanner inverts the printer -----

  /** The size rules of db_create_user, a SHA-256 hash and a one-digit permission. */
  predicate Storable(name: Text, a: Account) {
    && MIN_USERNAME_LEN <= |name| <= MAX_USERNAME_LEN
    && NUL !in name
    && |a.hash| == 32
    && a.permission <= ADMIN
  }

  ghost predicate StorableTable(users: Table) {
    forall n | n in users :: Storable(n, users[n])
  }

  ghost predicate CleanTable(users: Table) {
    forall n | n in users :: Clean(n)
  }

  /** A number as strtoul takes it: blanks, perhaps a sign, digits. */
  function NumberText(blanks: Text, sign: Text, n: nat): Text {
    blanks + sign + Decimal(n)
  }

  /** Only blanks, and no sign, "+" or "-". */
  predicate IsNumberText(blanks: Text, sign: Text) {
    (forall b | b in blanks :: b == 32 || 9 <= b <= 13) && (sign == [] || sign == [43] || sign == [45])
  }

  lemma {:induction false} SkipBlanks(blanks: Text, s: Text)
    requires forall b | b in blanks :: b == 32 || 9 <= b <= 13
    requires s != [] && !IsSpace(s[0])
    ensures SkipWhite(blanks + s) == s
  {
    if blanks == [] {
      assert blanks + s == s;
    } else {
      assert (blanks + s)[0] == blanks[0] && blanks[0] in blanks;
      assert (blanks + s)[1..] == blanks[1..] + s;
      assert forall b | b in blanks[1..] :: b in blanks;
      SkipBlanks(blanks[1..], s);
    }
  }

  lemma ScanDecimal(negative: bool, n: nat, rest: Text)
    requires rest != [] && !IsDigit(rest[0])
    ensures ScanDigits(negative, Decimal(n) + rest) == Some((WrapByte(negative, n), rest))
  {
    hide Decimal, DigitsValue, DigitRun;
    var d := Decimal(n);
    var s := d + rest;
    assert s[0] == d[0] && s[..|d|] == d && s[|d|..] == rest;
    DigitRunIs(s, |d|);
    DecimalValue(n);
  }

  /** The number is taken modulo 256, negated after a "-", and is 255 where it passes an unsigned long. */
  lemma ScanNumberText(blanks: Text, sign: Text, n: nat, rest: Text)
    requires IsNumberText(blanks, sign) && rest != [] && !IsDigit(rest[0])
    ensures ScanNumber(NumberText(blanks, sign, n) + rest)
         == Some((if n >= 0x1_0000_0000_0000_0000 then 255 else if sign == [45] then (256 - n % 256) % 256 else n % 256,
                  rest))
  {
    hide Decimal, ScanDigits, SkipWhite;
    var u := Decimal(n) + rest;
    assert u[0] == Decimal(n)[0] && IsDigit(u[0]);
    assert NumberText(blanks, sign, n) + rest == blanks + (sign + u);
    SkipBlanks(blanks, sign + u);
    if sign != [] {
      assert (sign + u)[0] == sign[0] && (sign + u)[1..] == u;
    } else {
      assert sign + u == u;
    }
    ScanDecimal(sign == [45], n, rest);
  }

  lemma ScanNumberPrinted(permission: Byte, rest: Text)
    requires rest != [] && !IsDigit(rest[0])
    ensures ScanNumber(Decimal(permission) + rest) == Some((permission, rest))
  {
    hide ScanNumber, Decimal;
    ScanNumberText([], [], permission, rest);
    assert [] + [] + Decimal(permission) == Decimal(permission);
  }

  /** What a record needs to fit the scanned widths and the print buffer. */
  predicate Recordable(name: Text, a: Account) {
    0 < |name| <= MAX_USERNAME_LEN && NUL !in name && 0 < |a.hash| <= 32 && a.permission <= 9
  }

  /** A name without ':' is read back whole, with its permission and hash, whatever follows. */
  lemma ScanRecordPrinted(name: Text, a: Account, rest: Text)
    requires Recordable(name, a) && COLON !in name
    ensures ScanRecord(PrintRecord(name, a) + rest) == Record(name, a.permission, Hex.Print(a.hash))
  {
    hide ScanRecord, ScanNumber, Decimal;
    var hex := Hex.Print(a.hash);
    var t3 := hex + ([NEWLINE] + rest);
    var t2 := [COLON] + t3;
    var t1 := Decimal(a.permission) + t2;
    assert PrintRecord(name, a) + rest == name + ([COLON] + t1);
    ScanRecordIs(name, t1);
    ScanNumberPrinted(a.permission, t2);
    assert t2[1..] == t3;
    Hex.PrintHasOnlyHexDigits(a.hash);
    SpanIs(t3, DIGEST_TEXT_LEN, NEWLINE, |hex|);
    assert t3[..|hex|] == hex;
  }

  lemma NewlineEndsRecord(name: Text, a: Account, rest: Text)
    requires NEWLINE !in name
    ensures Find(PrintRecord(name, a) + rest, NEWLINE) == |PrintRecord(name, a)| - 1
  {
    Hex.PrintHasOnlyHexDigits(a.hash);
    FindIs(PrintRecord(name, a) + rest, NEWLINE, |PrintRecord(name, a)| - 1);
  }

  /** The segment after the first newline of a record; with a newline in the name it starts inside the name. */
  function AfterNewline(name: Text, a: Account, rest: Text): Text {
    if NEWLINE in name then PrintRecord(name[Find(name, NEWLINE) + 1..], a) + rest else rest
  }

  lemma SegmentAfterNewline(name: Text, a: Account, rest: Text)
    ensures var s := PrintRecord(name, a) + rest;
            Find(s, NEWLINE) < |s| && s[Find(s, NEWLINE) + 1..] == AfterNewline(name, a, rest)
  {
    hide Hex.Print, Decimal, Find;
    var s := PrintRecord(name, a) + rest;
    if NEWLINE in name {
      var k := Find(name, NEWLINE);
      FindIs(s, NEWLINE, k);
      assert s[k + 1..] == PrintRecord(name[k + 1..], a) + rest;
    } else {
      NewlineEndsRecord(name, a, rest);
      assert s[|PrintRecord(name, a)|..] == rest;
    }
  }

  /** One turn of the loop on a printed record counts exactly that record; without a newline in the name it
      also skips exactly that record. */
  lemma TurnOnPrinted(name: Text, a: Account, rest: Text)
    requires Recordable(name, a) && COLON !in name
    ensures OneTurn(PrintRecord(name, a) + rest)
         == Took(name, a, |PrintRecord(name, a)|, Some(AfterNewline(name, a, rest)))
  {
    hide ScanRecord, Hex.Decode, Hex.Print, Find, AfterNewline;
    ScanRecordPrinted(name, a, rest);
    Hex.DecodePrint(a.hash);
    SegmentAfterNewline(name, a, rest);
  }

  lemma LoadOneRecord(name: Text, a: Account, rest: Text, totalRead: nat, size: nat, acc: Table)
    requires Storable(name, a) && Clean(name)
    requires totalRead < size
    ensures LoadFrom(PrintRecord(name, a) + rest, totalRead, size, acc)
         == LoadFrom(rest, totalRead + |PrintRecord(name, a)|, size, acc[name := a])
  {
    hide OneTurn, PrintRecord;
    TurnOnPrinted(name, a, rest);
    assert AfterNewline(name, a, rest) == rest;
  }

  /** The accounts read from the records of `order`, added to `acc` one by one. */
  function Extend(acc: Table, order: seq<Text>, users: Table): Table
    requires forall n | n in order :: n in users
    decreases order
  {
    if order == [] then acc else Extend(acc[order[0] := users[order[0]]], order[1..], users)
  }

  lemma {:induction false} ExtendIs(acc: Table, order: seq<Text>, users: Table)
    requires forall n | n in order :: n in users
    ensures forall n :: n in Extend(acc, order, users) <==> n in acc || n in order
    ensures forall n | n in Extend(acc, order, users) ::
      Extend(acc, order, users)[n] == if n in order then users[n] else acc[n]
    decreases order
  {
    if order != [] {
      ExtendIs(acc[order[0] := users[order[0]]], order[1..], users);
      assert order == [order[0]] + order[1..];
    }
  }

  /** The loop invariant of the parser on printed records: the segment pointer is at `total_read`, each
      turn consumes one record, and the table so far is that of the records consumed. */
  lemma {:induction false} ParserAfter(
      order: seq<Text>, users: Table, tail: Text, totalRead: nat, size: nat, acc: Table)
    requires forall n | n in order :: n in users && Storable(n, users[n]) && Clean(n)
    requires totalRead + |PrintTable(order, users)| <= size
    ensures LoadFrom(PrintTable(order, users) + tail, totalRead, size, acc)
         == LoadFrom(tail, totalRead + |PrintTable(order, users)|, size, Extend(acc, order, users))
    decreases order
  {
    hide LoadFrom, PrintRecord;
    if order == [] {
      assert PrintTable(order, users) + tail == tail;
    } else {
      var name, a := order[0], users[order[0]];
      var rest := PrintTable(order[1..], users) + tail;
      assert PrintTable(order, users) + tail == PrintRecord(name, a) + rest;
      RecordNotEmpty(name, a);
      LoadOneRecord(name, a, rest, totalRead, size, acc);
      ParserAfter(order[1..], users, tail, totalRead + |PrintRecord(name, a)|, size, acc[name := a]);
    }
  }

  lemma RecordNotEmpty(name: Text, a: Account)
    ensures |PrintRecord(name, a)| > 0
  {
  }

  /** Reloading any printing of a table gives back the table. */
  lemma LoadPrinted(order: seq<Text>, users: Table)
    requires IsOrder(order, users) && StorableTable(users) && CleanTable(users)
    ensures Load(PrintTable(order, users)) == Loaded(users)
  {
    hide OneTurn, PrintTable, Extend;
    var stream := PrintTable(order, users);
    ParserAfter(order, users, [], 0, |stream|, map[]);
    assert stream + [] == stream;
    ExtendIs(map[], order, users);
    assert Extend(map[], order, users) == users;
  }

  // ----- exactly which names survive -----

  lemma {:induction false} LoadedKeys(s: Text, totalRead: nat, size: nat, acc: Table)
    requires LoadFrom(s, totalRead, size, acc).Loaded?
    ensures acc.Keys <= LoadFrom(s, totalRead, size, acc).users.Keys
    ensures forall n | n in LoadFrom(s, totalRead, size, acc).users :: n in acc || COLON !in n
    decreases |s|
  {
    hide OneTurn;
    if totalRead < size && OneTurn(s).Took? && OneTurn(s).next.Some? {
      var Took(name, account, counted, next) := OneTurn(s);
      LoadedKeys(next.value, totalRead + counted, size, acc[name := account]);
    }
  }

  /** The hashes of a table fit the buffer of 65 characters they are printed into. */
  ghost predicate HashesFit(users: Table) {
    forall n | n in users :: 2 * |users[n].hash| <= DIGEST_TEXT_LEN
  }

  lemma TurnHashFits(s: Text)
    ensures OneTurn(s).Took? ==>
      0 < |OneTurn(s).account.hash| && 2 * |OneTurn(s).account.hash| <= DIGEST_TEXT_LEN
  {
    hide ScanRecord, Find, Hex.DecodeFrom;
    if ScanRecord(s).Record? {
      var hash := ScanRecord(s).hash;
      if hash != [] && |hash| % 2 == 0 {
        Hex.DecodedLength(hash, 0, []);
      }
    }
  }

  lemma {:induction false} LoadedHashesFit(s: Text, totalRead: nat, size: nat, acc: Table)
    requires HashesFit(acc)
    ensures LoadFrom(s, totalRead, size, acc).Loaded? ==> HashesFit(LoadFrom(s, totalRead, size, acc).users)
    decreases |s|
  {
    hide OneTurn;
    TurnHashFits(s);
    if totalRead < size && OneTurn(s).Took? && OneTurn(s).next.Some? {
      var Took(name, account, counted, next) := OneTurn(s);
      LoadedHashesFit(next.value, totalRead + counted, size, acc[name := account]);
    }
  }

  ghost predicate CleanBeside(name: Text, users: Table) {
    name in users && StorableTable(users) && forall n | n in users && n != name :: Clean(n)
  }

  /** Every table that contains `name` beside clean names is reloaded unchanged, in every order. */
  ghost predicate AlwaysReloads(name: Text) {
    forall users: Table, order: seq<Text> | CleanBeside(name, users) && IsOrder(order, users) ::
      Load(PrintTable(order, users)) == Loaded(users)
  }

  /** No text at all loads to a table with a colon in a name. */
  lemma ColonIsLost(stream: Text, users: Table, name: Text)
    requires name in users && COLON in name
    ensures Load(stream) != Loaded(users)
  {
    if Load(stream).Loaded? {
      LoadedKeys(stream, 0, |stream|, map[]);
    }
  }

  lemma TurnOnTail(suffix: Text, a: Account, rest: Text)
    requires |suffix| <= MAX_USERNAME_LEN && COLON !in suffix && NUL !in suffix
    requires |a.hash| == 32 && a.permission <= 9
    ensures var t := OneTurn(PrintRecord(suffix, a) + rest);
            t == BadRecord || (suffix != [] && t.Took? && t.name == suffix)
  {
    hide Hex.Decode, Hex.Print, Decimal, Find;
    var s := PrintRecord(suffix, a) + rest;
    if suffix == [] {
      assert s[0] == COLON;
    } else {
      hide ScanRecord;
      ScanRecordPrinted(suffix, a, rest);
      Hex.DecodePrint(a.hash);
    }
  }

  /** The tail of the name is then read as an account of its own, or as a broken line. */
  lemma TailIsAnAccount(suffix: Text, a: Account, rest: Text, totalRead: nat, size: nat, acc: Table)
    requires |suffix| <= MAX_USERNAME_LEN && COLON !in suffix && NUL !in suffix
    requires |a.hash| == 32 && a.permission <= 9 && totalRead < size
    ensures var r := LoadFrom(PrintRecord(suffix, a) + rest, totalRead, size, acc);
            r.Loaded? ==> suffix in r.users
  {
    hide OneTurn, PrintRecord;
    TurnOnTail(suffix, a, rest);
    var t := OneTurn(PrintRecord(suffix, a) + rest);
    if t.Took? && t.next.Some?
       && LoadFrom(t.next.value, totalRead + t.counted, size, acc[t.name := t.account]).Loaded? {
      LoadedKeys(t.next.value, totalRead + t.counted, size, acc[t.name := t.account]);
    }
  }

  lemma NewlineIsLost(name: Text, a: Account, other: Text)
    requires Storable(name, a) && COLON !in name && NEWLINE in name
    requires Storable(other, a) && other != name && other != name[Find(name, NEWLINE) + 1..]
    ensures var users := map[name := a, other := a];
            Load(PrintTable([name, other], users)) != Loaded(users)
  {
    hide OneTurn, PrintRecord, Find;
    var users := map[name := a, other := a];
    var order := [name, other];
    var rest := PrintTable([other], users);
    assert order[1..] == [other];
    var stream := PrintTable(order, users);
    assert stream == PrintRecord(name, a) + rest;
    RecordNotEmpty(other, a);
    hide PrintTable;
    var suffix := name[Find(name, NEWLINE) + 1..];
    TurnOnPrinted(name, a, rest);
    assert AfterNewline(name, a, rest) == PrintRecord(suffix, a) + rest;
    TailIsAnAccount(suffix, a, rest, |PrintRecord(name, a)|, |stream|, map[][name := a]);
    assert suffix !in users;
  }

  lemma ColonNeverReloads(name: Text, a: Account)
    requires Storable(name, a) && COLON in name
    ensures !AlwaysReloads(name)
  {
    hide Load, PrintTable, Storable;
    var users := map[name := a];
    assert IsOrder([name], users);
    assert StorableTable(users);
    ColonIsLost(PrintTable([name], users), users, name);
    assert CleanBeside(name, users);
  }

  lemma NewlineNeverReloads(name: Text, a: Account, other: Text)
    requires Storable(name, a) && COLON !in name && NEWLINE in name
    requires Storable(other, a) && Clean(other) && other != name && other != name[Find(name, NEWLINE) + 1..]
    ensures !AlwaysReloads(name)
  {
    hide Load, PrintTable, Find, Storable, Clean;
    var users := map[name := a, other := a];
    assert IsOrder([name, other], users);
    assert StorableTable(users);
    NewlineIsLost(name, a, other);
    assert CleanBeside(name, users);
  }

  lemma DirtyNameIsLost(name: Text)
    requires MIN_USERNAME_LEN <= |name| <= MAX_USERNAME_LEN && NUL !in name && !Clean(name)
    ensures !AlwaysReloads(name)
  {
    hide AlwaysReloads, Find;
    var a := Account(READ, seq(32, i => 0));
    if COLON in name {
      ColonNeverReloads(name, a);
    } else {
      var suffix := name[Find(name, NEWLINE) + 1..];
      NewlineNeverReloads(name, a, if suffix == [97, 97, 97] then [98, 98, 98] else [97, 97, 97]);
    }
  }

  /** The name rule db_create_user leaves out is exactly what reloading needs. */
  lemma AlwaysReloadsIffClean(name: Text)
    requires MIN_USERNAME_LEN <= |name| <= MAX_USERNAME_LEN && NUL !in name
    ensures AlwaysReloads(name) <==> Clean(name)
  {
    if Clean(name) {
      forall users: Table, order: seq<Text> | CleanBeside(name, users) && IsOrder(order, users)
        ensures Load(PrintTable(order, users)) == Loaded(users)
      {
        LoadPrinted(order, users);
      }
    } else {
      DirtyNameIsLost(name);
    }
  }

  // ----- the passes may iterate in different orders -----

  lemma {:induction false} RemoveFromOrder(b: seq<Text>, i: nat, users: Table)
    requires i < |b| && forall n | n in b :: n in users
    ensures TableBudget(b, users) == RecordBudget(b[i], users[b[i]]) + TableBudget(b[..i] + b[i + 1..], users)
  {
    hide PrintTable, TableBudget, RecordBudget, PrintRecord;
    PrintTableSnoc(b, i, users);
    PrintTableConcat(b[..i], b[i + 1..], users);
    PrintTableConcat(b[..i + 1], b[i + 1..], users);
    assert b == b[..i + 1] + b[i + 1..];
  }

  lemma SameElementsWithout(a: seq<Text>, b: seq<Text>, i: nat)
    requires a != [] && i < |b| && b[i] == a[0]
    requires forall i, j | 0 <= i < j < |a| :: a[i] != a[j]
    requires forall i, j | 0 <= i < j < |b| :: b[i] != b[j]
    requires forall n :: n in a <==> n in b
    ensures forall n :: n in a[1..] <==> n in b[..i] + b[i + 1..]
  {
    var c := b[..i] + b[i + 1..];
    forall n ensures n in a[1..] <==> n in c {
      assert a == [a[0]] + a[1..];
      assert b == b[..i] + [b[i]] + b[i + 1..];
      assert n in b <==> n in b[..i] || n == b[i] || n in b[i + 1..];
      assert n in c <==> n in b[..i] || n in b[i + 1..];
    }
  }

  lemma SameEmptiness(a: seq<Text>, b: seq<Text>)
    requires forall n :: n in a <==> n in b
    ensures a == [] <==> b == []
  {
    if a != [] {
      assert a[0] in a;
    }
    if b != [] {
      assert b[0] in b;
    }
  }

  /** The two passes may iterate in different orders and still agree on the size and the count. */
  lemma {:induction false} BudgetOrderIndependent(a: seq<Text>, b: seq<Text>, users: Table)
    requires forall n | n in a :: n in users
    requires forall i, j | 0 <= i < j < |a| :: a[i] != a[j]
    requires forall i, j | 0 <= i < j < |b| :: b[i] != b[j]
    requires forall n :: n in a <==> n in b
    ensures |a| == |b| && TableBudget(a, users) == TableBudget(b, users)
  {
    SameEmptiness(a, b);
    if a != [] {
      assert a[0] in b;
      var i :| 0 <= i < |b| && b[i] == a[0];
      SameElementsWithout(a, b, i);
      RemoveFromOrder(b, i, users);
      BudgetOrderIndependent(a[1..], b[..i] + b[i + 1..], users);
    }
  }
}
