/** What a start of the server makes of any printed table, whatever the names in it: record by record, and which
    permissions can come of it. */
module Reload {
  import opened Bytes
  import opened Accounts
  import Hex

  // ----- a record is read the same whatever follows it -----

  lemma SpanLocal(s: Text, rest: Text, width: nat, stop: Byte)
    requires stop in s
    ensures Span(s, width, stop) < |s| && Span(s + rest, width, stop) == Span(s, width, stop)
  {
    var k := Span(s, width, stop);
    var i :| 0 <= i < |s| && s[i] == stop;
    assert k <= i;
    SpanIs(s + rest, width, stop, k);
  }

  lemma {:induction false} SkipWhiteLocal(s: Text, rest: Text)
    requires COLON in s
    ensures COLON in SkipWhite(s) && SkipWhite(s + rest) == SkipWhite(s) + rest
    ensures SkipWhite(s) == s[|s| - |SkipWhite(s)|..]
  {
    if IsSpace(s[0]) {
      assert s == [s[0]] + s[1..];
      assert (s + rest)[1..] == s[1..] + rest;
      SkipWhiteLocal(s[1..], rest);
    }
  }

  lemma DigitsLocal(negative: bool, s: Text, rest: Text)
    requires COLON in s
    ensures ScanDigits(negative, s + rest)
         == match ScanDigits(negative, s) case None => None case Some((q, y)) => Some((q, y + rest))
    ensures ScanDigits(negative, s).Some? ==>
      var y := ScanDigits(negative, s).value.1; 0 < |y| < |s| && y == s[|s| - |y|..]
  {
    hide DigitsValue;
    var k := DigitRun(s);
    var i :| 0 <= i < |s| && s[i] == COLON;
    assert forall j | 0 <= j < k :: s[j] == s[..k][j];
    assert k <= i;
    assert (s + rest)[..k] == s[..k] && (s + rest)[k..] == s[k..] + rest;
    DigitRunIs(s + rest, k);
  }

  /** The number field ends at the latest before the next ':'. */
  lemma ScanNumberLocal(s: Text, rest: Text)
    requires COLON in s
    ensures ScanNumber(s + rest) == match ScanNumber(s) case None => None case Some((q, y)) => Some((q, y + rest))
    ensures ScanNumber(s).Some? ==>
      var y := ScanNumber(s).value.1; 0 < |y| < |s| && y == s[|s| - |y|..]
  {
    hide SkipWhite, ScanDigits;
    SkipWhiteLocal(s, rest);
    var t := SkipWhite(s);
    assert (t + rest)[0] == t[0];
    if t[0] == PLUS || t[0] == MINUS {
      assert t == [t[0]] + t[1..];
      assert (t + rest)[1..] == t[1..] + rest;
      DigitsLocal(t[0] == MINUS, t[1..], rest);
    } else {
      DigitsLocal(false, t, rest);
    }
  }

  lemma ScanFieldsLocal(p: Text, z: Text, rest: Text)
    requires COLON in z && z[|z| - 1] == NEWLINE
    ensures ScanFields(p, z + rest) == ScanFields(p, z)
    ensures ScanFields(p, z).Record? ==> 3 + |ScanFields(p, z).hash| <= |z|
  {
    hide Span, ScanNumber;
    ScanNumberLocal(z, rest);
    if ScanNumber(z).Some? {
      var y := ScanNumber(z).value.1;
      assert y[|y| - 1] == z[|z| - 1] == NEWLINE;
      assert (y + rest)[0] == y[0];
      if y[0] == COLON {
        assert |y| >= 2;
        assert (y + rest)[1..] == y[1..] + rest;
        assert y[1..][|y| - 2] == NEWLINE;
        SpanLocal(y[1..], rest, DIGEST_TEXT_LEN, NEWLINE);
        var h := Span(y[1..], DIGEST_TEXT_LEN, NEWLINE);
        assert (y[1..] + rest)[..h] == y[1..][..h];
      }
    }
  }

  /** A record up to its first ':', and the rest of it. */
  lemma ScanRecordLocal(p: Text, z: Text, rest: Text)
    requires COLON !in p && NUL !in p && |p| <= MAX_USERNAME_LEN
    requires COLON in z && z[|z| - 1] == NEWLINE
    ensures var s := p + [COLON] + z;
      && ScanRecord(s + rest) == ScanRecord(s) && !ScanRecord(s).Eof?
      && (ScanRecord(s).Record? ==> 4 + |ScanRecord(s).name| + |ScanRecord(s).hash| <= |s|)
  {
    hide ScanRecord, ScanFields;
    var s := p + [COLON] + z;
    assert s == p + ([COLON] + z) && s + rest == p + ([COLON] + (z + rest));
    ScanRecordIs(p, z);
    ScanRecordIs(p, z + rest);
    ScanFieldsLocal(p, z, rest);
    FieldsNotEof(p, z);
  }

  lemma FieldsNotEof(p: Text, z: Text)
    ensures !ScanFields(p, z).Eof?
  {
    hide ScanNumber, Span;
  }

  lemma RecordParts(name: Text, a: Account)
    ensures var tail := Decimal(a.permission) + [COLON] + Hex.Print(a.hash) + [NEWLINE];
            var i := Find(name, COLON);
      && PrintRecord(name, a)
         == (if i == |name| then name + [COLON] + tail else name[..i] + [COLON] + (name[i + 1..] + [COLON] + tail))
      && COLON in tail && tail[|tail| - 1] == NEWLINE
  {
    hide Decimal, Hex.Print, Find;
    var d, hex := Decimal(a.permission), Hex.Print(a.hash);
    var tail := d + [COLON] + hex + [NEWLINE];
    var i := Find(name, COLON);
    assert tail[|d|] == COLON;
    Regrouped(name, d, hex);
    if i < |name| {
      SplitAt(name, i, tail);
    }
  }

  lemma Regrouped(name: Text, d: Text, hex: Text)
    ensures name + [COLON] + d + [COLON] + hex + [NEWLINE] == name + [COLON] + (d + [COLON] + hex + [NEWLINE])
  {
  }

  lemma SplitAt(name: Text, i: nat, tail: Text)
    requires i < |name| && name[i] == COLON
    ensures name + [COLON] + tail == name[..i] + [COLON] + (name[i + 1..] + [COLON] + tail)
  {
    assert name == name[..i] + [COLON] + name[i + 1..];
  }

  lemma ScanPrintedLocal(name: Text, a: Account, rest: Text)
    requires |name| <= MAX_USERNAME_LEN && NUL !in name
    ensures var s := PrintRecord(name, a);
      && ScanRecord(s + rest) == ScanRecord(s) && !ScanRecord(s).Eof?
      && (ScanRecord(s).Record? ==> 4 + |ScanRecord(s).name| + |ScanRecord(s).hash| <= |s|)
  {
    hide ScanRecord, PrintRecord, Decimal, Hex.Print, Find;
    RecordParts(name, a);
    var tail := Decimal(a.permission) + [COLON] + Hex.Print(a.hash) + [NEWLINE];
    var i := Find(name, COLON);
    if i == |name| {
      assert COLON !in name;
      ScanRecordLocal(name, tail, rest);
    } else {
      var z := name[i + 1..] + [COLON] + tail;
      assert z[|name[i + 1..]|] == COLON;
      assert forall j | 0 <= j < i :: name[..i][j] == name[j];
      ScanRecordLocal(name[..i], z, rest);
    }
  }

  /** One turn of the loop on a printed record, for any name: what it reads is in the record, it counts at most
      the record, and it goes on after the record's first newline. */
  lemma TurnIsLocal(name: Text, a: Account, rest: Text)
    requires |name| <= MAX_USERNAME_LEN && NUL !in name
    ensures var t := OneTurn(PrintRecord(name, a));
      && OneTurn(PrintRecord(name, a) + rest)
         == (match t case Took(p, acct, n, _) => Took(p, acct, n, Some(AfterNewline(name, a, rest))) case _ => t)
      && !t.EndOfText? && (t.Took? ==> t.counted <= |PrintRecord(name, a)|)
  {
    hide ScanRecord, Hex.Decode, PrintRecord, Find, AfterNewline;
    ScanPrintedLocal(name, a, rest);
    SegmentAfterNewline(name, a, rest);
    SegmentAfterNewline(name, a, []);
    assert PrintRecord(name, a) + [] == PrintRecord(name, a);
  }

  /** What the record of an account is read as. */
  function Reading(name: Text, a: Account): Turn {
    OneTurn(PrintRecord(name, a))
  }

  // ----- a printed table is read record by record -----

  /** The parsing loop on records: after a record with a newline in its name it reads the tail of the name as a
      record of its own, and it ends early when its count has run ahead. */
  function ReadRecords(
      suffix: Text, a: Account, order: seq<Text>, users: Table, totalRead: nat, size: nat, acc: Table): LoadResult
    requires forall n | n in order :: n in users
    decreases |order|, |suffix|
  {
    if totalRead >= size then Loaded(acc)
    else match Reading(suffix, a)
      case EndOfText => Loaded(acc)
      case BadRecord => Rejected
      case Hangs => Undefined
      case Took(p, acct, counted, _) =>
        var acc', total := acc[p := acct], totalRead + counted;
        if NEWLINE in suffix then
          ReadRecords(suffix[Find(suffix, NEWLINE) + 1..], a, order, users, total, size, acc')
        else if order == [] then Loaded(acc')
        else ReadRecords(order[0], users[order[0]], order[1..], users, total, size, acc')
  }

  /** Names within the width and the C string, as every stored name is. */
  ghost predicate NamesFit(order: seq<Text>) {
    forall n | n in order :: |n| <= MAX_USERNAME_LEN && NUL !in n
  }

  /** For all names, with colons and newlines or not, the parser does exactly that. */
  lemma {:induction false} LoadIsRead(
      suffix: Text, a: Account, order: seq<Text>, users: Table, totalRead: nat, size: nat, acc: Table)
    requires |suffix| <= MAX_USERNAME_LEN && NUL !in suffix && NamesFit(order)
    requires forall n | n in order :: n in users
    ensures LoadFrom(PrintRecord(suffix, a) + PrintTable(order, users), totalRead, size, acc)
         == ReadRecords(suffix, a, order, users, totalRead, size, acc)
    decreases |order|, |suffix|
  {
    hide OneTurn, PrintRecord, Find;
    var rest := PrintTable(order, users);
    TurnIsLocal(suffix, a, rest);
    if totalRead < size && Reading(suffix, a).Took? {
      var Took(p, acct, counted, _) := Reading(suffix, a);
      var acc', total := acc[p := acct], totalRead + counted;
      if NEWLINE in suffix {
        LoadIsRead(suffix[Find(suffix, NEWLINE) + 1..], a, order, users, total, size, acc');
      } else if order == [] {
        LoadFromEnd(total, size, acc');
      } else {
        assert forall n | n in order[1..] :: n in order;
        LoadIsRead(order[0], users[order[0]], order[1..], users, total, size, acc');
      }
    }
  }

  lemma LoadFromEnd(totalRead: nat, size: nat, acc: Table)
    ensures LoadFrom([], totalRead, size, acc) == Loaded(acc)
  {
    assert OneTurn([]) == EndOfText;
  }

  // ----- without newlines: all records, in order -----

  function ReadAll(acc: Table, order: seq<Text>, users: Table): LoadResult
    requires forall n | n in order :: n in users
    decreases order
  {
    if order == [] then Loaded(acc)
    else match Reading(order[0], users[order[0]])
      case Took(p, acct, _, _) => ReadAll(acc[p := acct], order[1..], users)
      case Hangs => Undefined
      case _ => Rejected
  }

  ghost predicate NoNewlines(order: seq<Text>) {
    forall n | n in order :: NEWLINE !in n
  }

  lemma {:induction false} ReadRecordsIsReadAll(order: seq<Text>, users: Table, totalRead: nat, size: nat, acc: Table)
    requires NamesFit(order) && NoNewlines(order) && forall n | n in order :: n in users
    requires totalRead + |PrintTable(order, users)| <= size
    ensures LoadFrom(PrintTable(order, users), totalRead, size, acc) == ReadAll(acc, order, users)
    decreases |order|
  {
    hide OneTurn, PrintRecord, LoadFrom;
    if order == [] {
      LoadFromEnd(totalRead, size, acc);
    } else {
      var name, a, rest := order[0], users[order[0]], PrintTable(order[1..], users);
      assert forall n | n in order[1..] :: n in order;
      TurnIsLocal(name, a, rest);
      RecordNotEmpty(name, a);
      LoadTurn(PrintRecord(name, a) + rest, totalRead, size, acc);
      if Reading(name, a).Took? {
        var Took(p, acct, counted, _) := Reading(name, a);
        ReadRecordsIsReadAll(order[1..], users, totalRead + counted, size, acc[p := acct]);
      }
    }
  }

  lemma LoadTurn(s: Text, totalRead: nat, size: nat, acc: Table)
    requires totalRead < size
    ensures LoadFrom(s, totalRead, size, acc)
         == match OneTurn(s)
            case EndOfText => Loaded(acc)
            case BadRecord => Rejected
            case Hangs => Undefined
            case Took(p, acct, counted, next) =>
              if next.Some? then LoadFrom(next.value, totalRead + counted, size, acc[p := acct])
              else if totalRead + counted >= size then Loaded(acc[p := acct]) else Undefined
  {
    hide OneTurn;
  }

  /** Loading a table without newlines in its names, in any order, is reading its records one after the other. */
  lemma LoadIsReadAll(order: seq<Text>, users: Table)
    requires IsOrder(order, users) && NamesFit(order) && NoNewlines(order)
    ensures Load(PrintTable(order, users)) == ReadAll(map[], order, users)
  {
    hide PrintTable, LoadFrom;
    ReadRecordsIsReadAll(order, users, 0, |PrintTable(order, users)|, map[]);
  }

  /** It is loaded exactly when every record is read as an account; the first that is not decides between refusal
      and hanging. */
  lemma {:induction false} LoadedIffAllTaken(acc: Table, order: seq<Text>, users: Table)
    requires forall n | n in order :: n in users
    ensures ReadAll(acc, order, users).Loaded? <==> forall n | n in order :: Reading(n, users[n]).Took?
    decreases order
  {
    hide OneTurn;
    if order != [] {
      assert order == [order[0]] + order[1..];
      if Reading(order[0], users[order[0]]).Took? {
        var t := Reading(order[0], users[order[0]]);
        LoadedIffAllTaken(acc[t.name := t.account], order[1..], users);
      }
    }
  }

  lemma {:induction false} ReadAllConcat(acc: Table, a: seq<Text>, b: seq<Text>, users: Table)
    requires forall n | n in a || n in b :: n in users
    ensures forall n | n in a + b :: n in users
    ensures ReadAll(acc, a + b, users)
         == match ReadAll(acc, a, users) case Loaded(t) => ReadAll(t, b, users) case other => other
    decreases a
  {
    hide OneTurn;
    if a == [] {
      assert a + b == b;
    } else {
      assert (a + b)[0] == a[0] && (a + b)[1..] == a[1..] + b;
      if Reading(a[0], users[a[0]]).Took? {
        var t := Reading(a[0], users[a[0]]);
        ReadAllConcat(acc[t.name := t.account], a[1..], b, users);
      }
    }
  }

  lemma {:induction false} ReadAllClean(acc: Table, order: seq<Text>, users: Table)
    requires forall n | n in order :: n in users && Recordable(n, users[n]) && COLON !in n
    ensures ReadAll(acc, order, users) == Loaded(Extend(acc, order, users))
    decreases order
  {
    hide OneTurn, PrintRecord;
    if order != [] {
      var name := order[0];
      ReadingOfPlain(name, users[name]);
      ReadAllClean(acc[name := users[name]], order[1..], users);
    }
  }

  lemma ReadingOfPlain(name: Text, a: Account)
    requires Recordable(name, a) && COLON !in name
    ensures Reading(name, a).Took? && Reading(name, a).name == name && Reading(name, a).account == a
  {
    hide OneTurn, PrintRecord;
    TurnOnPrinted(name, a, []);
    assert PrintRecord(name, a) + [] == PrintRecord(name, a);
  }

  // ----- one name with a ':' -----

  /** A table in which this name has a ':' and no newline, and every other name is clean. */
  ghost predicate ColonBeside(users: Table, name: Text) {
    CleanBeside(name, users) && COLON in name && NEWLINE !in name
  }

  /** In this order the record of `later` comes after that of `name`. */
  predicate ComesAfter(order: seq<Text>, name: Text, later: Text) {
    exists i, j | 0 <= i < j < |order| :: order[i] == name && order[j] == later
  }

  /** The table after a start: the name is gone; the account its record is read as is there, unless that account's
      name is another user's whose record comes later. */
  ghost function AfterStart(order: seq<Text>, users: Table, name: Text, t: Turn): Table
    requires t.Took?
  {
    if t.name in users && ComesAfter(order, name, t.name) then users - {name}
    else (users - {name})[t.name := t.account]
  }

  /** Exactly what a start makes of such a table, in every order. */
  lemma ColonNameIsReadAs(order: seq<Text>, users: Table, name: Text)
    requires IsOrder(order, users) && ColonBeside(users, name)
    ensures Load(PrintTable(order, users))
         == match Reading(name, users[name])
            case Took(_, _, _, _) => Loaded(AfterStart(order, users, name, Reading(name, users[name])))
            case Hangs => Undefined
            case _ => Rejected
  {
    hide Load, PrintTable, Reading, Extend, AfterStart, ColonBeside;
    BesideParts(order, users, name);
    var i :| 0 <= i < |order| && order[i] == name;
    LoadAround(order, users, i);
    if Reading(name, users[name]).Took? {
      TableAfterStart(order, users, i, Reading(name, users[name]));
    }
  }

  lemma LoadAround(order: seq<Text>, users: Table, i: nat)
    requires IsOrder(order, users) && i < |order| && ColonBeside(users, order[i])
    ensures (forall n | n in order[..i] :: n in users) && (forall n | n in order[i + 1..] :: n in users)
    ensures var name := order[i];
      Load(PrintTable(order, users))
      == match Reading(name, users[name])
         case Took(p, acct, _, _) =>
           Loaded(Extend(Extend(map[], order[..i], users)[p := acct], order[i + 1..], users))
         case Hangs => Undefined
         case _ => Rejected
  {
    hide Load, PrintTable, Reading, Extend, ReadAll, ColonBeside, NamesFit, NoNewlines, Recordable;
    var name, front, back := order[i], order[..i], order[i + 1..];
    BesideParts(order, users, name);
    assert order == front + ([name] + back);
    OrderInParts(order, i);
    LoadIsReadAll(order, users);
    ReadParts(front, back, users, name);
  }

  lemma TableAfterStart(order: seq<Text>, users: Table, i: nat, t: Turn)
    requires IsOrder(order, users) && i < |order| && ColonBeside(users, order[i])
    requires t.Took? && t == Reading(order[i], users[order[i]])
    ensures (forall n | n in order[..i] :: n in users) && (forall n | n in order[i + 1..] :: n in users)
    ensures Extend(Extend(map[], order[..i], users)[t.name := t.account], order[i + 1..], users)
         == AfterStart(order, users, order[i], t)
  {
    hide Reading, Extend, ColonBeside, ComesAfter;
    OrderInParts(order, i);
    AfterInParts(order, i, t.name);
    ReadingIsOther(users, order[i]);
    TableInParts(order[..i], order[i + 1..], users, order[i], t.name, t.account);
  }

  lemma ReadingIsOther(users: Table, name: Text)
    requires ColonBeside(users, name)
    ensures Reading(name, users[name]).Took? ==> Reading(name, users[name]).name != name
  {
    hide PrintRecord, ScanRecord;
  }

  lemma BesideParts(order: seq<Text>, users: Table, name: Text)
    requires IsOrder(order, users) && ColonBeside(users, name)
    ensures NamesFit(order) && NoNewlines(order) && name in users
    ensures forall n | n in order && n != name :: Recordable(n, users[n]) && COLON !in n
  {
    assert forall n | n in order :: Storable(n, users[n]) && (n != name ==> Clean(n));
  }

  lemma ReadParts(front: seq<Text>, back: seq<Text>, users: Table, name: Text)
    requires name in users
    requires forall n | n in front || n in back :: n in users && Recordable(n, users[n]) && COLON !in n
    ensures forall n | n in front + ([name] + back) :: n in users
    ensures ReadAll(map[], front + ([name] + back), users)
         == match Reading(name, users[name])
            case Took(p, acct, _, _) => Loaded(Extend(Extend(map[], front, users)[p := acct], back, users))
            case Hangs => Undefined
            case _ => Rejected
  {
    hide Reading, Extend, Recordable;
    assert forall n | n in [name] + back :: n == name || n in back;
    ReadAllConcat(map[], front, [name] + back, users);
    ReadAllClean(map[], front, users);
    var acc := Extend(map[], front, users);
    assert ([name] + back)[1..] == back;
    if Reading(name, users[name]).Took? {
      var t := Reading(name, users[name]);
      ReadAllClean(acc[t.name := t.account], back, users);
    }
  }

  lemma AfterInParts(order: seq<Text>, i: nat, p: Text)
    requires i < |order| && forall i, j | 0 <= i < j < |order| :: order[i] != order[j]
    ensures ComesAfter(order, order[i], p) <==> p in order[i + 1..]
  {
    if p in order[i + 1..] {
      var k :| 0 <= k < |order[i + 1..]| && order[i + 1..][k] == p;
      assert order[i + 1 + k] == p;
    }
    if ComesAfter(order, order[i], p) {
      var x, y :| 0 <= x < y < |order| && order[x] == order[i] && order[y] == p;
      assert x == i;
      assert order[i + 1..][y - i - 1] == p;
    }
  }

  lemma OrderInParts(order: seq<Text>, i: nat)
    requires i < |order| && forall i, j | 0 <= i < j < |order| :: order[i] != order[j]
    ensures order[i] !in order[..i] && order[i] !in order[i + 1..]
    ensures forall n :: n in order <==> n in order[..i] || n == order[i] || n in order[i + 1..]
    ensures forall n | n in order[..i] :: n !in order[i + 1..]
  {
    assert order == order[..i] + [order[i]] + order[i + 1..];
  }

  lemma TableInParts(front: seq<Text>, back: seq<Text>, users: Table, name: Text, p: Text, m: Account)
    requires forall n :: n in users <==> n in front || n == name || n in back
    requires name !in front && name !in back && name in users && p != name
    requires forall n | n in front :: n !in back
    ensures Extend(Extend(map[], front, users)[p := m], back, users)
         == if p in back then users - {name} else (users - {name})[p := m]
  {
    hide Extend;
    var t := Extend(map[], front, users)[p := m];
    ExtendIs(map[], front, users);
    ExtendIs(t, back, users);
    var r, want := Extend(t, back, users), if p in back then users - {name} else (users - {name})[p := m];
    forall n ensures n in r <==> n in want {
    }
    forall n | n in r ensures r[n] == want[n] {
    }
  }

  // ----- which permissions reloading can give -----

  /** No part of this name that is read as a record gives a permission above the limit. */
  predicate ReadsUpTo(suffix: Text, a: Account, limit: int)
    decreases |suffix|
  {
    match Reading(suffix, a)
    case Took(_, acct, _, _) =>
      && acct.permission <= limit
      && (NEWLINE in suffix ==> ReadsUpTo(suffix[Find(suffix, NEWLINE) + 1..], a, limit))
    case _ => true
  }

  /** An account whose record never gives more than the account has. */
  predicate Tame(name: Text, a: Account) {
    Recordable(name, a) && a.permission <= ADMIN && ReadsUpTo(name, a, a.permission)
  }

  /** Every account is tame and has at most this permission. */
  ghost predicate TameUpTo(users: Table, limit: int) {
    forall n | n in users :: Tame(n, users[n]) && users[n].permission <= limit
  }

  /** Without a ':' in the name an account is tame, newlines or not. */
  lemma {:induction false} PlainReadsUpTo(suffix: Text, a: Account)
    requires |suffix| <= MAX_USERNAME_LEN && COLON !in suffix && NUL !in suffix
    requires 0 < |a.hash| <= 32 && a.permission <= 9
    ensures ReadsUpTo(suffix, a, a.permission)
    decreases |suffix|
  {
    hide OneTurn, PrintRecord, Find;
    if suffix == [] {
      NothingIsNotTaken(a);
    } else {
      ReadingOfPlain(suffix, a);
      if NEWLINE in suffix {
        PlainReadsUpTo(suffix[Find(suffix, NEWLINE) + 1..], a);
      }
    }
  }

  lemma NothingIsNotTaken(a: Account)
    ensures !Reading([], a).Took?
  {
    assert PrintRecord([], a)[0] == COLON;
  }

  /** What one record of a tame account adds is tame again. */
  lemma ReadingIsTame(suffix: Text, a: Account, limit: int)
    requires Reading(suffix, a).Took? && ReadsUpTo(suffix, a, a.permission) && a.permission <= ADMIN
    ensures Tame(Reading(suffix, a).name, Reading(suffix, a).account)
    ensures Reading(suffix, a).account.permission <= a.permission
  {
    hide OneTurn, PrintRecord, Find;
    var t := Reading(suffix, a);
    TurnHashFits(PrintRecord(suffix, a));
    PlainReadsUpTo(t.name, t.account);
  }

  lemma {:induction false} ReadStaysUpTo(
      suffix: Text, a: Account, order: seq<Text>, users: Table, totalRead: nat, size: nat, acc: Table, limit: int)
    requires ReadsUpTo(suffix, a, a.permission) && a.permission <= ADMIN && a.permission <= limit
    requires (forall n | n in order :: n in users) && TameUpTo(users, limit) && TameUpTo(acc, limit)
    ensures var r := ReadRecords(suffix, a, order, users, totalRead, size, acc);
            r.Loaded? ==> TameUpTo(r.users, limit)
    decreases |order|, |suffix|
  {
    hide Reading, Tame, Find;
    if totalRead < size && Reading(suffix, a).Took? {
      var Took(p, acct, counted, _) := Reading(suffix, a);
      ReadingIsTame(suffix, a, limit);
      var acc', total := acc[p := acct], totalRead + counted;
      if NEWLINE in suffix {
        ReadStaysUpTo(suffix[Find(suffix, NEWLINE) + 1..], a, order, users, total, size, acc', limit);
      } else if order != [] {
        assert forall n | n in order[1..] :: n in order;
        TameParts(order[0], users[order[0]]);
        ReadStaysUpTo(order[0], users[order[0]], order[1..], users, total, size, acc', limit);
      }
    }
  }

  lemma TameParts(name: Text, a: Account)
    requires Tame(name, a)
    ensures ReadsUpTo(name, a, a.permission) && a.permission <= ADMIN
    ensures 0 < |name| <= MAX_USERNAME_LEN && NUL !in name
  {
  }

  /** Reloading a table of tame accounts never gives a permission above those printed. */
  lemma ReloadRaisesNothing(order: seq<Text>, users: Table, limit: int)
    requires IsOrder(order, users) && TameUpTo(users, limit)
    ensures var r := Load(PrintTable(order, users)); r.Loaded? ==> TameUpTo(r.users, limit)
  {
    hide Tame, ReadRecords, LoadFrom, PrintRecord;
    var size := |PrintTable(order, users)|;
    if order == [] {
      LoadFromEnd(0, size, map[]);
    } else {
      var name := order[0];
      forall n | n in order ensures |n| <= MAX_USERNAME_LEN && NUL !in n {
        TameParts(n, users[n]);
      }
      assert forall n | n in order[1..] :: n in order;
      TameParts(name, users[name]);
      LoadIsRead(name, users[name], order[1..], users, 0, size, map[]);
      ReadStaysUpTo(name, users[name], order[1..], users, 0, size, map[], limit);
    }
  }

  /** For a name with a ':' and no newline, an account is tame exactly when its record is not read as one of a
      higher permission. */
  lemma TameIff(name: Text, a: Account)
    requires Storable(name, a) && NEWLINE !in name
    ensures Tame(name, a) <==> !(Reading(name, a).Took? && Reading(name, a).account.permission > a.permission)
  {
    hide Reading;
  }

  // ----- names that raise, refuse and hang -----

  /** A name that ends in ':' and a number. db_create_user takes it for any number that fits. */
  function WithNumber(prefix: Text, number: Text): Text {
    prefix + [COLON] + number
  }

  /** The account its record is read as: the number becomes the permission, and the printed permission the
      first byte of the hash. */
  function Misread(a: Account, permission: Byte): Account
    requires |a.hash| == 32
  {
    Account(permission, [a.permission] + a.hash[..31])
  }

  /** The permission sscanf makes of a number. */
  function ReadPermission(sign: Text, n: nat): Byte {
    if n >= 0x1_0000_0000_0000_0000 then 255 else if sign == [45] then (256 - n % 256) % 256 else n % 256
  }

  lemma ScanNumberedName(prefix: Text, blanks: Text, sign: Text, n: nat, a: Account)
    requires 0 < |prefix| <= MAX_USERNAME_LEN && COLON !in prefix && NUL !in prefix && IsNumberText(blanks, sign)
    requires |a.hash| == 32 && a.permission <= 9
    ensures ScanRecord(PrintRecord(WithNumber(prefix, NumberText(blanks, sign, n)), a))
         == Record(prefix, ReadPermission(sign, n), [48 + a.permission, COLON] + Hex.Print(a.hash[..31]))
  {
    hide ScanRecord, ScanNumber, Decimal, NumberText;
    var hex := [48 + a.permission, COLON] + Hex.Print(a.hash);
    var t3 := hex + [NEWLINE];
    var t2 := [COLON] + t3;
    var t1 := NumberText(blanks, sign, n) + t2;
    DecimalDigit(a.permission);
    assert PrintRecord(WithNumber(prefix, NumberText(blanks, sign, n)), a) == prefix + ([COLON] + t1);
    ScanRecordIs(prefix, t1);
    ScanNumberText(blanks, sign, n, t2);
    assert t2[1..] == t3;
    Hex.PrintHasOnlyHexDigits(a.hash);
    SpanIs(t3, DIGEST_TEXT_LEN, NEWLINE, 64);
    assert Hex.Print(a.hash)[..62] == Hex.Print(a.hash[..31]);
    assert t3[..64] == [48 + a.permission, COLON] + Hex.Print(a.hash[..31]);
  }

  lemma DecimalDigit(d: nat)
    requires d <= 9
    ensures Decimal(d) == [48 + d]
  {
  }

  lemma DecodeMisread(permission: Byte, bytes: Text)
    requires permission <= 9
    ensures Hex.Decode([48 + permission, COLON] + Hex.Print(bytes)) == Hex.Decoded([permission] + bytes)
  {
    hide Hex.Print, Hex.DecodeFrom;
    var before := [48 + permission, COLON];
    var s := before + Hex.Print(bytes);
    assert s[0] == 48 + permission && s[1] == COLON;
    assert Hex.ScanByte(s, 0) == Hex.Value(permission);
    DecodeOne(s, permission);
    Hex.DecodePrintFrom(before, [permission], bytes, 0);
    assert [permission] + bytes[..0] == [permission];
  }

  lemma DecodeOne(s: Text, b: Byte)
    requires s != [] && Hex.ScanByte(s, 0) == Hex.Value(b)
    ensures Hex.DecodeFrom(s, 0, []) == Hex.DecodeFrom(s, 2, [b])
  {
    hide Hex.ScanByte;
    assert [] + [b] == [b];
  }

  /** Such a record is read as the name before the ':', with the number modulo 256 as its permission, whatever the
      hash: "abc:3", "abc: +3", "abc:259" and "abc:-253" are all administrators. */
  lemma NumberedReading(prefix: Text, blanks: Text, sign: Text, n: nat, a: Account)
    requires 0 < |prefix| <= MAX_USERNAME_LEN && COLON !in prefix && NUL !in prefix && IsNumberText(blanks, sign)
    requires |a.hash| == 32 && a.permission <= 9
    ensures var t := Reading(WithNumber(prefix, NumberText(blanks, sign, n)), a);
            t.Took? && t.name == prefix && t.account == Misread(a, ReadPermission(sign, n))
    ensures ReadPermission([], 3) == ReadPermission([43], 3) == 3
    ensures ReadPermission([], 259) == ReadPermission([45], 253) == 3
  {
    hide ScanRecord, Hex.Decode, Hex.Print, Find, PrintRecord, NumberText;
    ScanNumberedName(prefix, blanks, sign, n, a);
    DecodeMisread(a.permission, a.hash[..31]);
  }

  const ABC: Text := [97, 98, 99] // "abc"
  const ABC_3: Text := ABC + [COLON, 51] // "abc:3"
  const ABC_COLON: Text := ABC + [COLON] // "abc:"
  const AB_3_XY: Text := [97, 98, COLON, 51, COLON, 120, 121] // "ab:3:xy"

  lemma AbcIsReadAsAdmin(a: Account)
    requires |a.hash| == 32 && a.permission <= 9
    ensures var t := Reading(ABC_3, a); t.Took? && t.name == ABC && t.account == Misread(a, ADMIN)
  {
    assert Decimal(3) == [51];
    assert WithNumber(ABC, NumberText([], [], 3)) == ABC_3;
    NumberedReading(ABC, [], [], 3, a);
  }

  /** "abc:" has no number after its ':', so its record is refused. */
  lemma AbcColonIsRefused(a: Account)
    requires a.permission <= 9
    ensures Reading(ABC_COLON, a) == BadRecord
  {
    hide Decimal, Hex.Print;
    var tail := [COLON] + (Decimal(a.permission) + [COLON] + Hex.Print(a.hash) + [NEWLINE]);
    var s := PrintRecord(ABC_COLON, a);
    assert s == ABC + ([COLON] + tail);
    SpanIs(s, MAX_USERNAME_LEN, COLON, 3);
    assert s[4..] == tail && tail[0] == COLON;
    DigitRunIs(tail, 0);
  }

  /** The record of "ab:3:xy" has "xy" where the hash begins, on which the hexadecimal loop never advances. */
  lemma XyHangs(a: Account)
    requires |a.hash| == 32 && a.permission <= 9
    ensures Reading(AB_3_XY, a).Hangs?
  {
    hide ScanRecord, Hex.Decode;
    var hash := ScanXy(a);
    XyIsStuck(hash);
  }

  lemma ScanXy(a: Account) returns (hash: Text)
    requires |a.hash| == 32 && a.permission <= 9
    ensures ScanRecord(PrintRecord(AB_3_XY, a)) == Record([97, 98], 3, hash) && |hash| == 64 && hash[0] == 120
  {
    hide ScanRecord, Hex.Print, ScanNumber, Decimal;
    DecimalDigit(a.permission);
    var hex := [120, 121, COLON, 48 + a.permission, COLON] + Hex.Print(a.hash) + [NEWLINE];
    var t2 := [COLON] + hex;
    DecimalDigit(3);
    assert PrintRecord(AB_3_XY, a) == [97, 98] + ([COLON] + (Decimal(3) + t2));
    ScanRecordIs([97, 98], Decimal(3) + t2);
    ScanNumberPrinted(3, t2);
    assert t2[1..] == hex;
    Hex.PrintHasOnlyHexDigits(a.hash);
    SpanIs(hex, DIGEST_TEXT_LEN, NEWLINE, DIGEST_TEXT_LEN);
    hash := hex[..64];
  }

  lemma XyIsStuck(hash: Text)
    requires |hash| == 64 && hash[0] == 120
    ensures Hex.Decode(hash) == Hex.Stuck
  {
    assert Hex.ScanByte(hash, 0) == Hex.NoMatch;
  }
}
