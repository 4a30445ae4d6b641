/** Whole snapshot files: records one after another, told apart by their keywords
    (`sysinfo_write`, `sysinfo_read`). */
module Snapshot {
  import opened AdfText
  import opened CText
  import opened Dumps
  import opened Fields
  import opened MacList
  import opened Numbers
  import opened Options
  import opened Reader
  import opened Records
  import opened Rows
  import opened Scanner

  /** Which function reads a record, and for some how much room it has. */
  datatype Kind =
    | HoleKind | MacKind | ByteKind(room: nat) | FileKind | AdfKind(room: nat)
    | RowKind(row: seq<Format>) | TableKind(row: seq<Format>) | FlexKind
    | EndKind

  datatype Keyed = Keyed(name: string, kind: Kind)

  /** The keyword table: the names differ even when case is ignored. */
  ghost predicate Table(t: seq<Keyed>) {
    && (forall k :: 0 <= k < |t| ==> Keyword(t[k].name))
    && (forall j, k :: 0 <= j < k < |t| ==> StrICmp(t[k].name, t[j].name) != 0)
  }

  /** The first entry that agrees with the keyword. */
  function Find(t: seq<Keyed>, kw: string): Option<Keyed> {
    if t == [] then None else if StrICmp(kw, t[0].name) == 0 then Some(t[0]) else Find(t[1..], kw)
  }

  lemma {:induction false} StrICmpSame(s: string)
    ensures StrICmp(s, s) == 0
  {
    if s != "" {
      StrICmpSame(s[1..]);
    }
  }

  lemma {:induction false} FindsItself(t: seq<Keyed>, k: nat)
    requires Table(t) && k < |t|
    ensures Find(t, t[k].name) == Some(t[k])
  {
    StrICmpSame(t[k].name);
    if k > 0 {
      var m := t[1..];
      assert forall j :: 0 <= j < |m| ==> m[j] == t[j + 1];
      FindsItself(m, k - 1);
    }
  }

  datatype Record =
    | Holes(kw: string, holes: seq<Hole>)
    | Macs(kw: string, macs: seq<Mac>)
    | Bytes(kw: string, bytes: seq<Byte>)
    | Text(kw: string, text: TextFile)
    | Adapters(kw: string, slots: seq<Option<Adapter>>)
    | Values(kw: string, fs: seq<Format>, vs: seq<Value>)
    | Tabled(kw: string, fs: seq<Format>, rows: seq<seq<Value>>)
    | Flexed(kw: string, entries: seq<seq<Value>>)

  /** The record's keyword is in the table with its kind. */
  ghost predicate Filed(t: seq<Keyed>, r: Record) {
    exists k :: 0 <= k < |t| && t[k].name == r.kw && Fits(t[k].kind, r)
  }

  predicate Fits(kind: Kind, r: Record) {
    match r
    case Holes(_, hs) => kind.HoleKind?
    case Macs(_, ms) => kind.MacKind?
    case Bytes(_, bs) => kind.ByteKind? && |bs| <= kind.room
    case Text(_, f) => kind.FileKind?
    case Adapters(_, ss) => kind.AdfKind? && |ss| <= kind.room
    case Values(_, fs, _) => kind == RowKind(fs)
    case Tabled(_, fs, _) => kind == TableKind(fs)
    case Flexed(_, _) => kind.FlexKind?
  }

  /** A record that is written at all and that survives. */
  ghost predicate Good(r: Record) {
    match r
    case Holes(_, hs) => hs != [] && |hs| < 0x1_0000 && forall h :: h in hs ==> GoodHole(h)
    case Macs(_, ms) => ms != [] && |ms| < 0x1_0000 && forall m :: m in ms ==> GoodMac(m)
    case Bytes(_, bs) => |bs| < 0x1_0000
    case Text(_, f) => f.lines != [] && |f.lines| < 0x1_0000 && GoodName(f.name) && forall s :: s in f.lines ==> GoodLine(s)
    case Adapters(_, ss) => |ss| < 0x1_0000 && forall s :: s in ss ==> GoodSlot(s)
    case Values(_, fs, vs) => fs != [] && AllSuit(vs, fs)
    case Tabled(_, fs, rows) => fs != [] && rows != [] && |rows| < 0x1_0000 && AllRows(rows, fs)
    case Flexed(_, rows) => rows != [] && |rows| < 0x1_0000 && AllRows(rows, FLEX) && NoneBogus(rows)
  }

  function RecordOut(r: Record): string {
    match r
    case Holes(kw, hs) => Section(kw, HoleFields, hs)
    case Macs(kw, ms) => Section(kw, MacFields, ms)
    case Bytes(kw, bs) => Dump(kw, bs)
    case Text(kw, f) => FileOut(kw, f)
    case Adapters(kw, ss) => AdfOut(kw, ss)
    case Values(kw, fs, vs) => if fs == [] then "" else Launder(RowText(kw, vs, fs))
    case Tabled(kw, fs, rows) => Section(kw, RowOf(fs), rows)
    case Flexed(kw, rows) => Section(kw, RowOf(FLEX), rows)
  }

  /** The count, then as many items as it says, or as there is room for. */
  function ReadCounted<T>(read: Input -> Read<T>, i: Input, room: nat): Read<seq<T>> {
    var c := Next(i);
    var n := Low16(Scanned(c.value, 10));
    if c.eof then Failed else ReadMany(read, [], c.rest, if n > room then room else n)
  }

  /** The record a keyword announces. */
  function ReadBody(e: Keyed, i: Input): Read<Record> {
    match e.kind
    case HoleKind =>
      (match ReadCounted(ReadHole, i, 0x1_0000) case Failed => Failed case Got(x, rest) => Got(Holes(e.name, x), rest))
    case MacKind =>
      (match ReadCounted(ReadMac, i, 0x1_0000) case Failed => Failed case Got(x, rest) => Got(Macs(e.name, x), rest))
    case ByteKind(room) =>
      (match ReadCounted(ReadByte, i, room) case Failed => Failed case Got(x, rest) => Got(Bytes(e.name, x), rest))
    case FileKind =>
      (match ReadFile(i) case Failed => Failed case Got(x, rest) => Got(Text(e.name, x), rest))
    case AdfKind(room) =>
      (match ReadCounted(ReadSlot, i, room) case Failed => Failed case Got(x, rest) => Got(Adapters(e.name, x), rest))
    case RowKind(fs) =>
      (match ReadRow(fs, [], i) case Failed => Failed case Got(x, rest) => Got(Values(e.name, fs, x), rest))
    case TableKind(fs) =>
      (match ReadCounted(RowReader(fs), i, 0x1_0000)
       case Failed => Failed
       case Got(x, rest) => Got(Tabled(e.name, fs, x), rest))
    case FlexKind =>
      (match ReadFlexRom(i) case Failed => Failed case Got(x, rest) => Got(Flexed(e.name, x), rest))
    case EndKind => Failed
  }

  /** What the main loop does with the file: the records up to the end keyword or the end of the
      file; an unknown keyword, or a record cut short, is an error.  Keywords are taken as long as
      left allows. */
  function ReadRecords(t: seq<Keyed>, done: seq<Record>, i: Input, left: nat): Read<seq<Record>>
    decreases left
  {
    var k := Token(i, 32);
    var e := Find(t, k.value);
    if k.eof then Got(done, End)
    else if e.None? then Failed
    else if e.value.kind.EndKind? then Got(done, k.rest)
    else if left == 0 then Failed
    else match ReadBody(e.value, k.rest)
      case Failed => Failed
      case Got(r, rest) => ReadRecords(t, done + [r], rest, left - 1)
  }

  /** The record as it comes back. */
  function Restored(r: Record): Record {
    if r.Adapters? then Adapters(r.kw, Backs(r.slots)) else r
  }

  /** What is left after a record: at most its own line end. */
  predicate Behind(i: Input, rest: Input) {
    i == rest || i == More('\n', rest)
  }

  lemma Counted<T>(read: Input -> Read<T>, i: Input, room: nat, xs: seq<T>, n: Word, rest: Input)
    requires var c := Next(i);
      !c.eof && Scanned(c.value, 10) == n && n <= room && ReadMany(read, [], c.rest, n) == Got(xs, rest)
    ensures ReadCounted(read, i, room) == Got(xs, rest)
  {
  }

  /** A keyword and what follows it. */
  lemma HolesBack(gap: string, e: Keyed, hs: seq<Hole>, rest: Input)
    requires Gap(gap, false) && Keyword(e.name) && Good(Holes(e.name, hs)) && e.kind.HoleKind?
    ensures var k := Token(Feed(gap, Feed(Section(e.name, HoleFields, hs), rest)), 32);
      && k.value == e.name && !k.eof && ReadBody(e, k.rest) == Got(Holes(e.name, hs), More('\n', rest))
  {
    hide Scanned, Token, ReadHole;
    forall h | h in hs ensures Sound(HoleFields(h)) {
      HoleSound(h);
    }
    SectionRead(gap, e.name, HoleFields, hs, rest);
    HolesRead("", [], hs, rest);
    assert [] + hs == hs;
    var k := Token(Feed(gap, Feed(Section(e.name, HoleFields, hs), rest)), 32);
    Counted(ReadHole, k.rest, 0x1_0000, hs, |hs|, More('\n', rest));
  }

  lemma MacsBack(gap: string, e: Keyed, ms: seq<Mac>, rest: Input)
    requires Gap(gap, false) && Keyword(e.name) && Good(Macs(e.name, ms)) && e.kind.MacKind?
    ensures var k := Token(Feed(gap, Feed(Section(e.name, MacFields, ms), rest)), 32);
      && k.value == e.name && !k.eof && ReadBody(e, k.rest) == Got(Macs(e.name, ms), MacsLeft("", ms, rest))
  {
    hide Scanned, Token, ReadMac;
    forall m | m in ms ensures Sound(MacFields(m)) {
      MacSound(m);
    }
    SectionRead(gap, e.name, MacFields, ms, rest);
    MacsRead("", [], ms, rest);
    assert [] + ms == ms;
    var k := Token(Feed(gap, Feed(Section(e.name, MacFields, ms), rest)), 32);
    Counted(ReadMac, k.rest, 0x1_0000, ms, |ms|, MacsLeft("", ms, rest));
  }

  lemma BytesBack(gap: string, e: Keyed, bs: seq<Byte>, rest: Input)
    requires Gap(gap, false) && Keyword(e.name) && |bs| < 0x1_0000 && Fits(e.kind, Bytes(e.name, bs))
    ensures var k := Token(Feed(gap, Feed(Dump(e.name, bs), rest)), 32);
      && k.value == e.name && !k.eof && ReadBody(e, k.rest) == Got(Bytes(e.name, bs), rest)
  {
    DumpSurvives(gap, e.name, bs, rest);
    var k := Token(Feed(gap, Feed(Dump(e.name, bs), rest)), 32);
    Counted(ReadByte, k.rest, e.kind.room, bs, |bs|, rest);
  }

  lemma AdaptersBack(gap: string, e: Keyed, ss: seq<Option<Adapter>>, rest: Input)
    requires Gap(gap, false) && Keyword(e.name) && Good(Adapters(e.name, ss)) && Fits(e.kind, Adapters(e.name, ss))
    ensures var k := Token(Feed(gap, Feed(AdfOut(e.name, ss), rest)), 32);
      && k.value == e.name && !k.eof && ReadBody(e, k.rest) == Got(Adapters(e.name, Backs(ss)), SlotsLeft("", ss, rest))
  {
    AdfSurvives(gap, e.name, ss, rest);
    var k := Token(Feed(gap, Feed(AdfOut(e.name, ss), rest)), 32);
    Counted(ReadSlot, k.rest, e.kind.room, Backs(ss), |ss|, SlotsLeft("", ss, rest));
  }

  lemma ValuesBack(gap: string, e: Keyed, fs: seq<Format>, vs: seq<Value>, rest: Input)
    requires Gap(gap, false) && Keyword(e.name) && Good(Values(e.name, fs, vs)) && e.kind == RowKind(fs)
    ensures var k := Token(Feed(gap, Feed(RecordOut(Values(e.name, fs, vs)), rest)), 32);
      && k.value == e.name && !k.eof && ReadBody(e, k.rest) == Got(Values(e.name, fs, vs), RowLeft(fs, rest))
  {
    hide ReadRow, AllSuit, RowText, Token, Gap, RowLeft;
    RowSurvives(gap, e.name, vs, fs, rest);
  }

  lemma TableBack(gap: string, e: Keyed, fs: seq<Format>, rows: seq<seq<Value>>, rest: Input)
    requires Gap(gap, false) && Keyword(e.name) && Good(Tabled(e.name, fs, rows)) && e.kind == TableKind(fs)
    ensures var k := Token(Feed(gap, Feed(Section(e.name, RowOf(fs), rows), rest)), 32);
      && k.value == e.name && !k.eof && ReadBody(e, k.rest) == Got(Tabled(e.name, fs, rows), RowLeft(fs, rest))
  {
    hide ReadRow, AllSuit, Token, Row, RowLeft, Scanned, Section;
    TableSound(rows, fs);
    SectionRead(gap, e.name, RowOf(fs), rows, rest);
    TableRead("", [], rows, fs, rest);
    NoGap(In(RowOf(fs), rows, rest));
    assert [] + rows == rows;
    var k := Token(Feed(gap, Feed(Section(e.name, RowOf(fs), rows), rest)), 32);
    Counted(RowReader(fs), k.rest, 0x1_0000, rows, |rows|, RowLeft(fs, rest));
  }

  /** The flexed ROMs come back exactly when no entry has source or destination 0. */
  lemma FlexBack(gap: string, e: Keyed, rows: seq<seq<Value>>, rest: Input)
    requires Gap(gap, false) && Keyword(e.name) && e.kind.FlexKind?
    requires rows != [] && |rows| < 0x1_0000 && AllRows(rows, FLEX)
    ensures var k := Token(Feed(gap, Feed(Section(e.name, RowOf(FLEX), rows), rest)), 32);
      && k.value == e.name && !k.eof
      && (ReadBody(e, k.rest) == Got(Flexed(e.name, rows), rest) <==> NoneBogus(rows))
  {
    hide ReadFlex, AllSuit, Token, Row, Scanned, Section, NoneBogus;
    TableSound(rows, FLEX);
    SectionRead(gap, e.name, RowOf(FLEX), rows, rest);
    FlexSurvives(rows, rest);
  }

  /** One record is read back, and at most a line end stands before the next. */
  lemma RecordBack(gap: string, e: Keyed, r: Record, rest: Input) returns (left: Input)
    requires Gap(gap, false) && Keyword(e.name) && e.name == r.kw && Fits(e.kind, r) && Good(r)
    ensures var k := Token(Feed(gap, Feed(RecordOut(r), rest)), 32);
      && k.value == e.name && !k.eof && ReadBody(e, k.rest) == Got(Restored(r), left) && Behind(left, rest)
  {
    match r
    case Holes(kw, hs) =>
      HolesBack(gap, e, hs, rest);
      left := More('\n', rest);
    case Macs(kw, ms) =>
      MacsBack(gap, e, ms, rest);
      left := MacsLeft("", ms, rest);
    case Bytes(kw, bs) =>
      BytesBack(gap, e, bs, rest);
      left := rest;
    case Text(kw, f) =>
      FileSurvives(gap, kw, f, rest);
      left := rest;
    case Adapters(kw, ss) =>
      AdaptersBack(gap, e, ss, rest);
      left := SlotsLeft("", ss, rest);
    case Values(kw, fs, vs) =>
      ValuesBack(gap, e, fs, vs, rest);
      left := RowLeft(fs, rest);
    case Tabled(kw, fs, rows) =>
      TableBack(gap, e, fs, rows, rest);
      left := RowLeft(fs, rest);
    case Flexed(kw, rows) =>
      FlexBack(gap, e, rows, rest);
      left := rest;
  }

  function RecordsOut(rs: seq<Record>, end: string): string {
    if rs == [] then Launder(end + ['\n']) else RecordOut(rs[0]) + RecordsOut(rs[1..], end)
  }

  function AllRestored(rs: seq<Record>): seq<Record> {
    if rs == [] then [] else [Restored(rs[0])] + AllRestored(rs[1..])
  }

  lemma EndRead(gap: string, t: seq<Keyed>, done: seq<Record>, k: nat, n: nat, rest: Input)
    requires Gap(gap, false) && Table(t) && k < |t| && t[k].kind.EndKind?
    ensures ReadRecords(t, done, Feed(gap, Put(t[k].name + ['\n'], rest)), n) == Got(done, rest)
  {
    var kw := t[k].name;
    BareHasNoNul(kw);
    PutCat(kw, ['\n'], rest);
    PutChar(['\n'], rest);
    BareToken(gap, kw, '\n', rest, 32);
    FindsItself(t, k);
  }

  lemma RecordRead(t: seq<Keyed>, done: seq<Record>, i: Input, n: nat, e: Keyed, r: Record, left: Input)
    requires n > 0 && !e.kind.EndKind?
    requires var k := Token(i, 32); !k.eof && Find(t, k.value) == Some(e) && ReadBody(e, k.rest) == Got(r, left)
    ensures ReadRecords(t, done, i, n) == ReadRecords(t, done + [r], left, n - 1)
  {
  }

  /** A whole file of records is read back, each equal to what was written save for adapters with
      number 0, and reading stops at the end keyword. */
  lemma {:induction false} SnapshotSurvives(
      gap: string, t: seq<Keyed>, done: seq<Record>, rs: seq<Record>, k: nat, rest: Input)
    requires Gap(gap, false) && Table(t) && k < |t| && t[k].kind.EndKind?
    requires forall r :: r in rs ==> Filed(t, r) && Good(r)
    ensures ReadRecords(t, done, Feed(gap, Feed(RecordsOut(rs, t[k].name), rest)), |rs|) == Got(done + AllRestored(rs), rest)
    decreases |rs|
  {
    if rs == [] {
      assert done + AllRestored(rs) == done;
      EndRead(gap, t, done, k, 0, rest);
    } else {
      var r, after := rs[0], Feed(RecordsOut(rs[1..], t[k].name), rest);
      assert Filed(t, r) && Good(r);
      var j :| 0 <= j < |t| && t[j].name == r.kw && Fits(t[j].kind, r);
      FindsItself(t, j);
      FeedCat(RecordOut(r), RecordsOut(rs[1..], t[k].name), rest);
      var left := RecordBack(gap, t[j], r, after);
      FeedNewline(after);
      RecordRead(t, done, Feed(gap, Feed(RecordsOut(rs, t[k].name), rest)), |rs|, t[j], Restored(r), left);
      SnapshotSurvives(if left == after then "" else ['\n'], t, done + [Restored(r)], rs[1..], k, rest);
      assert (done + [Restored(r)]) + AllRestored(rs[1..]) == done + AllRestored(rs);
    }
  }
}
