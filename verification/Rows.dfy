/** The records of plain values (ASQENG/WRITSYS.C, ASQENG/READSYS.C): a keyword and one row of
    numbers and quoted strings, or a keyword, a count and that many rows. */
module Rows {
  import opened CText
  import opened Fields
  import opened Numbers
  import opened Reader
  import opened Records
  import opened Scanner

  /** How a value is printed and read: after some blanks, a number in a base, filled up with zeros or
      with blanks, of 32 bits or of 16, or a string in quotes, read into a field. */
  datatype Format =
    | Number(gap: nat, base: Base, zeros: nat, blanks: nat, long: bool)
    | Quote(gap: nat, size: nat)

  datatype Value = Num(n: Dword) | Txt(s: string)

  /** The value has the kind the format asks for, fits its variable and survives. */
  predicate Suits(v: Value, f: Format) {
    match f
    case Number(_, _, zeros, _, long) => v.Num? && zeros <= 10 && (long || v.n < 0x1_0000)
    case Quote(_, size) => v.Txt? && Clean(v.s) && |v.s| < size < MAXTOKEN
  }

  predicate AllSuit(vs: seq<Value>, fs: seq<Format>) {
    |vs| == |fs| && (vs != [] ==> Suits(vs[0], fs[0]) && AllSuit(vs[1..], fs[1..]))
  }

  function Cell(v: Value, f: Format, next: Fields): Fields {
    match (v, f)
    case (Num(n), Number(gap, base, zeros, blanks, _)) =>
      var d := Padded(Digits(n, base), zeros);
      Field(Spaces(gap + if |d| < blanks then blanks - |d| else 0), false, d, next)
    case (Txt(s), Quote(gap, _)) => Field(Spaces(gap), true, s, next)
    case _ => next
  }

  function Row(vs: seq<Value>, fs: seq<Format>): Fields {
    if vs == [] || fs == [] then Eol else Cell(vs[0], fs[0], Row(vs[1..], fs[1..]))
  }

  function RowOf(fs: seq<Format>): seq<Value> -> Fields {
    vs => Row(vs, fs)
  }

  function ReadValue(f: Format, i: Input): Read<Value> {
    var a := Next(i);
    if a.eof then Failed
    else
      Got(match f
          case Number(_, base, _, _, long) =>
            var n := Scanned(a.value, base);
            Num(if long then Low32(n) else Low16(n))
          case Quote(_, size) => Txt(if size > 0 then FieldOf(a.value, size) else ""),
          a.rest)
  }

  /** One value after another. */
  function ReadRow(fs: seq<Format>, done: seq<Value>, i: Input): Read<seq<Value>> {
    if fs == [] then Got(done, i)
    else match ReadValue(fs[0], i)
      case Failed => Failed
      case Got(v, rest) => ReadRow(fs[1..], done + [v], rest)
  }

  function RowReader(fs: seq<Format>): Input -> Read<seq<Value>> {
    i => ReadRow(fs, [], i)
  }

  /** A number is filled up to its width behind the gap, with zeros or with blanks. */
  lemma CellColumns(n: Dword, f: Format, next: Fields)
    requires f.Number? && f.zeros <= 10
    ensures var c, d := Cell(Num(n), f, next), |Digits(n, f.base)|;
      && |c.s| == (if d < f.zeros then f.zeros else d)
      && |c.pad| + |c.s| == f.gap + (if |c.s| < f.blanks then f.blanks else |c.s|)
      && ValueOn(0, c.s, f.base) == n && Blanks(c.pad)
  {
    hide Padded, Digits, Spaces;
    DigitsValue(n, f.base);
    PaddedZeros(Digits(n, f.base), f.zeros, f.base);
    var d := Padded(Digits(n, f.base), f.zeros);
    SpacesAreBlanks(f.gap + if |d| < f.blanks then f.blanks - |d| else 0);
  }

  lemma CellSound(v: Value, f: Format, next: Fields)
    requires Suits(v, f) && Sound(next)
    ensures Sound(Cell(v, f, next)) && Cell(v, f, next).Field? && Cell(v, f, next).next == next
    ensures Cell(v, f, next).quoted == f.Quote?
    ensures var a := Cell(v, f, next).s;
      v == match f
        case Number(_, base, _, _, long) => Num(if long then Low32(Scanned(a, base)) else Low16(Scanned(a, base)))
        case Quote(_, size) => Txt(FieldOf(a, size))
  {
    hide Scanned, Padded, Digits, Bare, Clean, Blanks;
    match f
    case Number(gap, base, zeros, blanks, _) =>
      var d := Padded(Digits(v.n, base), zeros);
      NumberSurvives(v.n, base, zeros);
      SpacesAreBlanks(gap + if |d| < blanks then blanks - |d| else 0);
    case Quote(gap, _) =>
      SpacesAreBlanks(gap);
  }

  lemma {:induction false} RowSound(vs: seq<Value>, fs: seq<Format>)
    requires AllSuit(vs, fs)
    ensures Sound(Row(vs, fs))
  {
    if vs != [] {
      RowSound(vs[1..], fs[1..]);
      CellSound(vs[0], fs[0], Row(vs[1..], fs[1..]));
    }
  }

  /** After a row the reader stands at the next line, or at its line end when the last value is in
      quotes. */
  function RowLeft(fs: seq<Format>, rest: Input): Input {
    if fs != [] && fs[|fs| - 1].Quote? then More('\n', rest) else rest
  }

  /** One value is read; a number takes the blank or line end behind it. */
  lemma ValueRead(gap: string, eaten: bool, v: Value, f: Format, next: Fields, rest: Input)
    requires Gap(gap, false) && Suits(v, f) && Sound(next)
    ensures var line := LineIn(Cell(v, f, next), rest);
      ReadValue(f, if eaten then line.rest else Feed(gap, line))
      == Got(v, if f.Quote? then LineIn(next, rest) else LineIn(next, rest).rest)
  {
    hide Scanned, FieldOf, Sound, Cell, LineIn, Gap;
    var c := Cell(v, f, next);
    CellSound(v, f, next);
    if eaten {
      FieldNextEaten(c, rest);
    } else {
      FieldNext(gap, c, rest);
    }
  }

  lemma RowSplit(vs: seq<Value>, fs: seq<Format>)
    requires AllSuit(vs, fs) && vs != []
    ensures Row(vs, fs) == Cell(vs[0], fs[0], Row(vs[1..], fs[1..]))
    ensures Suits(vs[0], fs[0]) && AllSuit(vs[1..], fs[1..]) && |fs| == |vs|
    ensures |vs| == 1 ==> Row(vs[1..], fs[1..]) == Eol
  {
    hide Suits, Cell;
  }

  lemma LeftOfTail(fs: seq<Format>, rest: Input)
    requires fs != []
    ensures |fs| > 1 ==> RowLeft(fs, rest) == RowLeft(fs[1..], rest)
    ensures |fs| == 1 ==> RowLeft(fs, rest) == if fs[0].Quote? then More('\n', rest) else rest
  {
  }

  /** All values of a row are read back. */
  lemma {:induction false} RowRead(
      gap: string, eaten: bool, done: seq<Value>, vs: seq<Value>, fs: seq<Format>, rest: Input)
    requires AllSuit(vs, fs) && vs != [] && Gap(gap, false)
    ensures var line := LineIn(Row(vs, fs), rest);
      ReadRow(fs, done, if eaten then line.rest else Feed(gap, line)) == Got(done + vs, RowLeft(fs, rest))
    decreases |vs|
  {
    hide ReadValue, Suits, AllSuit, Row, RowLeft, Cell, Sound, Gap;
    RowSplit(vs, fs);
    LeftOfTail(fs, rest);
    var next := Row(vs[1..], fs[1..]);
    RowSound(vs[1..], fs[1..]);
    ValueRead(gap, eaten, vs[0], fs[0], next, rest);
    var line := LineIn(Row(vs, fs), rest);
    var i := if eaten then line.rest else Feed(gap, line);
    var after := if fs[0].Quote? then LineIn(next, rest) else LineIn(next, rest).rest;
    assert ReadRow(fs, done, i) == ReadRow(fs[1..], done + [vs[0]], after);
    if |vs| == 1 {
      assert done + vs == done + [vs[0]];
    } else {
      NoGap(LineIn(next, rest));
      RowRead("", !fs[0].Quote?, done + [vs[0]], vs[1..], fs[1..], rest);
      assert (done + [vs[0]]) + vs[1..] == done + vs;
    }
  }

  lemma NoGap(i: Input)
    ensures Feed("", i) == i && Gap("", false)
  {
  }

  // ----- one row behind its keyword -----

  /** The blanks that make the keyword ten wide go to the first value. */
  function Moved(f: Format, n: nat): Format {
    match f
    case Number(gap, base, zeros, blanks, long) => Number(gap + n, base, zeros, blanks, long)
    case Quote(gap, size) => Quote(gap + n, size)
  }

  function Indented(kw: string, fs: seq<Format>): seq<Format>
    requires fs != []
  {
    [Moved(fs[0], if |kw| < 10 then 10 - |kw| else 0)] + fs[1..]
  }

  /** `prt_HEXWORD`, `prt_string`, `prt_EMSPARM` and their like: everything on one line. */
  function RowText(kw: string, vs: seq<Value>, fs: seq<Format>): string
    requires fs != []
  {
    kw + Line(Row(vs, Indented(kw, fs)))
  }

  lemma IndentedSame(kw: string, vs: seq<Value>, fs: seq<Format>, done: seq<Value>, i: Input, rest: Input)
    requires fs != []
    ensures AllSuit(vs, fs) ==> AllSuit(vs, Indented(kw, fs))
    ensures ReadRow(Indented(kw, fs), done, i) == ReadRow(fs, done, i)
    ensures RowLeft(Indented(kw, fs), rest) == RowLeft(fs, rest)
  {
    assert Indented(kw, fs)[1..] == fs[1..];
  }

  /** The keyword is read by the main loop, then the values by the record's function. */
  lemma RowSurvives(gap: string, kw: string, vs: seq<Value>, fs: seq<Format>, rest: Input)
    requires Gap(gap, false) && Keyword(kw) && AllSuit(vs, fs) && fs != []
    ensures var k := Token(Feed(gap, Feed(Launder(RowText(kw, vs, fs)), rest)), 32);
      k.value == kw && !k.eof && ReadRow(fs, [], k.rest) == Got(vs, RowLeft(fs, rest))
  {
    hide ReadRow, AllSuit, Row, RowLeft, Indented, Token, Bare, Gap;
    var row := Row(vs, Indented(kw, fs));
    var i := LineIn(row, rest);
    IndentedSame(kw, vs, fs, [], i.rest, rest);
    RowSound(vs, Indented(kw, fs));
    KeywordRead(gap, kw, row, rest);
    SuitsHasLength(vs, fs);
    NoGap(End);
    RowRead("", true, [], vs, Indented(kw, fs), rest);
    assert [] + vs == vs;
  }

  lemma KeywordRead(gap: string, kw: string, row: Fields, rest: Input)
    requires Gap(gap, false) && Keyword(kw) && Sound(row)
    ensures var k := Token(Feed(gap, Put(kw + Line(row), rest)), 32);
      k.value == kw && !k.eof && k.rest == LineIn(row, rest).rest
  {
    BareHasNoNul(kw);
    PutCat(kw, Line(row), rest);
    PutLine(row, rest);
    var i := LineIn(row, rest);
    BareToken(gap, kw, i.c, i.rest, 32);
  }

  // ----- a table of rows -----

  ghost predicate AllRows(rows: seq<seq<Value>>, fs: seq<Format>) {
    forall vs :: vs in rows ==> AllSuit(vs, fs)
  }

  /** What is left when the whole table has been read. */
  function TableLeft(gap: string, rows: seq<seq<Value>>, fs: seq<Format>, rest: Input): Input {
    if rows == [] then Feed(gap, rest) else RowLeft(fs, rest)
  }

  lemma TableFirst(rows: seq<seq<Value>>, fs: seq<Format>, rest: Input)
    requires rows != []
    ensures In(RowOf(fs), rows, rest) == LineIn(Row(rows[0], fs), In(RowOf(fs), rows[1..], rest))
    ensures forall gap :: TableLeft(gap, rows, fs, rest) == RowLeft(fs, rest)
    ensures |rows| > 1 ==> forall gap :: TableLeft(gap, rows[1..], fs, rest) == RowLeft(fs, rest)
  {
  }

  lemma TableNone(gap: string, fs: seq<Format>, rest: Input)
    ensures In(RowOf(fs), [], rest) == rest && TableLeft(gap, [], fs, rest) == Feed(gap, rest)
  {
  }

  lemma LeftGap(fs: seq<Format>, rest: Input)
    ensures var g := if fs != [] && fs[|fs| - 1].Quote? then ['\n'] else "";
      Gap(g, false) && Feed(g, rest) == RowLeft(fs, rest)
  {
    FeedNewline(rest);
  }

  /** Every row of a table is read back. */
  lemma {:induction false} TableRead(gap: string, done: seq<seq<Value>>, rows: seq<seq<Value>>, fs: seq<Format>, rest: Input)
    requires Gap(gap, false) && AllRows(rows, fs) && fs != []
    ensures ReadMany(RowReader(fs), done, Feed(gap, In(RowOf(fs), rows, rest)), |rows|)
         == Got(done + rows, TableLeft(gap, rows, fs, rest))
    decreases |rows|
  {
    hide ReadRow, AllSuit, Row, RowLeft, Gap, Feed, In, LineIn, TableLeft;
    if rows == [] {
      TableNone(gap, fs, rest);
      assert done + rows == done;
    } else {
      var after := In(RowOf(fs), rows[1..], rest);
      var g := if fs[|fs| - 1].Quote? then ['\n'] else "";
      TableFirst(rows, fs, rest);
      SuitsHasLength(rows[0], fs);
      RowRead(gap, false, [], rows[0], fs, after);
      assert [] + rows[0] == rows[0];
      ReadFirst(RowReader(fs), done, Feed(gap, In(RowOf(fs), rows, rest)), |rows|);
      LeftGap(fs, after);
      LeftGap(fs, rest);
      TableNone(g, fs, rest);
      TableRead(g, done + [rows[0]], rows[1..], fs, rest);
      assert (done + [rows[0]]) + rows[1..] == done + rows;
    }
  }

  lemma SuitsHasLength(vs: seq<Value>, fs: seq<Format>)
    requires AllSuit(vs, fs)
    ensures |vs| == |fs|
  {
  }

  lemma TableSound(rows: seq<seq<Value>>, fs: seq<Format>)
    requires AllRows(rows, fs)
    ensures forall vs :: vs in rows ==> Sound(RowOf(fs)(vs))
  {
    forall vs | vs in rows ensures Sound(RowOf(fs)(vs)) {
      RowSound(vs, fs);
    }
  }

  // ----- the flexed ROMs -----

  /** One entry of `prt_FLEXROM`: source, destination, length and flags. */
  const HEX: Format := Number(0, 16, 0, 4, false)
  const FLEX: seq<Format> := [HEX, HEX, HEX, HEX]

  /** An entry whose source or destination is 0, as an older version could write it. */
  predicate Bogus(vs: seq<Value>) {
    |vs| == 4 && (vs[0] == Num(0) || vs[1] == Num(0))
  }

  /** `scn_FLEXROM` after the count: such an entry discards the whole list, and the entries behind it
      are not read. */
  function ReadFlex(done: seq<seq<Value>>, i: Input, n: nat): Read<seq<seq<Value>>>
    decreases n
  {
    if n == 0 then Got(done, i)
    else match ReadRow(FLEX, [], i)
      case Failed => Failed
      case Got(vs, rest) => if Bogus(vs) then Got([], rest) else ReadFlex(done + [vs], rest, n - 1)
  }

  /** The entries behind the first bogus one. */
  function Unread(rows: seq<seq<Value>>): seq<seq<Value>> {
    if rows == [] then [] else if Bogus(rows[0]) then rows[1..] else Unread(rows[1..])
  }

  predicate NoneBogus(rows: seq<seq<Value>>) {
    forall vs :: vs in rows ==> !Bogus(vs)
  }

  lemma {:induction false} FlexRead(gap: string, done: seq<seq<Value>>, rows: seq<seq<Value>>, rest: Input)
    requires Gap(gap, false) && AllRows(rows, FLEX)
    ensures ReadFlex(done, Feed(gap, In(RowOf(FLEX), rows, rest)), |rows|) ==
      if NoneBogus(rows) then Got(done + rows, if rows == [] then Feed(gap, rest) else rest)
      else Got([], In(RowOf(FLEX), Unread(rows), rest))
    decreases |rows|
  {
    hide ReadRow, AllSuit, Row, Gap, Feed, In, LineIn, Bogus;
    if rows == [] {
      TableNone(gap, FLEX, rest);
      assert done + rows == done;
    } else {
      var after := In(RowOf(FLEX), rows[1..], rest);
      TableFirst(rows, FLEX, rest);
      SuitsHasLength(rows[0], FLEX);
      RowRead(gap, false, [], rows[0], FLEX, after);
      assert [] + rows[0] == rows[0];
      NoGap(after);
      assert rows == [rows[0]] + rows[1..];
      if !Bogus(rows[0]) {
        FlexRead("", done + [rows[0]], rows[1..], rest);
        NoGap(rest);
        assert (done + [rows[0]]) + rows[1..] == done + rows;
      }
    }
  }

  /** The list comes back, with the next record behind it, exactly when no entry has source or
      destination 0; otherwise it comes back empty, and what follows the first such entry is left to
      be taken for the next record. */
  lemma FlexSurvives(rows: seq<seq<Value>>, rest: Input)
    requires AllRows(rows, FLEX) && rows != []
    ensures var r := ReadFlex([], In(RowOf(FLEX), rows, rest), |rows|);
      && (r == Got(rows, rest) <==> NoneBogus(rows))
      && (!NoneBogus(rows) ==> r == Got([], In(RowOf(FLEX), Unread(rows), rest)))
  {
    hide ReadFlex, AllSuit, In;
    FlexRead("", [], rows, rest);
    NoGap(In(RowOf(FLEX), rows, rest));
    assert [] + rows == rows;
  }

  /** The count, then the entries. */
  function ReadFlexRom(i: Input): Read<seq<seq<Value>>> {
    var c := Next(i);
    if c.eof then Failed else ReadFlex([], c.rest, Low16(Scanned(c.value, 10)))
  }

  /** `scn_FLEXROM` */
  method ScnFlexRom(r: Reader) returns (ok: bool, rows: seq<seq<Value>>)
    modifies r`input, r`reachedEOL
    ensures var want := ReadFlexRom(old(r.input));
      if ok then want == Got(rows, r.input) else want == Failed
  {
    hide ReadRow, Bogus, Scanned;
    var n;
    ok, n := r.ScnNumber(10, 0);
    rows := [];
    if !ok {
      return;
    }
    var kk, count := 0, Low16(n);
    ghost var want := ReadFlex([], r.input, count);
    while kk < count
      invariant kk <= count && ReadFlex(rows, r.input, count - kk) == want
    {
      var vs;
      ok, vs := ScnFlexItem(r);
      if !ok {
        return;
      }
      BogusItem(vs);
      if vs[0] == Num(0) || vs[1] == Num(0) {
        return true, [];
      }
      rows := rows + [vs];
      kk := kk + 1;
    }
    ok := true;
  }

  lemma BogusItem(vs: seq<Value>)
    requires |vs| == 4
    ensures Bogus(vs) <==> vs[0] == Num(0) || vs[1] == Num(0)
  {
  }

  method ScnFlexItem(r: Reader) returns (ok: bool, vs: seq<Value>)
    modifies r`input, r`reachedEOL
    ensures var want := ReadRow(FLEX, [], old(r.input));
      if ok then want == Got(vs, r.input) && |vs| == 4 else want == Failed
  {
    ghost var i := r.input;
    var src, dst, len, flag;
    ok, src := r.ScnNumber(16, 0);
    if ok {
      ok, dst := r.ScnNumber(16, 0);
      if ok {
        ok, len := r.ScnNumber(16, 0);
        if ok {
          ok, flag := r.ScnNumber(16, 0);
        }
      }
    }
    vs := if ok then [Num(Low16(src)), Num(Low16(dst)), Num(Low16(len)), Num(Low16(flag))] else [];
    FlexItem(i);
  }

  /** Reading one entry, number by number. */
  lemma FlexItem(i: Input)
    ensures var a := Next(i);
      var b := Next(a.rest);
      var c := Next(b.rest);
      var d := Next(c.rest);
      ReadRow(FLEX, [], i) ==
        if a.eof || b.eof || c.eof || d.eof then Failed
        else Got([Num(Low16(Scanned(a.value, 16))), Num(Low16(Scanned(b.value, 16))),
                  Num(Low16(Scanned(c.value, 16))), Num(Low16(Scanned(d.value, 16)))], d.rest)
  {
    hide Scanned, Next;
    RowStep(FLEX, [], i);
    var f1, f2, f3 := FLEX[1..], FLEX[2..], FLEX[3..];
    assert f1[1..] == f2 && f2[1..] == f3 && f3[1..] == [];
    var a := Next(i);
    var b := Next(a.rest);
    var c := Next(b.rest);
    var va, vb, vc := Num(Low16(Scanned(a.value, 16))), Num(Low16(Scanned(b.value, 16))), Num(Low16(Scanned(c.value, 16)));
    var vd := Num(Low16(Scanned(Next(c.rest).value, 16)));
    assert [] + [va] == [va] && [va] + [vb] == [va, vb];
    assert [va, vb] + [vc] == [va, vb, vc] && [va, vb, vc] + [vd] == [va, vb, vc, vd];
    RowStep(f1, [va], a.rest);
    RowStep(f2, [va, vb], b.rest);
    RowStep(f3, [va, vb, vc], c.rest);
  }

  lemma RowStep(fs: seq<Format>, done: seq<Value>, i: Input)
    requires fs != [] && fs[0] == HEX
    ensures var a := Next(i);
      ReadRow(fs, done, i) ==
        if a.eof then Failed else ReadRow(fs[1..], done + [Num(Low16(Scanned(a.value, 16)))], a.rest)
    ensures |fs| == 1 && !Next(i).eof ==>
      ReadRow(fs, done, i) == Got(done + [Num(Low16(Scanned(Next(i).value, 16)))], Next(i).rest)
  {
  }
}
