/** The memory chain list of the snapshot file (`prt_MACINFO`, `scn_MACINFO`): its lines start with a
    bare type character and are framed by `assert_EOL`. */
module MacList {
  import opened CText
  import opened Fields
  import opened Numbers
  import opened Reader
  import opened Records
  import opened Scanner

  datatype Mac = Mac(typ: char, start: Word, size: Word, owner: Word, name: string, text: string)

  function MacFields(m: Mac): Fields {
    Field("", false, [m.typ], MacTail(m))
  }

  function MacTail(m: Mac): Fields {
    Hex4(m.start, Hex4(m.size, Hex4(m.owner, Str(m.name, Str(m.text, Eol)))))
  }

  /** A type that survives without quotes. */
  predicate GoodType(c: char) {
    BareChar(c) && c != '"'
  }

  /** Strings that survive: no ^Z, and room for the terminator in the zeroed record. */
  predicate GoodStrings(m: Mac) {
    Clean(m.name) && |m.name| < 16 && Clean(m.text) && |m.text| < 40
  }

  predicate GoodMac(m: Mac) {
    GoodType(m.typ) && GoodStrings(m)
  }

  /** The line of a record is left behind, unless its last token passed a line end. */
  function EndLine(r: Scan): Input {
    if r.eol then r.rest else SkipLine(r.rest)
  }

  function ReadMac(i: Input): Read<Mac> {
    var a := Next(i);
    var b := Next(a.rest);
    var c := Next(b.rest);
    var d := Next(c.rest);
    var e := Next(d.rest);
    var f := Next(e.rest);
    if a.eof || b.eof || c.eof || d.eof || e.eof || f.eof then Failed
    else Got(Mac(First(a.value), Low16(Scanned(b.value, 16)), Low16(Scanned(c.value, 16)), Low16(Scanned(d.value, 16)),
                 FieldOf(e.value, 16), FieldOf(f.value, 40)), EndLine(f))
  }

  lemma StringsSound(m: Mac)
    requires GoodStrings(m)
    ensures Sound(Str(m.text, Eol)) && Sound(Str(m.name, Str(m.text, Eol)))
  {
    assert Sound(Str(m.text, Eol));
  }

  lemma TailSound(m: Mac)
    requires GoodStrings(m)
    ensures Sound(MacTail(m))
  {
    var f4 := Str(m.name, Str(m.text, Eol));
    StringsSound(m);
    Hex4Sound(m.owner, f4);
    Hex4Sound(m.size, Hex4(m.owner, f4));
    Hex4Sound(m.start, Hex4(m.size, Hex4(m.owner, f4)));
  }

  lemma TypeIsBare(c: char)
    requires GoodType(c)
    ensures Bare([c])
  {
    assert [c][1..] == "";
  }

  lemma MacSound(m: Mac)
    requires GoodMac(m)
    ensures Sound(MacFields(m))
  {
    TailSound(m);
    TypeIsBare(m.typ);
  }

  lemma MacWidth(m: Mac)
    requires |m.name| < 16 && |m.text| < 40
    ensures Width(MacFields(m)) < 512
  {
    var f5 := Str(m.text, Eol);
    var f4 := Str(m.name, f5);
    var f3 := Hex4(m.owner, f4);
    NumberWidth(0, m.owner, f4);
    NumberWidth(0, m.size, f3);
    NumberWidth(0, m.start, Hex4(m.size, f3));
  }

  /** After a record the reader stands at the next line, or one line end before it. */
  function Leftover(m: Mac, rest: Input): Input {
    if HasNewline(m.text) then More('\n', rest) else rest
  }

  /** The tokens after the type. */
  lemma TailRead(m: Mac, rest: Input)
    requires GoodStrings(m)
    ensures var b := Next(LineIn(MacTail(m), rest).rest);
      var c := Next(b.rest);
      var d := Next(c.rest);
      && !b.eof && !c.eof && !d.eof && d.rest == LineIn(Str(m.name, Str(m.text, Eol)), rest).rest
      && Low16(Scanned(b.value, 16)) == m.start && Low16(Scanned(c.value, 16)) == m.size
      && Low16(Scanned(d.value, 16)) == m.owner
  {
    var f4 := Str(m.name, Str(m.text, Eol));
    StringsSound(m);
    var f3 := Hex4(m.owner, f4);
    var f2 := Hex4(m.size, f3);
    Hex4Sound(m.owner, f4);
    Hex4Sound(m.size, f3);
    Hex4Sound(m.start, f2);
    FieldNextEaten(Hex4(m.start, f2), rest);
    FieldNextEaten(f2, rest);
    FieldNextEaten(f3, rest);
  }

  lemma StringsRead(m: Mac, rest: Input)
    requires GoodStrings(m)
    ensures var e := Next(LineIn(Str(m.name, Str(m.text, Eol)), rest).rest);
      var f := Next(e.rest);
      && !e.eof && !f.eof && FieldOf(e.value, 16) == m.name && FieldOf(f.value, 40) == m.text
      && EndLine(f) == Leftover(m, rest)
  {
    var f5 := Str(m.text, Eol);
    FieldNextEaten(Str(m.name, f5), rest);
    FieldNext("", f5, rest);
  }

  lemma MacRead(gap: string, m: Mac, rest: Input)
    requires GoodMac(m) && Gap(gap, false)
    ensures ReadMac(Feed(gap, LineIn(MacFields(m), rest))) == Got(m, Leftover(m, rest))
  {
    MacSound(m);
    FieldNext(gap, MacFields(m), rest);
    TailRead(m, rest);
    StringsRead(m, rest);
  }

  /** What is left when the whole list has been read. */
  function MacsLeft(gap: string, ms: seq<Mac>, rest: Input): Input {
    if ms == [] then Feed(gap, rest) else Leftover(ms[|ms| - 1], rest)
  }

  /** The line end that is left of a record goes with the next one. */
  lemma LeftoverGap(m: Mac, rest: Input)
    ensures var g := if HasNewline(m.text) then ['\n'] else "";
      Gap(g, false) && Feed(g, rest) == Leftover(m, rest)
  {
    FeedNewline(rest);
  }

  lemma MacsInFirst(ms: seq<Mac>, rest: Input)
    requires ms != []
    ensures In(MacFields, ms, rest) == LineIn(MacFields(ms[0]), In(MacFields, ms[1..], rest))
    ensures |ms| > 1 ==> forall gap, h :: MacsLeft(gap, ms, rest) == MacsLeft(h, ms[1..], rest)
    ensures |ms| == 1 ==> ms[1..] == [] && forall gap :: MacsLeft(gap, ms, rest) == Leftover(ms[0], rest)
  {
  }

  lemma MacsLeftNone(gap: string, rest: Input)
    ensures MacsLeft(gap, [], rest) == Feed(gap, rest) && In(MacFields, [], rest) == rest
  {
  }

  /** The list is read back, and the next record's keyword is the next token. */
  lemma {:induction false} MacsRead(gap: string, done: seq<Mac>, ms: seq<Mac>, rest: Input)
    requires Gap(gap, false) && forall m :: m in ms ==> GoodMac(m)
    ensures ReadMany(ReadMac, done, Feed(gap, In(MacFields, ms, rest)), |ms|) == Got(done + ms, MacsLeft(gap, ms, rest))
    decreases |ms|
  {
    hide ReadMac, Feed, In, MacsLeft, MacFields, LineIn, Leftover, Gap, GoodMac;
    MacsLeftNone(gap, rest);
    if ms == [] {
      assert done + ms == done;
    } else {
      var after := In(MacFields, ms[1..], rest);
      var g := if HasNewline(ms[0].text) then ['\n'] else "";
      MacsInFirst(ms, rest);
      MacRead(gap, ms[0], after);
      ReadFirst(ReadMac, done, Feed(gap, In(MacFields, ms, rest)), |ms|);
      LeftoverGap(ms[0], after);
      LeftoverGap(ms[0], rest);
      MacsLeftNone(g, rest);
      MacsRead(g, done + [ms[0]], ms[1..], rest);
      assert (done + [ms[0]]) + ms[1..] == done + ms;
    }
  }

  // ----- which types survive -----

  predicate OneLine(f: Fields) {
    f.Eol? || (!HasNewline(f.s) && OneLine(f.next))
  }

  lemma {:induction false} SkipCommentLine(f: Fields, rest: Input)
    requires OneLine(f) && Sound(f)
    ensures SkipComment(LineIn(f, rest)) == More('\n', rest)
  {
    if f.Field? {
      SkipCommentLine(f.next, rest);
      var i := LineIn(f.next, rest);
      BlanksGap(f.pad);
      SkipCommentPut(f.s, i);
      SkipCommentPut(f.s, More('"', i));
      SkipCommentPut(f.pad, Put(f.s, i));
      SkipCommentPut(f.pad, Quoted(f.s, i));
    }
  }

  /** The start of a line as its type character leaves it. */
  lemma LineHead(m: Mac)
    requires GoodStrings(m)
    ensures var tail, c := LineIn(MacTail(m), End), m.typ;
      Put(Line(MacFields(m)), End) == More(' ',
        if c == NUL then End
        else if c == '\\' || c == '"' then More('\\', More(c, tail))
        else if c == CTRL_Z then More('"', tail)
        else More(c, tail))
  {
    var t := Line(MacTail(m));
    var line := Line(MacFields(m));
    TailSound(m);
    PutLine(MacTail(m), End);
    assert line == [' '] + ([m.typ] + t);
    assert line[1..] == [m.typ] + t && line[1..][1..] == t;
    PutChar(line, End);
    if m.typ != NUL {
      PutChar(line[1..], End);
    }
  }

  /** A blank type, or a line end, is taken for part of the gap before the next field. */
  lemma BlankTypeRead(m: Mac)
    requires GoodStrings(m) && IsSpace(m.typ)
    ensures !IsSpace(First(Next(More(' ', More(m.typ, LineIn(MacTail(m), End)))).value))
  {
    TailSound(m);
    var g := [' ', m.typ];
    var t := MacTail(m);
    FieldNext(g, t, End);
    assert g[1..] == [m.typ] && [m.typ][1..] == "";
    assert Feed([m.typ], LineIn(t, End)) == More(m.typ, LineIn(t, End));
    NumberSurvives(m.start, 16, 4);
  }

  lemma InQuoteStep(c: char, i: Input, limit: nat)
    requires limit > 0 && c == ' '
    ensures ScanOn(More(c, i), limit, "", true, false, true, false) == ScanOn(i, limit, [c], true, false, true, false)
  {
    assert "" + [c] == [c];
  }

  /** After an opening quote the type is a blank. */
  lemma QuoteTypeRead(m: Mac, escaped: bool)
    ensures var tail := More('"', LineIn(MacTail(m), End));
      First(Next(More(' ', if escaped then More('\\', tail) else tail)).value) == ' '
  {
    var i, limit := LineIn(MacTail(m), End), MAXTOKEN - 1;
    var x := if escaped then More('\\', More('"', i)) else More('"', i);
    assert [' '][1..] == "" && Feed([' '], x) == More(' ', x);
    SkipGap([' '], x, limit, false);
    OpenQuote(i, limit, escaped, false);
    InQuoteStep(' ', i.rest, limit);
    ScanKeeps(i.rest, limit, [' '], true, false, true, false);
  }

  /** A semicolon makes the rest of the line a comment. */
  lemma RemarkTypeRead(m: Mac)
    requires GoodStrings(m) && !HasNewline(m.name) && !HasNewline(m.text)
    ensures Next(More(' ', More(';', LineIn(MacTail(m), End)))).eof
  {
    var t := MacTail(m);
    TailSound(m);
    TailOneLine(m);
    SkipCommentLine(t, End);
    RemarkEnds(LineIn(t, End), MAXTOKEN - 1);
  }

  lemma RemarkEnds(i: Input, limit: nat)
    requires limit > 0 && SkipComment(i) == More('\n', End)
    ensures ScanOn(More(' ', More(';', i)), limit, "", false, false, false, false).eof
  {
    assert ScanOn(More(';', i), limit, "", false, false, false, false).eof;
  }

  lemma TailOneLine(m: Mac)
    requires !HasNewline(m.name) && !HasNewline(m.text)
    ensures OneLine(MacTail(m))
  {
    NumberIsOneLine(m.start);
    NumberIsOneLine(m.size);
    NumberIsOneLine(m.owner);
    var f4 := Str(m.name, Str(m.text, Eol));
    assert OneLine(f4);
    assert OneLine(Hex4(m.size, Hex4(m.owner, f4)));
  }

  lemma {:induction false} NoNewline(s: string)
    requires BareTail(s)
    ensures !HasNewline(s)
  {
    if s != "" {
      NoNewline(s[1..]);
    }
  }

  lemma NumberIsOneLine(n: Word)
    ensures !HasNewline(Padded(Digits(n, 16), 4))
  {
    NumberSurvives(n, 16, 4);
    NoNewline(Padded(Digits(n, 16), 4));
  }

  /** A record's type comes back exactly when it is not blank, NUL, ^Z, a semicolon or a quote: the
      type is printed without quotes. */
  lemma TypeSurvives(m: Mac)
    requires GoodStrings(m) && !HasNewline(m.name) && !HasNewline(m.text)
    ensures var r := ReadMac(Put(Line(MacFields(m)), End));
      (r.Got? && r.value.typ == m.typ) <==> GoodType(m.typ)
  {
    LineHead(m);
    if GoodType(m.typ) {
      MacSound(m);
      PutLine(MacFields(m), End);
      MacRead("", m, End);
    } else if m.typ == NUL {
      assert Next(More(' ', End)).eof;
    } else if IsSpace(m.typ) {
      BlankTypeRead(m);
    } else if m.typ == ';' {
      RemarkTypeRead(m);
    } else {
      QuoteTypeRead(m, m.typ == '"');
    }
  }

  // ----- the methods -----

  /** `prt_MACINFO` */
  method PrtMacInfo(w: Writer, kw: string, value: seq<Mac>)
    requires Keyword(kw) && |value| < 0x1_0000 && forall m :: m in value ==> |m.name| < 16 && |m.text| < 40
    modifies w
    ensures w.file == old(w.file) + if value == [] then "" else Section(kw, MacFields, value)
  {
    forall m | m in value ensures |Line(MacFields(m))| < 512 {
      MacWidth(m);
    }
    PrtList(w, kw, MacFields, value);
  }

  /** One record of `scn_MACINFO`. */
  method ScnMac(r: Reader) returns (ok: bool, m: Mac)
    modifies r`input, r`reachedEOL
    ensures var want := ReadMac(old(r.input));
      if ok then want == Got(m, r.input) else want == Failed
  {
    hide Next;
    var start, size, owner, name, text;
    m := Mac(NUL, 0, 0, 0, "", "");
    var typ;
    ok, typ := r.ScnChar();
    if !ok {
      return;
    }
    ok, start := r.ScnNumber(16, 0);
    if !ok {
      return;
    }
    ok, size := r.ScnNumber(16, 0);
    if !ok {
      return;
    }
    ok, owner := r.ScnNumber(16, 0);
    if !ok {
      return;
    }
    ok, name := r.ScnString(16);
    if !ok {
      return;
    }
    ok, text := r.ScnString(40);
    if !ok {
      return;
    }
    r.AssertEol();
    m := Mac(typ, Low16(start), Low16(size), Low16(owner), name, text);
  }

  method ScnMacs(r: Reader, count: nat) returns (ok: bool, value: seq<Mac>)
    modifies r`input, r`reachedEOL
    ensures var want := ReadMany(ReadMac, [], old(r.input), count);
      if ok then want == Got(value, r.input) else want == Failed
  {
    hide ReadMac;
    value := [];
    var kk := 0;
    ghost var want := ReadMany(ReadMac, [], r.input, count);
    while kk < count
      invariant kk <= count && ReadMany(ReadMac, value, r.input, count - kk) == want
    {
      var m;
      ok, m := ScnMac(r);
      if !ok {
        return;
      }
      value := value + [m];
      kk := kk + 1;
    }
    ok := true;
  }

  /** `scn_MACINFO` */
  method ScnMacInfo(r: Reader) returns (ok: bool, value: seq<Mac>)
    modifies r`input, r`reachedEOL
    ensures var c := Next(old(r.input));
      var want := if c.eof then Failed else ReadMany(ReadMac, [], c.rest, Low16(Scanned(c.value, 10)));
      if ok then want == Got(value, r.input) else want == Failed
  {
    hide ReadMac, Next;
    var n;
    ok, n := r.ScnNumber(10, 0);
    value := [];
    if ok {
      ok, value := ScnMacs(r, Low16(n));
    }
  }
}
