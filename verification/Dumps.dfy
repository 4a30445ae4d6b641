/** The byte dumps (`prt_HEXBYTES`, `scn_HEXBYTES`) and the text files (`prt_FILE`, `scn_FILE`) kept
    in the snapshot file. */
module Dumps {
  import opened CText
  import opened Fields
  import opened Numbers
  import opened Options
  import opened Reader
  import opened Records
  import opened Scanner

  // ----- byte dumps -----

  function HexByte(b: Byte): string {
    Padded(Digits(b, 16), 2)
  }

  /** Twenty-five to a line; col counts the bytes on the last line. */
  function DumpOut(bs: seq<Byte>, col: nat): string {
    if bs == [] then if col != 0 then ['\n'] else ""
    else [' '] + HexByte(bs[0]) + (if col == 24 then ['\n'] + DumpOut(bs[1..], 0) else DumpOut(bs[1..], col + 1))
  }

  function DumpIn(bs: seq<Byte>, col: nat, rest: Input): (r: Input)
    ensures bs != [] || col != 0 ==> r.More? && IsSpace(r.c)
  {
    if bs == [] then if col != 0 then More('\n', rest) else rest
    else
      var after := if col == 24 then More('\n', DumpIn(bs[1..], 0, rest)) else DumpIn(bs[1..], col + 1, rest);
      More(' ', Put(HexByte(bs[0]), after))
  }

  lemma {:induction false} LaunderDigits(s: string)
    requires AllDigits(s, 16)
    ensures Launder(s) == s
  {
    if s != "" {
      DigitIsBare(s[0]);
      LaunderDigits(s[1..]);
      assert s == [s[0]] + s[1..];
    }
  }

  lemma HexByteSound(b: Byte)
    ensures var s := HexByte(b); Bare(s) && |s| <= 10 && Low8(Scanned(s, 16)) == b && Launder(s) == s
  {
    hide Scanned, Padded, Digits, Bare, Launder;
    NumberSurvives(b, 16, 2);
    DigitsValue(b, 16);
    PaddedZeros(Digits(b, 16), 2, 16);
    LaunderDigits(HexByte(b));
  }

  lemma {:induction false} DumpOutIn(bs: seq<Byte>, col: nat, rest: Input)
    requires col < 25
    ensures Feed(DumpOut(bs, col), rest) == DumpIn(bs, col, rest)
  {
    FeedNewline(rest);
    if bs != [] {
      var h := HexByte(bs[0]);
      HexByteSound(bs[0]);
      var c := if col == 24 then 0 else col + 1;
      var more := DumpOut(bs[1..], c);
      DumpOutIn(bs[1..], c, rest);
      var tail := if col == 24 then ['\n'] + more else more;
      FeedCat(['\n'], more, rest);
      FeedNewline(DumpIn(bs[1..], c, rest));
      FeedCat([' '] + h, tail, rest);
      FeedCat([' '], h, Feed(tail, rest));
      assert [' '][1..] == "";
    }
  }

  function ReadByte(i: Input): Read<Byte> {
    var a := Next(i);
    if a.eof then Failed else Got(Low8(Scanned(a.value, 16)), a.rest)
  }

  lemma ByteRead(gap: string, b: Byte, w: char, rest: Input)
    requires Gap(gap, false) && IsSpace(w)
    ensures ReadByte(Feed(gap, Put(HexByte(b), More(w, rest)))) == Got(b, rest)
  {
    HexByteSound(b);
    BareToken(gap, HexByte(b), w, rest, MAXTOKEN);
  }

  /** All bytes are read back and nothing of the dump is left; the blank before a byte may already
      have been taken with the byte before it. */
  lemma {:induction false} DumpRead(eaten: bool, done: seq<Byte>, bs: seq<Byte>, col: nat, rest: Input)
    requires col < 25 && bs != []
    ensures var i := DumpIn(bs, col, rest);
      ReadMany(ReadByte, done, if eaten then i.rest else i, |bs|) == Got(done + bs, rest)
    decreases |bs|
  {
    hide ReadByte;
    var full := col == 24;
    var after := DumpIn(bs[1..], if full then 0 else col + 1, rest);
    var tail := if full then More('\n', after) else after;
    var h := Put(HexByte(bs[0]), tail);
    assert [' '][1..] == "" && Feed([' '], h) == More(' ', h) && Feed("", h) == h;
    ByteRead(if eaten then "" else [' '], bs[0], tail.c, tail.rest);
    ReadFirst(ReadByte, done, if eaten then h else More(' ', h), |bs|);
    if |bs| == 1 {
      assert bs[1..] == [] && tail.rest == rest;
      assert done + bs == done + [bs[0]];
    } else {
      assert (done + [bs[0]]) + bs[1..] == done + bs;
      DumpRead(!full, done + [bs[0]], bs[1..], if full then 0 else col + 1, rest);
    }
  }

  /** A dump: its heading, which is there even for no bytes, and the bytes. */
  function Dump(kw: string, bs: seq<Byte>): string {
    Launder(Heading(kw, |bs|, Eol)) + DumpOut(bs, 0)
  }

  /** The keyword, the count and the bytes are read back, and the next record follows. */
  lemma DumpSurvives(gap: string, kw: string, bs: seq<Byte>, rest: Input)
    requires Gap(gap, false) && Keyword(kw) && |bs| < 0x1_0000
    ensures var k := Token(Feed(gap, Feed(Dump(kw, bs), rest)), 32);
      var c := Next(k.rest);
      && k.value == kw && !k.eof && !c.eof && Scanned(c.value, 10) == |bs|
      && ReadMany(ReadByte, [], c.rest, |bs|) == Got(bs, rest)
  {
    DumpIsPut(kw, bs, rest);
    HeadingRead(gap, kw, |bs|, Eol, DumpIn(bs, 0, rest));
    if bs != [] {
      DumpRead(false, [], bs, 0, rest);
      assert [] + bs == bs;
    }
  }

  lemma DumpIsPut(kw: string, bs: seq<Byte>, rest: Input)
    ensures Feed(Dump(kw, bs), rest) == Put(Heading(kw, |bs|, Eol), DumpIn(bs, 0, rest))
  {
    DumpOutIn(bs, 0, rest);
    FeedCat(Launder(Heading(kw, |bs|, Eol)), DumpOut(bs, 0), rest);
  }

  /** `prt_HEXBYTES` */
  method PrtHexBytes(w: Writer, kw: string, value: seq<Byte>)
    requires Keyword(kw) && |value| < 0x1_0000
    modifies w
    ensures w.file == old(w.file) + Dump(kw, value)
  {
    Regroup(w.file, Launder(Heading(kw, |value|, Eol)), DumpOut(value, 0));
    PrtHeading(w, kw, |value|, Eol);
    PrtBytes(w, value);
  }

  method PrtBytes(w: Writer, value: seq<Byte>)
    modifies w
    ensures w.file == old(w.file) + DumpOut(value, 0)
  {
    hide DumpOut, HexByte;
    ghost var want := w.file + DumpOut(value, 0);
    var kk := 0;
    ghost var col := 0;
    while kk < |value|
      invariant kk <= |value| && col == kk % 25 && w.file + DumpOut(value[kk..], col) == want
    {
      DumpStep(w.file, value, kk, col);
      NextColumn(kk);
      PrtByte(w, value[kk]);
      if kk % 25 == 24 {
        PrtNewline(w);
      }
      kk := kk + 1;
      col := if col == 24 then 0 else col + 1;
    }
    assert value[kk..] == [];
    DumpEnd(col);
    if kk % 25 != 0 {
      PrtNewline(w);
    }
  }

  lemma DumpEnd(col: nat)
    ensures DumpOut([], col) == if col != 0 then ['\n'] else ""
  {
  }

  lemma NextColumn(k: nat)
    ensures (k + 1) % 25 == if k % 25 == 24 then 0 else k % 25 + 1
  {
  }

  lemma DumpStep(file: string, bs: seq<Byte>, k: nat, col: nat)
    requires k < |bs|
    ensures var h := file + ([' '] + HexByte(bs[k]));
      file + DumpOut(bs[k..], col)
      == if col == 24 then (h + ['\n']) + DumpOut(bs[k + 1..], 0) else h + DumpOut(bs[k + 1..], col + 1)
  {
    assert bs[k..][1..] == bs[k + 1..];
    var item := [' '] + HexByte(bs[k]);
    var more := DumpOut(bs[k + 1..], if col == 24 then 0 else col + 1);
    if col == 24 {
      assert (file + item + ['\n']) + more == file + (item + (['\n'] + more));
    } else {
      assert (file + item) + more == file + (item + more);
    }
  }

  method PrtByte(w: Writer, b: Byte)
    modifies w
    ensures w.file == old(w.file) + ([' '] + HexByte(b))
  {
    HexByteSound(b);
    LaunderCat([' '], HexByte(b));
    assert [' '][1..] == "" && Launder([' ']) == [' '];
    w.Lprintf([' '] + HexByte(b));
  }

  method PrtNewline(w: Writer)
    modifies w
    ensures w.file == old(w.file) + ['\n']
  {
    assert ['\n'][1..] == "" && Launder(['\n']) == ['\n'];
    w.Lprintf(['\n']);
  }

  /** Bytes on one line, two digits each, behind blanks. */
  function ByteRow(bs: seq<Byte>): string {
    if bs == [] then "" else [' '] + HexByte(bs[0]) + ByteRow(bs[1..])
  }

  lemma TwoDigits(b: Byte)
    ensures HexByte(b) == ["0123456789ABCDEF"[b / 16], "0123456789ABCDEF"[b % 16]]
  {
    TheDigits(b / 16);
    TheDigits(b % 16);
    if b >= 16 {
      assert Digits(b / 16, 16) == [DigitChar(b / 16)];
    } else {
      assert Digits(b, 16) == [DigitChar(b)] && ['0'] + [DigitChar(b)] == ['0', DigitChar(b)];
      assert Padded(['0', DigitChar(b)], 2) == ['0', DigitChar(b)];
    }
  }

  /** Twenty-five bytes fill a line; the rest starts the next. */
  lemma {:induction false} DumpLines(bs: seq<Byte>, col: nat)
    requires col < 25 && bs != []
    ensures var room := 25 - col;
      DumpOut(bs, col) == if |bs| < room then ByteRow(bs) + ['\n']
                          else ByteRow(bs[..room]) + ['\n'] + DumpOut(bs[room..], 0)
    decreases |bs|
  {
    var item := [' '] + HexByte(bs[0]);
    if col == 24 {
      assert bs[..1][1..] == [];
    } else if |bs| == 1 {
      assert DumpOut(bs[1..], col + 1) == ['\n'];
      assert ByteRow(bs[1..]) == "";
    } else {
      var room := 25 - col;
      DumpLines(bs[1..], col + 1);
      if |bs| >= room {
        assert bs[..room][1..] == bs[1..][..room - 1] && bs[room..] == bs[1..][room - 1..];
        Regroup(item, ByteRow(bs[1..][..room - 1]) + ['\n'], DumpOut(bs[room..], 0));
        Regroup(item, ByteRow(bs[1..][..room - 1]), ['\n']);
      } else {
        Regroup(item, ByteRow(bs[1..]), ['\n']);
      }
    }
  }

  method ScnHexByte(r: Reader) returns (ok: bool, b: Byte)
    modifies r`input, r`reachedEOL
    ensures var want := ReadByte(old(r.input));
      if ok then want == Got(b, r.input) else want == Failed
  {
    var n;
    ok, n := r.ScnNumber(16, 0);
    b := Low8(n);
  }

  /** `scn_HEXBYTES`: no more bytes than there is room for. */
  method ScnHexBytes(r: Reader, room: nat) returns (ok: bool, value: seq<Byte>)
    modifies r`input, r`reachedEOL
    ensures var c := Next(old(r.input));
      var n := Low16(Scanned(c.value, 10));
      var want := if c.eof then Failed else ReadMany(ReadByte, [], c.rest, if n > room then room else n);
      if ok then want == Got(value, r.input) else want == Failed
  {
    hide ReadByte, Next;
    var n;
    ok, n := r.ScnNumber(10, 0);
    value := [];
    if !ok {
      return;
    }
    var count := Low16(n);
    if count > room {
      count := room;
    }
    var kk := 0;
    ghost var want := ReadMany(ReadByte, [], r.input, count);
    while kk < count
      invariant kk <= count && ReadMany(ReadByte, value, r.input, count - kk) == want
    {
      var b;
      ok, b := ScnHexByte(r);
      if !ok {
        return;
      }
      value := value + [b];
      kk := kk + 1;
    }
    ok := true;
  }

  // ----- text files -----

  /** A text file: its path, when that is known, and its lines. */
  datatype TextFile = TextFile(name: Option<string>, lines: seq<string>)

  function NameField(name: Option<string>): Fields {
    match name
    case None => Eol
    case Some(s) => Field("", false, s, Eol)
  }

  function LinesOut(lines: seq<string>): string {
    if lines == [] then "" else Launder(lines[0] + ['\n']) + LinesOut(lines[1..])
  }

  /** Nothing for no lines, else the heading, with the path if there is one, and the lines. */
  function FileOut(kw: string, f: TextFile): string {
    if f.lines == [] then "" else Launder(Heading(kw, |f.lines|, NameField(f.name))) + LinesOut(f.lines)
  }

  function ReadLine(i: Input): Read<string> {
    if i.End? then Failed else var (line, rest) := LineOf(i, MAXTOKEN - 1); Got(Cooked(line), rest)
  }

  /** The path is there when the count has not ended the line. */
  function ReadName(c: Scan): (Option<string>, Input) {
    if c.eol then (None, c.rest)
    else var d := Next(c.rest); (if d.eof then None else Some(FieldOf(d.value, 128)), d.rest)
  }

  function ReadFile(i: Input): Read<TextFile> {
    var c := Next(i);
    if c.eof then Failed
    else
      var (name, lines) := ReadName(c);
      match ReadMany(ReadLine, [], lines, Low16(Scanned(c.value, 10)))
      case Failed => Failed
      case Got(x, rest) => Got(TextFile(name, x), rest)
  }

  /** A line of the kind `LineSurvives` keeps. */
  predicate GoodLine(s: string) {
    NUL !in s && '\n' !in s && |s| < 511 && CTRL_Z !in s && !BlankEnd(s)
  }

  /** A path that can stand in a heading without quotes. */
  predicate GoodName(name: Option<string>) {
    name.Some? ==> Bare(name.value) && |name.value| <= 126
  }

  lemma LineRead(s: string, rest: Input)
    requires GoodLine(s)
    ensures ReadLine(Put(s + ['\n'], rest)) == Got(s, rest)
  {
    var room: nat := MAXTOKEN - 1;
    LineSurvives(s, rest, room);
    PutCat(s, ['\n'], rest);
    PutGrows(s, Put(['\n'], rest));
    PutChar(['\n'], rest);
  }

  lemma {:induction false} LinesRead(done: seq<string>, lines: seq<string>, rest: Input)
    requires forall s :: s in lines ==> GoodLine(s)
    ensures ReadMany(ReadLine, done, Feed(LinesOut(lines), rest), |lines|) == Got(done + lines, rest)
    decreases |lines|
  {
    hide ReadLine;
    if lines == [] {
      assert done + lines == done;
    } else {
      var s, more := lines[0], LinesOut(lines[1..]);
      FeedCat(Launder(s + ['\n']), more, rest);
      LineRead(s, Feed(more, rest));
      ReadFirst(ReadLine, done, Feed(LinesOut(lines), rest), |lines|);
      LinesRead(done + [s], lines[1..], rest);
      assert (done + [s]) + lines[1..] == done + lines;
    }
  }

  /** A file without ^Z and trailing blanks comes back as it was, path and all, and the next record
      follows. */
  lemma FileSurvives(gap: string, kw: string, f: TextFile, rest: Input)
    requires Gap(gap, false) && Keyword(kw) && f.lines != [] && |f.lines| < 0x1_0000
    requires GoodName(f.name) && forall s :: s in f.lines ==> GoodLine(s)
    ensures var k := Token(Feed(gap, Feed(FileOut(kw, f), rest)), 32);
      && k.value == kw && !k.eof && ReadFile(k.rest) == Got(f, rest)
  {
    var more := Feed(LinesOut(f.lines), rest);
    FileIsPut(kw, f, rest);
    HeadingRead(gap, kw, |f.lines|, NameField(f.name), more);
    FileRead(Token(Feed(gap, Feed(FileOut(kw, f), rest)), 32).rest, f, rest);
  }

  lemma FileRead(i: Input, f: TextFile, rest: Input)
    requires |f.lines| < 0x1_0000 && GoodName(f.name) && forall s :: s in f.lines ==> GoodLine(s)
    requires var c := Next(i);
      && !c.eof && c.eol == f.name.None? && Scanned(c.value, 10) == |f.lines|
      && c.rest == LineIn(NameField(f.name), Feed(LinesOut(f.lines), rest)).rest
    ensures ReadFile(i) == Got(f, rest)
  {
    hide ReadLine, Next, ReadName, ReadMany, Feed, LineIn, LinesOut, Scanned;
    NameRead(Next(i), f.name, Feed(LinesOut(f.lines), rest));
    LinesRead([], f.lines, rest);
    assert [] + f.lines == f.lines;
  }

  lemma NameRead(c: Scan, name: Option<string>, more: Input)
    requires GoodName(name) && c.rest == LineIn(NameField(name), more).rest && c.eol == name.None?
    ensures ReadName(c) == (name, more)
  {
    if name.Some? {
      FieldNextEaten(NameField(name), more);
    }
  }

  lemma FileIsPut(kw: string, f: TextFile, rest: Input)
    requires f.lines != []
    ensures Feed(FileOut(kw, f), rest) == Put(Heading(kw, |f.lines|, NameField(f.name)), Feed(LinesOut(f.lines), rest))
  {
    FeedCat(Launder(Heading(kw, |f.lines|, NameField(f.name))), LinesOut(f.lines), rest);
  }

  // ----- which paths survive -----

  /** A path's line, from inside it. */
  function PathLine(s: string, rest: Input): Input {
    Put(s, More('\n', rest))
  }

  /** A token that closes exactly at the end of the path's line, with no line end in it. */
  predicate EndsLine(r: Scan, rest: Input) {
    r.rest == rest && '\n' !in r.value
  }

  lemma CommentTakesLine(s: string, rest: Input)
    requires !HasNewline(s)
    ensures SkipComment(PathLine(s, rest)) == More('\n', rest)
  {
    SkipCommentPut(s, More('\n', rest));
  }

  /** Inside quotes: the line end becomes part of the token, or an unescaped quote closes it before. */
  lemma {:induction false} QuoteMissesEnd(s: string, rest: Input, limit: nat, v: string, eol: bool)
    requires NUL !in s && !HasNewline(s) && |v| + |s| + 1 < limit
    ensures !EndsLine(ScanOn(PathLine(s, rest), limit, v, true, false, true, eol), rest)
    decreases |s|
  {
    if s == "" {
      ScanKeeps(rest, limit, v + ['\n'], true, false, true, true);
      assert (v + ['\n'])[|v|] == '\n';
    } else {
      assert s[0] in s && NUL !in s[1..];
      PutChar(s, More('\n', rest));
      if s[0] == CTRL_Z {
        PutGrows(s[1..], More('\n', rest));
      } else {
        TokenStep(s, More('\n', rest), limit, v, true, eol);
        QuoteMissesEnd(s[1..], rest, limit, v + [s[0]], eol);
      }
    }
  }

  /** Outside quotes: what may not stand there ends the token or changes it. */
  lemma NotBareStep(s: string, rest: Input, limit: nat, v: string, eol: bool)
    requires s != "" && s[0] != NUL && !BareChar(s[0]) && !HasNewline(s) && |v| + 1 < limit
    ensures var r := ScanOn(PathLine(s, rest), limit, v, false, false, true, eol);
      r.value == v || v + ['"'] <= r.value
  {
    PutChar(s, More('\n', rest));
    if s[0] == ';' {
      CommentTakesLine(s[1..], rest);
    } else if s[0] == CTRL_Z {
      ScanKeeps(PathLine(s[1..], rest), limit, v + ['"'], false, false, true, eol);
    }
  }

  lemma PathStep(s: string, rest: Input, limit: nat, v: string, eol: bool)
    requires s != "" && BareChar(s[0]) && !HasNewline(s) && |v| < limit
    ensures ScanOn(PathLine(s, rest), limit, v, false, false, true, eol)
         == ScanOn(PathLine(s[1..], rest), limit, v + [s[0]], false, false, true, eol)
    ensures [s[0]] + s[1..] == s && !HasNewline(s[1..])
  {
    TokenStep(s, More('\n', rest), limit, v, false, eol);
  }

  /** Outside quotes: the token takes what is left of the line unchanged only if that may stand
      there. */
  lemma {:induction false} BareOrNot(s: string, rest: Input, limit: nat, v: string, eol: bool)
    requires NUL !in s && !HasNewline(s) && |v| + |s| + 1 < limit
    ensures ScanOn(PathLine(s, rest), limit, v, false, false, true, eol).value == v + s ==> BareTail(s)
    decreases |s|
  {
    hide ScanOn, PathLine, HasNewline;
    if s != "" {
      assert s[0] in s && NUL !in s[1..];
      if BareChar(s[0]) {
        PathStep(s, rest, limit, v, eol);
        Regroup(v, [s[0]], s[1..]);
        BareOrNot(s[1..], rest, limit, v + [s[0]], eol);
      } else {
        NotBareStep(s, rest, limit, v, eol);
        assert (v + ['"'])[|v|] == '"' && (v + s)[|v|] == s[0];
      }
    }
  }

  /** A token within the line has no more characters than the line. */
  lemma {:induction false} NoLonger(s: string, rest: Input, limit: nat, v: string, arg: bool, eol: bool)
    requires NUL !in s && !HasNewline(s) && |v| + |s| + 1 < limit && (!arg ==> v == "")
    ensures var r := ScanOn(PathLine(s, rest), limit, v, false, false, arg, eol);
      EndsLine(r, rest) && !r.eof ==> |r.value| <= |v| + |s|
    decreases |s|
  {
    if s != "" {
      assert s[0] in s && NUL !in s[1..];
      PutChar(s, More('\n', rest));
      if s[0] == ';' {
        CommentTakesLine(s[1..], rest);
      } else if !arg && (s[0] == '"' || s[0] == CTRL_Z) {
        OpenQuote(PathLine(s[1..], rest), limit, s[0] == '"', eol);
        QuoteMissesEnd(s[1..], rest, limit, "", eol);
      } else if arg && IsSpace(s[0]) {
      } else if IsSpace(s[0]) {
        NoLonger(s[1..], rest, limit, v, false, eol);
      } else {
        NoLonger(s[1..], rest, limit, v + [if s[0] == CTRL_Z then '"' else s[0]], true, eol);
      }
    }
  }

  lemma {:induction false} NoNewline(s: string)
    requires !HasNewline(s)
    ensures '\n' !in s
  {
    if s != "" {
      NoNewline(s[1..]);
    }
  }

  lemma PathStarts(p: string, rest: Input, limit: nat)
    requires p != "" && BareChar(p[0]) && p[0] != '"' && limit > 1
    ensures ScanOn(PathLine(p, rest), limit, "", false, false, false, false)
         == ScanOn(PathLine(p[1..], rest), limit, [p[0]], false, false, true, false)
  {
    PutChar(p, More('\n', rest));
    assert "" + [p[0]] == [p[0]];
  }

  /** What may not start the path's token makes it end elsewhere or shorter than the path. */
  lemma NotBareStart(p: string, rest: Input, limit: nat)
    requires NUL !in p && !HasNewline(p) && |p| + 1 < limit && (p == "" || !BareChar(p[0]) || p[0] == '"')
    ensures var r := ScanOn(PathLine(p, rest), limit, "", false, false, false, false);
      EndsLine(r, rest) && !r.eof ==> |r.value| < |p|
  {
    if p != "" {
      assert p[0] in p && NUL !in p[1..];
      PutChar(p, More('\n', rest));
      if p[0] == ';' {
        CommentTakesLine(p[1..], rest);
      } else if p[0] == '"' || p[0] == CTRL_Z {
        OpenQuote(PathLine(p[1..], rest), limit, p[0] == '"', false);
        QuoteMissesEnd(p[1..], rest, limit, "", false);
      } else {
        NoLonger(p[1..], rest, limit, "", false, false);
      }
    }
  }

  /** A path printed without quotes comes back, with the lines of the file next to read, exactly when
      it has no blank, semicolon or ^Z and does not start with a quote. */
  lemma PathSurvives(p: string, rest: Input)
    requires NUL !in p && !HasNewline(p) && |p| < 127
    ensures var d := Next(PathLine(p, rest));
      !d.eof && FieldOf(d.value, 128) == p && d.rest == rest <==> Bare(p)
  {
    hide ScanOn, PathLine, HasNewline;
    var limit: nat := MAXTOKEN - 1;
    var d := Next(PathLine(p, rest));
    NoNewline(p);
    if p == "" || !BareChar(p[0]) || p[0] == '"' {
      NotBareStart(p, rest, limit);
    } else {
      assert p[0] in p && NUL !in p[1..];
      assert [p[0]] + p[1..] == p;
      TailHasNone(p);
      PathStarts(p, rest, limit);
      BareOrNot(p[1..], rest, limit, [p[0]], false);
      if BareTail(p[1..]) {
        PathRead(p, rest);
      }
    }
  }

  lemma TailHasNone(p: string)
    requires p != "" && !HasNewline(p)
    ensures !HasNewline(p[1..])
  {
  }

  lemma PathRead(p: string, rest: Input)
    requires Bare(p) && |p| < 127
    ensures Next(PathLine(p, rest)) == Scan(p, rest, true, false)
  {
    BareToken("", p, '\n', rest, MAXTOKEN);
    assert Feed("", PathLine(p, rest)) == PathLine(p, rest);
  }

  /** `prt_FILE` */
  method PrtFile(w: Writer, kw: string, f: TextFile)
    requires Keyword(kw) && |f.lines| < 0x1_0000 && (f.name.Some? ==> |f.name.value| <= 126)
    requires forall s :: s in f.lines ==> |s| < 511
    modifies w
    ensures w.file == old(w.file) + FileOut(kw, f)
  {
    if |f.lines| < 1 {
      return;
    }
    PrtHeading(w, kw, |f.lines|, NameField(f.name));
    PrtText(w, f.lines);
  }

  method PrtText(w: Writer, lines: seq<string>)
    requires forall s :: s in lines ==> |s| < 511
    modifies w
    ensures w.file == old(w.file) + LinesOut(lines)
  {
    ghost var want := w.file + LinesOut(lines);
    var kk := 0;
    while kk < |lines|
      invariant kk <= |lines| && w.file + LinesOut(lines[kk..]) == want
    {
      ghost var now := w.file;
      assert lines[kk] in lines && lines[kk..][1..] == lines[kk + 1..];
      w.Lprintf(lines[kk] + ['\n']);
      Regroup(now, Launder(lines[kk] + ['\n']), LinesOut(lines[kk + 1..]));
      kk := kk + 1;
    }
    assert lines[kk..] == [];
  }

  /** `scn_FILE`; the lines are kept in memory where the program keeps them in a temporary file. */
  method ScnFile(r: Reader) returns (ok: bool, f: TextFile)
    requires r.tokenBuf.Length == MAXTOKEN
    modifies r`input, r`reachedEOL, r.tokenBuf
    ensures var want := ReadFile(old(r.input));
      if ok then want == Got(f, r.input) else want == Failed
  {
    f := TextFile(None, []);
    var n;
    ok, n := r.ScnNumber(10, 0);
    if !ok {
      return;
    }
    if !r.reachedEOL {
      var got, name := r.ScnString(128);
      if got {
        f := f.(name := Some(name));
      }
    }
    var lines;
    ok, lines := ScnText(r, Low16(n));
    f := f.(lines := lines);
  }

  method ScnText(r: Reader, count: nat) returns (ok: bool, lines: seq<string>)
    requires r.tokenBuf.Length == MAXTOKEN
    modifies r`input, r.tokenBuf
    ensures var want := ReadMany(ReadLine, [], old(r.input), count);
      if ok then want == Got(lines, r.input) else want == Failed
  {
    lines := [];
    var kk := 0;
    ghost var want := ReadMany(ReadLine, [], r.input, count);
    while kk < count
      invariant kk <= count && ReadMany(ReadLine, lines, r.input, count - kk) == want
    {
      var n, nc;
      ok, n := r.Fgets(MAXTOKEN);
      if !ok {
        return;
      }
      nc := r.Ltrnbln(n);
      lines := lines + [r.tokenBuf[..nc]];
      kk := kk + 1;
    }
    ok := true;
  }
}
