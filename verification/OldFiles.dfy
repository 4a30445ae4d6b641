/** Text files in snapshots that were not put out by this writer (ASQENG/READSYS.C, `scn_FILE`): paths
    and lines with backslashes that escape nothing. */
module OldFiles {
  import opened CText
  import opened Numbers
  import opened Scanner
  import opened Reader
  import opened Escapes
  import opened Fields
  import opened Options
  import opened Records
  import opened Dumps

  /** The pieces of a line, its line end with it, that fits the read buffer. */
  predicate IsLine(ps: seq<Piece>) {
    var t := Raw(ps);
    && AllSound(ps) && NUL !in t
    && 0 < |t| < MAXTOKEN && t[|t| - 1] == '\n' && '\n' !in t[..|t| - 1]
  }

  function AllText(lines: seq<seq<Piece>>): string {
    if lines == [] then "" else Raw(lines[0]) + AllText(lines[1..])
  }

  /** The lines as they are meant, without the blanks at their ends. */
  function AllMeant(lines: seq<seq<Piece>>): (r: seq<string>)
    ensures |r| == |lines|
  {
    seq(|lines|, k requires 0 <= k < |lines| => Trimmed(Meant(lines[k])))
  }

  lemma OldLine(ps: seq<Piece>, rest: Input)
    requires IsLine(ps)
    ensures ReadLine(Feed(Raw(ps), rest)) == Got(Trimmed(Meant(ps)), rest)
  {
    var t := Raw(ps);
    var s := t[..|t| - 1];
    var room: nat := MAXTOKEN - 1;
    assert t == s + ['\n'];
    FeedCat(s, ['\n'], rest);
    assert ['\n'][1..] == "";
    LineOfFeed(s, rest, room);
    CookedPieces(ps);
    assert Feed(t, rest).More?;
  }

  lemma {:induction false} OldLines(done: seq<string>, lines: seq<seq<Piece>>, rest: Input)
    requires forall ps :: ps in lines ==> IsLine(ps)
    ensures ReadMany(ReadLine, done, Feed(AllText(lines), rest), |lines|) == Got(done + AllMeant(lines), rest)
    decreases |lines|
  {
    hide ReadLine, IsLine, Meant, Trimmed;
    if lines == [] {
      assert done + AllMeant(lines) == done;
    } else {
      var t := Trimmed(Meant(lines[0]));
      FeedCat(Raw(lines[0]), AllText(lines[1..]), rest);
      OldLine(lines[0], Feed(AllText(lines[1..]), rest));
      ReadFirst(ReadLine, done, Feed(AllText(lines), rest), |lines|);
      OldLines(done + [t], lines[1..], rest);
      assert (done + [t]) + AllMeant(lines[1..]) == done + AllMeant(lines);
    }
  }

  lemma OldCount(gap: string, count: string, rest: Input)
    requires Gap(gap, false) && AllDigits(count, 10) && 0 < |count| < 20
    ensures Next(Feed(gap, Feed(count, More(' ', rest)))) == Scan(count, rest, HasNewline(gap), false)
  {
    DigitsStand(count);
    PathAsItStands(gap, count, ' ', rest, MAXTOKEN);
  }

  /** The count, the path in which no backslash escapes anything, and the lines come back: the path as
      it stands, of every line what its pieces mean without the blanks at the end. */
  lemma OldFile(gap: string, count: string, blanks: string, path: string, lines: seq<seq<Piece>>, rest: Input)
    requires Gap(gap, false) && !HasNewline(gap) && Gap(blanks, false)
    requires AllDigits(count, 10) && 0 < |count| < 20 && Scanned(count, 10) == |lines| < 0x1_0000
    requires NothingEscaped(path) && 0 < |path| < 128 && path[0] != '"'
    requires forall c :: c in path ==> c != ';' && !IsSpace(c)
    requires forall ps :: ps in lines ==> IsLine(ps)
    ensures var body := Feed(AllText(lines), rest);
      ReadFile(Feed(gap, Feed(count, More(' ', Feed(blanks, Feed(path, More('\n', body)))))))
      == Got(TextFile(Some(path), AllMeant(lines)), rest)
  {
    hide Feed, Token, Gap, ReadMany, ReadLine, IsLine, AllMeant, Scanned, HasNewline, ReadFile, NothingEscaped;
    var body := Feed(AllText(lines), rest);
    var named := Feed(blanks, Feed(path, More('\n', body)));
    OldCount(gap, count, named);
    OldPath(blanks, path, body);
    OldLines([], lines, rest);
    assert [] + AllMeant(lines) == AllMeant(lines);
    FileOf(Feed(gap, Feed(count, More(' ', named))), Some(path), body, |lines|);
  }

  lemma OldPath(blanks: string, path: string, body: Input)
    requires Gap(blanks, false) && NothingEscaped(path) && 0 < |path| < 128 && path[0] != '"'
    requires forall c :: c in path ==> c != ';' && !IsSpace(c)
    ensures var d := Next(Feed(blanks, Feed(path, More('\n', body))));
      d.rest == body && !d.eof && FieldOf(d.value, 128) == path
  {
    hide Feed, Token, Gap, HasNewline, NothingEscaped;
    PathAsItStands(blanks, path, '\n', body, MAXTOKEN);
  }

  lemma FileOf(i: Input, name: Option<string>, body: Input, n: nat)
    requires var c := Next(i); !c.eof && Low16(Scanned(c.value, 10)) == n && ReadName(c) == (name, body)
    ensures ReadFile(i) == match ReadMany(ReadLine, [], body, n)
      case Failed => Failed
      case Got(x, rest) => Got(TextFile(name, x), rest)
  {
  }

  lemma {:induction false} DigitsStand(s: string)
    requires AllDigits(s, 10)
    ensures forall c :: c in s ==> '0' <= c <= '9'
    ensures NothingEscaped(s)
  {
    if s != "" {
      DigitsStand(s[1..]);
      forall c | c in s ensures '0' <= c <= '9' {
        assert c == s[0] || c in s[1..];
      }
      forall k | 0 <= k < |s| ensures s[k] != '\\' {
        assert s[k] in s;
      }
    }
  }

  predicate Line(s: string) {
    0 < |s| < MAXTOKEN && s[|s| - 1] == '\n' && '\n' !in s[..|s| - 1] && NUL !in s
  }

  /** A line in which no backslash escapes anything is such a line, and means itself. */
  lemma PlainLine(s: string) returns (ps: seq<Piece>)
    requires Line(s) && NothingEscaped(s)
    ensures IsLine(ps) && Raw(ps) == Meant(ps) == s
  {
    ps := AsItStands(s);
  }
}
