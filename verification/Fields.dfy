/** The layout all snapshot records share: a keyword and a count on one line, then lines of blank
    separated fields, some bare and some in quotes. */
module Fields {
  import opened CText
  import opened Numbers
  import opened Reader
  import opened Scanner

  /** One line: each field stands after a blank and its padding. */
  datatype Fields = Eol | Field(pad: string, quoted: bool, s: string, next: Fields)

  /** The formatted text of the line; ^Z stands for the quotes. */
  function Line(f: Fields): string {
    if f.Eol? then ['\n']
    else [' '] + f.pad + (if f.quoted then [CTRL_Z] + f.s + [CTRL_Z] else f.s) + Line(f.next)
  }

  function Width(f: Fields): (n: nat)
    ensures n == |Line(f)|
  {
    if f.Eol? then 1 else 1 + |f.pad| + |f.s| + (if f.quoted then 2 else 0) + Width(f.next)
  }

  /** The line as it lies in the file. */
  function LineIn(f: Fields, rest: Input): (r: Input)
    ensures r.More? && IsSpace(r.c) && (r.c == '\n' <==> f.Eol?) && (f.Eol? ==> r.rest == rest)
  {
    if f.Eol? then More('\n', rest)
    else More(' ', Feed(f.pad, if f.quoted then Quoted(f.s, LineIn(f.next, rest)) else Put(f.s, LineIn(f.next, rest))))
  }

  /** Fields that survive: blanks before them, no NUL or ^Z, and nothing in a bare one that would end
      or quote it. */
  predicate Sound(f: Fields) {
    f.Eol?
    || (Blanks(f.pad) && |f.s| + 2 <= MAXTOKEN && (if f.quoted then Clean(f.s) else Bare(f.s)) && Sound(f.next))
  }

  lemma {:induction false} BlanksGap(g: string)
    requires Blanks(g)
    ensures Gap(g, false) && !HasNewline(g) && NUL !in g && Launder(g) == g
  {
    if g != "" {
      BlanksGap(g[1..]);
      assert g == [g[0]] + g[1..];
    }
  }

  lemma {:induction false} BareHasNoNul(s: string)
    requires BareTail(s)
    ensures NUL !in s
  {
    if s != "" {
      BareHasNoNul(s[1..]);
    }
  }

  lemma PutItem(f: Fields, rest: Input)
    requires f.Field? && Sound(f)
    ensures Put(Line(f), rest) == More(' ', Feed(f.pad, if f.quoted then Quoted(f.s, Put(Line(f.next), rest))
                                                       else Put(f.s, Put(Line(f.next), rest))))
  {
    var item := if f.quoted then [CTRL_Z] + f.s + [CTRL_Z] else f.s;
    var next := Put(Line(f.next), rest);
    BlanksGap(f.pad);
    if f.quoted {
      CleanHasNoNul(f.s);
      PutQuoted(f.s, next);
    } else {
      BareHasNoNul(f.s);
    }
    PutCat([' '] + f.pad + item, Line(f.next), rest);
    PutCat([' '] + f.pad, item, next);
    PutCat([' '], f.pad, Put(item, next));
    PutChar([' '], Put(f.pad, Put(item, next)));
    assert [' '][1..] == "";
  }

  lemma {:induction false} PutLine(f: Fields, rest: Input)
    requires Sound(f)
    ensures Put(Line(f), rest) == LineIn(f, rest)
  {
    if f.Eol? {
      PutChar(['\n'], rest);
      assert ['\n'][1..] == "";
    } else {
      PutItem(f, rest);
      PutLine(f.next, rest);
    }
  }

  /** What is left after a field: a bare field takes the blank or line end after it. */
  function After(f: Fields, rest: Input): Input
    requires f.Field?
  {
    var i := LineIn(f.next, rest);
    if f.quoted then i else i.rest
  }

  /** Whether reading the field passes a line end. */
  predicate Ends(f: Fields)
    requires f.Field?
  {
    if f.quoted then HasNewline(f.s) else f.next.Eol?
  }

  lemma GapCat(a: string, b: string)
    requires Gap(a, false) && Gap(b, false)
    ensures Gap(a + b, false) && (HasNewline(a + b) <==> HasNewline(a) || HasNewline(b))
  {
    GapCatOn(a, b, false);
  }

  lemma {:induction false} GapCatOn(a: string, b: string, comment: bool)
    requires Gap(a, comment) && Gap(b, false)
    ensures Gap(a + b, comment) && (HasNewline(a + b) <==> HasNewline(a) || HasNewline(b))
    decreases a
  {
    if a == "" {
      assert a + b == b;
    } else {
      assert (a + b)[1..] == a[1..] + b;
      GapCatOn(a[1..], b, if comment then a[0] != '\n' else a[0] == ';');
    }
  }

  lemma ItemNext(gap: string, f: Fields, rest: Input)
    requires f.Field? && Sound(f) && Gap(gap, false)
    ensures var i := LineIn(f.next, rest);
      Next(Feed(gap, if f.quoted then Quoted(f.s, i) else Put(f.s, i)))
      == Scan(f.s, After(f, rest), HasNewline(gap) || Ends(f), false)
  {
    var i := LineIn(f.next, rest);
    if f.quoted {
      QuotedToken(gap, f.s, i, MAXTOKEN);
    } else {
      BareToken(gap, f.s, i.c, i.rest, MAXTOKEN);
    }
  }

  /** The next token is the line's first field, whatever gap comes before the line. */
  lemma FieldNext(gap: string, f: Fields, rest: Input)
    requires f.Field? && Sound(f) && Gap(gap, false)
    ensures Next(Feed(gap, LineIn(f, rest))) == Scan(f.s, After(f, rest), HasNewline(gap) || Ends(f), false)
  {
    BlanksGap(f.pad);
    var g := gap + ([' '] + f.pad);
    GapCat([' '], f.pad);
    GapCat(gap, [' '] + f.pad);
    var i := LineIn(f.next, rest);
    var t := if f.quoted then Quoted(f.s, i) else Put(f.s, i);
    FeedCat(gap, [' '] + f.pad, t);
    FeedCat([' '], f.pad, t);
    assert Feed([' '], Feed(f.pad, t)) == More(' ', Feed(f.pad, t)) by {
      assert [' '][1..] == "";
    }
    ItemNext(g, f, rest);
  }

  /** The same when the field before has taken the blank. */
  lemma FieldNextEaten(f: Fields, rest: Input)
    requires f.Field? && Sound(f)
    ensures Next(LineIn(f, rest).rest) == Scan(f.s, After(f, rest), Ends(f), false)
  {
    BlanksGap(f.pad);
    ItemNext(f.pad, f, rest);
  }

  // ----- the heading of a record -----

  function Spaces(n: nat): string {
    if n == 0 then "" else [' '] + Spaces(n - 1)
  }

  lemma {:induction false} SpacesAreBlanks(n: nat)
    ensures Blanks(Spaces(n)) && |Spaces(n)| == n
  {
    if n > 0 {
      SpacesAreBlanks(n - 1);
    }
  }

  /** A keyword the reader's main loop can take: bare, in a buffer of 32. */
  predicate Keyword(kw: string) {
    Bare(kw) && |kw| <= 30
  }

  /** The fields after the keyword: a count, and for a file its name. */
  function HeadingFields(kw: string, n: nat, more: Fields): Fields {
    Field(Spaces(if |kw| < 10 then 10 - |kw| else 0), false, Digits(n, 10), more)
  }

  function Heading(kw: string, n: nat, more: Fields): string {
    kw + Line(HeadingFields(kw, n, more))
  }

  /** The keyword and the count are read back, and the line's other fields or the next line follow. */
  lemma HeadingRead(gap: string, kw: string, n: Word, more: Fields, rest: Input)
    requires Gap(gap, false) && Keyword(kw) && Sound(more)
    ensures var k := Token(Feed(gap, Put(Heading(kw, n, more), rest)), 32);
      var c := Next(k.rest);
      && k.value == kw && !k.eof && !c.eof && Scanned(c.value, 10) == n
      && c.rest == LineIn(more, rest).rest && c.eol == more.Eol?
  {
    var f := HeadingFields(kw, n, more);
    var d := Digits(n, 10);
    NumberSurvives(n, 10, 0);
    DwordDigits(n, 10);
    SpacesAreBlanks(|f.pad|);
    SpacesAreBlanks(if |kw| < 10 then 10 - |kw| else 0);
    BareHasNoNul(kw);
    PutCat(kw, Line(f), rest);
    PutLine(f, rest);
    var i := LineIn(f, rest);
    BareToken(gap, kw, i.c, i.rest, 32);
    FieldNextEaten(f, rest);
  }

  // ----- reading many records -----

  datatype Read<T> = Failed | Got(value: T, rest: Input)

  /** Read n records, one after another. */
  function ReadMany<T>(read: Input -> Read<T>, done: seq<T>, i: Input, n: nat): Read<seq<T>>
    decreases n
  {
    if n == 0 then Got(done, i)
    else match read(i)
      case Failed => Failed
      case Got(x, rest) => ReadMany(read, done + [x], rest, n - 1)
  }

  lemma ReadFirst<T>(read: Input -> Read<T>, done: seq<T>, i: Input, n: nat)
    requires n > 0 && read(i).Got?
    ensures ReadMany(read, done, i, n) == ReadMany(read, done + [read(i).value], read(i).rest, n - 1)
    ensures n == 1 ==> ReadMany(read, done, i, n) == Got(done + [read(i).value], read(i).rest)
  {
  }

  // ----- the usual fields -----

  /** `%8lX` */
  function Hex8(n: Dword, next: Fields): Fields {
    var d := Digits(n, 16);
    Field(Spaces(if |d| < 8 then 8 - |d| else 0), false, d, next)
  }

  /** `%04X` */
  function Hex4(n: Word, next: Fields): Fields {
    Field("", false, Padded(Digits(n, 16), 4), next)
  }

  /** `%u` */
  function Dec(n: Word, next: Fields): Fields {
    Field("", false, Digits(n, 10), next)
  }

  /** `%s` between two ^Z. */
  function Str(s: string, next: Fields): Fields {
    Field("", true, s, next)
  }

  /** A number of 32 bits is right-aligned in eight columns, one of 16 bits has four digits, and the count
      of a record starts in column 12, behind a keyword of up to ten characters. */
  lemma Columns(n: Dword, w: Word, kw: string, more: Fields)
    ensures var f := Hex8(n, more); |f.pad| + |f.s| == 8 && f.next == more
    ensures var f := Hex4(w, more); f.pad == "" && |f.s| == 4 && f.next == more
    ensures |kw| <= 10 ==> var f := HeadingFields(kw, w, more); |kw| + |f.pad| == 10 && f.s == Digits(w, 10)
  {
    assert PowerOf(16, 4) == 0x1_0000 by {
      assert PowerOf(16, 2) == 0x100;
    }
    assert PowerOf(16, 8) == 0x1_0000_0000 by {
      assert PowerOf(16, 6) == 0x100_0000;
    }
    DigitsWithin(n, 16, 8);
    DigitsWithin(w, 16, 4);
    DigitsValue(w, 16);
    PaddedZeros(Digits(w, 16), 4, 16);
    SpacesAreBlanks(8 - |Digits(n, 16)|);
    SpacesAreBlanks(if |kw| < 10 then 10 - |kw| else 0);
  }

  lemma Hex8Sound(n: Dword, next: Fields)
    requires Sound(next)
    ensures Sound(Hex8(n, next)) && Low32(Scanned(Hex8(n, next).s, 16)) == n
  {
    NumberSurvives(n, 16, 0);
    SpacesAreBlanks(|Hex8(n, next).pad|);
    SpacesAreBlanks(if |Digits(n, 16)| < 8 then 8 - |Digits(n, 16)| else 0);
  }

  lemma Hex4Sound(n: Word, next: Fields)
    requires Sound(next)
    ensures Sound(Hex4(n, next)) && Low16(Scanned(Hex4(n, next).s, 16)) == n
  {
    hide Scanned, Padded, Digits, Bare;
    var s := Padded(Digits(n, 16), 4);
    assert Bare(s) && |s| <= 10 && Scanned(s, 16) == n by {
      NumberSurvives(n, 16, 4);
    }
  }

  lemma DecSound(n: Word, next: Fields)
    requires Sound(next)
    ensures Sound(Dec(n, next)) && Low16(Scanned(Dec(n, next).s, 10)) == n
  {
    NumberSurvives(n, 10, 0);
  }

  /** No number takes more than 19 places. */
  lemma NumberWidth(n: Dword, w: Word, next: Fields)
    ensures Width(Hex8(n, next)) <= 19 + Width(next)
    ensures Width(Hex4(w, next)) <= 11 + Width(next)
    ensures Width(Dec(w, next)) <= 11 + Width(next)
  {
    DwordDigits(n, 16);
    SpacesAreBlanks(if |Digits(n, 16)| < 8 then 8 - |Digits(n, 16)| else 0);
    NumberSurvives(w, 16, 4);
    DwordDigits(w, 10);
  }

  // ----- many lines -----

  /** What `lprintf` puts out for one line after another. */
  function Out<T>(fields: T -> Fields, xs: seq<T>): string {
    if xs == [] then "" else Launder(Line(fields(xs[0]))) + Out(fields, xs[1..])
  }

  lemma OutStep<T>(file: string, fields: T -> Fields, xs: seq<T>, k: nat)
    requires k < |xs|
    ensures file + Out(fields, xs[k..]) == (file + Launder(Line(fields(xs[k])))) + Out(fields, xs[k + 1..])
  {
    assert xs[k..][1..] == xs[k + 1..];
    Regroup(file, Launder(Line(fields(xs[k]))), Out(fields, xs[k + 1..]));
  }

  /** The lines as they lie in the file. */
  function In<T>(fields: T -> Fields, xs: seq<T>, rest: Input): Input {
    if xs == [] then rest else LineIn(fields(xs[0]), In(fields, xs[1..], rest))
  }

  lemma {:induction false} OutIn<T>(fields: T -> Fields, xs: seq<T>, rest: Input)
    requires forall x :: x in xs ==> Sound(fields(x))
    ensures Feed(Out(fields, xs), rest) == In(fields, xs, rest)
  {
    if xs != [] {
      OutIn(fields, xs[1..], rest);
      var line := Line(fields(xs[0]));
      FeedCat(Launder(line), Out(fields, xs[1..]), rest);
      PutLine(fields(xs[0]), In(fields, xs[1..], rest));
    }
  }
}
