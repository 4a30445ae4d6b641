/** The adapter descriptions of the snapshot file as text: adapters hold options, options hold
    choices (ASQENG/WRITSYS.C, ASQENG/READSYS.C). */
module AdfText {
  import opened CText
  import opened Fields
  import opened Numbers
  import opened Options
  import opened Reader
  import opened Records
  import opened Scanner

  datatype Choice = Choice(name: string, pos: seq<string>)
  datatype AdfOption = AdfOption(name: string, choices: seq<Choice>)
  datatype Adapter = Adapter(aid: Word, name: string, options: seq<AdfOption>)

  /** The four POS strings from the k-th. */
  function PosFields(pos: seq<string>): Fields {
    if pos == [] then Eol else Str(pos[0], PosFields(pos[1..]))
  }

  function ChoiceFields(c: Choice): Fields {
    Field([' ', ' '], true, c.name, PosFields(c.pos))
  }

  function OptionFields(o: AdfOption): Fields {
    Field([' '], true, o.name, Dec(Low16(|o.choices|), Eol))
  }

  /** An empty slot is printed as an adapter with number 0. */
  function SlotFields(s: Option<Adapter>): Fields {
    match s
    case None => Hex4(0, Str("", Dec(0, Eol)))
    case Some(a) => Hex4(a.aid, Str(a.name, Dec(Low16(|a.options|), Eol)))
  }

  // ----- what survives -----

  /** Strings have no ^Z and are two bytes shorter than their fields. */
  predicate GoodPos(pos: seq<string>) {
    forall p :: p in pos ==> Clean(p) && |p| <= 8
  }

  predicate GoodChoice(c: Choice) {
    Clean(c.name) && |c.name| <= 48 && |c.pos| == 4 && GoodPos(c.pos)
  }

  predicate GoodOption(o: AdfOption) {
    Clean(o.name) && |o.name| <= 48 && |o.choices| < 0x1_0000 && forall c :: c in o.choices ==> GoodChoice(c)
  }

  predicate GoodSlot(s: Option<Adapter>) {
    s.Some? ==>
      && Clean(s.value.name) && |s.value.name| <= 48 && |s.value.options| < 0x1_0000
      && forall o :: o in s.value.options ==> GoodOption(o)
  }

  // ----- the text -----

  function OptionOut(o: AdfOption): string {
    Launder(Line(OptionFields(o))) + Out(ChoiceFields, o.choices)
  }

  function OptionsOut(os: seq<AdfOption>): string {
    if os == [] then "" else OptionOut(os[0]) + OptionsOut(os[1..])
  }

  function SlotOut(s: Option<Adapter>): string {
    Launder(Line(SlotFields(s))) + if s.Some? then OptionsOut(s.value.options) else ""
  }

  function SlotsOut(ss: seq<Option<Adapter>>): string {
    if ss == [] then "" else SlotOut(ss[0]) + SlotsOut(ss[1..])
  }

  // ----- reading it -----

  /** What a reader gets, with whether its last token passed a line end. */
  datatype ReadE<T> = FailedE | GotE(value: T, rest: Input, eol: bool)

  function ReadManyE<T>(read: Input -> ReadE<T>, done: seq<T>, i: Input, eol: bool, n: nat): ReadE<seq<T>>
    decreases n
  {
    if n == 0 then GotE(done, i, eol)
    else match read(i)
      case FailedE => FailedE
      case GotE(x, rest, e) => ReadManyE(read, done + [x], rest, e, n - 1)
  }

  lemma ReadFirstE<T>(read: Input -> ReadE<T>, done: seq<T>, i: Input, eol: bool, n: nat)
    requires n > 0 && read(i).GotE?
    ensures var g := read(i);
      && ReadManyE(read, done, i, eol, n) == ReadManyE(read, done + [g.value], g.rest, g.eol, n - 1)
      && (n == 1 ==> ReadManyE(read, done, i, eol, n) == GotE(done + [g.value], g.rest, g.eol))
  {
  }

  lemma {:induction false} ReadManyCount<T>(read: Input -> ReadE<T>, done: seq<T>, i: Input, eol: bool, n: nat)
    ensures var r := ReadManyE(read, done, i, eol, n); r.GotE? ==> |r.value| == |done| + n
    decreases n
  {
    if n > 0 && read(i).GotE? {
      var g := read(i);
      ReadManyCount(read, done + [g.value], g.rest, g.eol, n - 1);
    }
  }

  function ReadString(i: Input, size: nat): ReadE<string>
    requires size > 0
  {
    var a := Next(i);
    if a.eof then FailedE else GotE(FieldOf(a.value, size), a.rest, a.eol)
  }

  function ReadPos(i: Input): ReadE<string> {
    ReadString(i, 10)
  }

  function ReadChoice(i: Input): ReadE<Choice> {
    match ReadString(i, 50)
    case FailedE => FailedE
    case GotE(name, r, e) =>
      match ReadManyE(ReadPos, [], r, e, 4)
      case FailedE => FailedE
      case GotE(pos, rest, eol) => GotE(Choice(name, pos), rest, eol)
  }

  function ReadCount(i: Input): ReadE<Word> {
    var a := Next(i);
    if a.eof then FailedE else GotE(Low16(Scanned(a.value, 10)), a.rest, a.eol)
  }

  function ReadOption(i: Input): ReadE<AdfOption> {
    match ReadString(i, 50)
    case FailedE => FailedE
    case GotE(name, r, _) =>
      match ReadCount(r)
      case FailedE => FailedE
      case GotE(n, q, e) =>
        match ReadManyE(ReadChoice, [], q, e, n)
        case FailedE => FailedE
        case GotE(cs, rest, eol) => GotE(AdfOption(name, cs), rest, eol)
  }

  function ReadAdapter(i: Input): ReadE<Adapter> {
    var a := Next(i);
    if a.eof then FailedE
    else
      match ReadString(a.rest, 50)
      case FailedE => FailedE
      case GotE(name, r, _) =>
        match ReadCount(r)
        case FailedE => FailedE
        case GotE(n, q, e) =>
          match ReadManyE(ReadOption, [], q, e, n)
          case FailedE => FailedE
          case GotE(os, rest, eol) => GotE(Adapter(Low16(Scanned(a.value, 16)), name, os), rest, eol)
  }

  /** An adapter with number 0 stands for an empty slot. */
  function Kept(a: Adapter): Option<Adapter> {
    if a.aid == 0 then None else Some(a)
  }

  /** A slot, to the end of its last line. */
  function ReadSlot(i: Input): Read<Option<Adapter>> {
    match ReadAdapter(i)
    case FailedE => Failed
    case GotE(a, rest, eol) => Got(Kept(a), if eol then rest else SkipLine(rest))
  }

  // ----- the text as it lies in the file -----

  function OptionIn(o: AdfOption, rest: Input): Input {
    LineIn(OptionFields(o), In(ChoiceFields, o.choices, rest))
  }

  function OptionsIn(os: seq<AdfOption>, rest: Input): Input {
    if os == [] then rest else OptionIn(os[0], OptionsIn(os[1..], rest))
  }

  function SlotIn(s: Option<Adapter>, rest: Input): Input {
    LineIn(SlotFields(s), if s.Some? then OptionsIn(s.value.options, rest) else rest)
  }

  function SlotsIn(ss: seq<Option<Adapter>>, rest: Input): Input {
    if ss == [] then rest else SlotIn(ss[0], SlotsIn(ss[1..], rest))
  }

  lemma {:induction false} PosSound(pos: seq<string>)
    requires GoodPos(pos)
    ensures Sound(PosFields(pos))
  {
    if pos != [] {
      assert pos[0] in pos;
      PosSound(pos[1..]);
    }
  }

  lemma ChoiceSound(c: Choice)
    requires GoodChoice(c)
    ensures Sound(ChoiceFields(c))
  {
    PosSound(c.pos);
    assert [' ', ' '][1..] == [' '] && [' '][1..] == "";
  }

  lemma OptionSound(o: AdfOption)
    requires GoodOption(o)
    ensures Sound(OptionFields(o))
  {
    DecSound(Low16(|o.choices|), Eol);
    assert [' '][1..] == "";
  }

  lemma SlotSound(s: Option<Adapter>)
    requires GoodSlot(s)
    ensures Sound(SlotFields(s))
  {
    var (aid, name, n) := match s case None => (0, "", 0) case Some(a) => (a.aid, a.name, Low16(|a.options|));
    DecSound(n, Eol);
    Hex4Sound(aid, Str(name, Dec(n, Eol)));
  }

  lemma OptionOutIn(o: AdfOption, rest: Input)
    requires GoodOption(o)
    ensures Feed(OptionOut(o), rest) == OptionIn(o, rest)
  {
    forall c | c in o.choices ensures Sound(ChoiceFields(c)) {
      ChoiceSound(c);
    }
    OutIn(ChoiceFields, o.choices, rest);
    OptionSound(o);
    FeedCat(Launder(Line(OptionFields(o))), Out(ChoiceFields, o.choices), rest);
    PutLine(OptionFields(o), In(ChoiceFields, o.choices, rest));
  }

  lemma {:induction false} OptionsOutIn(os: seq<AdfOption>, rest: Input)
    requires forall o :: o in os ==> GoodOption(o)
    ensures Feed(OptionsOut(os), rest) == OptionsIn(os, rest)
  {
    if os != [] {
      OptionsOutIn(os[1..], rest);
      FeedCat(OptionOut(os[0]), OptionsOut(os[1..]), rest);
      OptionOutIn(os[0], OptionsIn(os[1..], rest));
    }
  }

  lemma SlotOutIn(s: Option<Adapter>, rest: Input)
    requires GoodSlot(s)
    ensures Feed(SlotOut(s), rest) == SlotIn(s, rest)
  {
    var os := if s.Some? then s.value.options else [];
    OptionsOutIn(os, rest);
    SlotSound(s);
    FeedCat(Launder(Line(SlotFields(s))), OptionsOut(os), rest);
    PutLine(SlotFields(s), OptionsIn(os, rest));
  }

  lemma {:induction false} SlotsOutIn(ss: seq<Option<Adapter>>, rest: Input)
    requires forall s :: s in ss ==> GoodSlot(s)
    ensures Feed(SlotsOut(ss), rest) == SlotsIn(ss, rest)
  {
    if ss != [] {
      SlotsOutIn(ss[1..], rest);
      FeedCat(SlotOut(ss[0]), SlotsOut(ss[1..]), rest);
      SlotOutIn(ss[0], SlotsIn(ss[1..], rest));
    }
  }

  // ----- reading back -----

  lemma PosFirst(pos: seq<string>, rest: Input)
    requires GoodPos(pos) && pos != []
    ensures ReadPos(LineIn(PosFields(pos), rest)) == GotE(pos[0], LineIn(PosFields(pos[1..]), rest), HasNewline(pos[0]))
  {
    assert pos[0] in pos;
    PosSound(pos);
    FieldNext("", PosFields(pos), rest);
  }

  lemma {:induction false} PosRead(done: seq<string>, pos: seq<string>, rest: Input, eol: bool)
    requires GoodPos(pos) && pos != []
    ensures ReadManyE(ReadPos, done, LineIn(PosFields(pos), rest), eol, |pos|)
         == GotE(done + pos, More('\n', rest), HasNewline(pos[|pos| - 1]))
    decreases |pos|
  {
    hide ReadPos;
    PosFirst(pos, rest);
    ReadFirstE(ReadPos, done, LineIn(PosFields(pos), rest), eol, |pos|);
    var more := pos[1..];
    assert pos == [pos[0]] + more && done + pos == (done + [pos[0]]) + more;
    if more == [] {
      assert done + pos == done + [pos[0]];
    } else {
      PosRead(done + [pos[0]], more, rest, HasNewline(pos[0]));
    }
  }

  lemma ChoiceRead(gap: string, c: Choice, rest: Input)
    requires GoodChoice(c) && Gap(gap, false)
    ensures ReadChoice(Feed(gap, LineIn(ChoiceFields(c), rest))) == GotE(c, More('\n', rest), Broken(c))
  {
    ChoiceSound(c);
    FieldNext(gap, ChoiceFields(c), rest);
    PosRead([], c.pos, rest, HasNewline(gap) || HasNewline(c.name));
    assert [] + c.pos == c.pos;
  }

  /** After a list of choices: its last line end is left, if there is a line at all. */
  function ChoicesLeft(gap: string, cs: seq<Choice>, rest: Input): Input {
    if cs == [] then Feed(gap, rest) else More('\n', rest)
  }

  /** Whether the choice's last string holds a line end. */
  predicate Broken(c: Choice) {
    |c.pos| == 4 && HasNewline(c.pos[3])
  }

  predicate ChoicesEol(cs: seq<Choice>, eol: bool) {
    if cs == [] then eol else Broken(cs[|cs| - 1])
  }

  lemma {:induction false} ChoicesRead(gap: string, done: seq<Choice>, cs: seq<Choice>, rest: Input, eol: bool)
    requires Gap(gap, false) && forall c :: c in cs ==> GoodChoice(c)
    ensures ReadManyE(ReadChoice, done, Feed(gap, In(ChoiceFields, cs, rest)), eol, |cs|)
         == GotE(done + cs, ChoicesLeft(gap, cs, rest), ChoicesEol(cs, eol))
    decreases |cs|
  {
    hide LineIn, Next;
    hide ReadChoice;
    if cs == [] {
      assert done + cs == done;
    } else {
      var after := In(ChoiceFields, cs[1..], rest);
      assert cs[0] in cs;
      ChoiceRead(gap, cs[0], after);
      ReadFirstE(ReadChoice, done, Feed(gap, In(ChoiceFields, cs, rest)), eol, |cs|);
      FeedNewline(after);
      FeedNewline(rest);
      ChoicesRead(['\n'], done + [cs[0]], cs[1..], rest, Broken(cs[0]));
      assert (done + [cs[0]]) + cs[1..] == done + cs;
    }
  }

  /** A count ends its line. */
  lemma CountNext(n: Word, rest: Input)
    ensures ReadCount(LineIn(Dec(n, Eol), rest)) == GotE(n, rest, true)
  {
    DecSound(n, Eol);
    FieldNext("", Dec(n, Eol), rest);
  }

  lemma StringNext(gap: string, f: Fields, size: nat, rest: Input)
    requires f.Field? && f.quoted && Sound(f) && |f.s| < size && Gap(gap, false)
    ensures ReadString(Feed(gap, LineIn(f, rest)), size)
         == GotE(f.s, LineIn(f.next, rest), HasNewline(gap) || HasNewline(f.s))
  {
    FieldNext(gap, f, rest);
  }

  lemma OptionHead(gap: string, o: AdfOption, cs: Input)
    requires GoodOption(o) && Gap(gap, false)
    ensures var h := ReadString(Feed(gap, LineIn(OptionFields(o), cs)), 50);
      h.GotE? && h.value == o.name && ReadCount(h.rest) == GotE(|o.choices|, cs, true)
  {
    hide Next;
    var f := OptionFields(o);
    OptionSound(o);
    StringNext(gap, f, 50, cs);
    assert f.next == Dec(|o.choices|, Eol);
    CountNext(|o.choices|, cs);
  }

  lemma OptionRead(gap: string, o: AdfOption, rest: Input)
    requires GoodOption(o) && Gap(gap, false)
    ensures ReadOption(Feed(gap, OptionIn(o, rest)))
      == GotE(o, ChoicesLeft("", o.choices, rest), ChoicesEol(o.choices, true))
  {
    OptionHead(gap, o, In(ChoiceFields, o.choices, rest));
    ChoicesRead("", [], o.choices, rest, true);
    assert [] + o.choices == o.choices;
  }

  function OptionsLeft(gap: string, os: seq<AdfOption>, rest: Input): Input {
    if os == [] then Feed(gap, rest) else ChoicesLeft("", os[|os| - 1].choices, rest)
  }

  predicate OptionsEol(os: seq<AdfOption>, eol: bool) {
    if os == [] then eol else ChoicesEol(os[|os| - 1].choices, true)
  }

  lemma {:induction false} OptionsRead(gap: string, done: seq<AdfOption>, os: seq<AdfOption>, rest: Input, eol: bool)
    requires Gap(gap, false) && forall o :: o in os ==> GoodOption(o)
    ensures ReadManyE(ReadOption, done, Feed(gap, OptionsIn(os, rest)), eol, |os|)
         == GotE(done + os, OptionsLeft(gap, os, rest), OptionsEol(os, eol))
    decreases |os|
  {
    hide ReadOption;
    if os == [] {
      assert done + os == done;
    } else {
      var after := OptionsIn(os[1..], rest);
      OptionRead(gap, os[0], after);
      ReadFirstE(ReadOption, done, Feed(gap, OptionsIn(os, rest)), eol, |os|);
      FeedNewline(after);
      FeedNewline(rest);
      var g := if os[0].choices == [] then "" else ['\n'];
      OptionsRead(g, done + [os[0]], os[1..], rest, ChoicesEol(os[0].choices, true));
      assert (done + [os[0]]) + os[1..] == done + os;
    }
  }

  /** What an empty slot and an adapter look like to the reader. */
  function AsAdapter(s: Option<Adapter>): Adapter {
    match s
    case None => Adapter(0, "", [])
    case Some(a) => a
  }

  lemma AdapterHead(gap: string, s: Option<Adapter>, os: Input)
    requires GoodSlot(s) && Gap(gap, false)
    ensures var a := AsAdapter(s);
      var n := Next(Feed(gap, LineIn(SlotFields(s), os)));
      var h := ReadString(n.rest, 50);
      && !n.eof && Low16(Scanned(n.value, 16)) == a.aid && h.GotE? && h.value == a.name
      && ReadCount(h.rest) == GotE(|a.options|, os, true)
  {
    hide Next;
    var a := AsAdapter(s);
    SlotSound(s);
    Hex4Sound(a.aid, Str(a.name, Dec(|a.options|, Eol)));
    FieldNext(gap, SlotFields(s), os);
    FieldNextEaten(Str(a.name, Dec(|a.options|, Eol)), os);
    CountNext(|a.options|, os);
  }

  lemma AdapterRead(gap: string, s: Option<Adapter>, rest: Input)
    requires GoodSlot(s) && Gap(gap, false)
    ensures var a := AsAdapter(s);
      ReadAdapter(Feed(gap, SlotIn(s, rest))) == GotE(a, OptionsLeft("", a.options, rest), OptionsEol(a.options, true))
  {
    var a := AsAdapter(s);
    assert OptionsIn([], rest) == rest;
    AdapterHead(gap, s, OptionsIn(a.options, rest));
    OptionsRead("", [], a.options, rest, true);
    assert [] + a.options == a.options;
  }

  /** The slot as it comes back: an adapter with number 0 is dropped. */
  function Back(s: Option<Adapter>): Option<Adapter> {
    Kept(AsAdapter(s))
  }

  function SlotLeft(s: Option<Adapter>, rest: Input): (r: Input)
    ensures r == rest || r == More('\n', rest)
  {
    var a := AsAdapter(s);
    var left := OptionsLeft("", a.options, rest);
    if OptionsEol(a.options, true) then left else SkipLine(left)
  }

  lemma SlotRead(gap: string, s: Option<Adapter>, rest: Input)
    requires GoodSlot(s) && Gap(gap, false)
    ensures ReadSlot(Feed(gap, SlotIn(s, rest))) == Got(Back(s), SlotLeft(s, rest))
  {
    AdapterRead(gap, s, rest);
  }

  function Backs(ss: seq<Option<Adapter>>): seq<Option<Adapter>> {
    if ss == [] then [] else [Back(ss[0])] + Backs(ss[1..])
  }

  function SlotsLeft(gap: string, ss: seq<Option<Adapter>>, rest: Input): Input {
    if ss == [] then Feed(gap, rest) else SlotLeft(ss[|ss| - 1], rest)
  }

  /** All slots come back, except that an adapter with number 0 comes back as an empty slot; the next
      record follows, behind one line end at most. */
  lemma {:induction false} SlotsRead(gap: string, done: seq<Option<Adapter>>, ss: seq<Option<Adapter>>, rest: Input)
    requires Gap(gap, false) && forall s :: s in ss ==> GoodSlot(s)
    ensures ReadMany(ReadSlot, done, Feed(gap, SlotsIn(ss, rest)), |ss|) == Got(done + Backs(ss), SlotsLeft(gap, ss, rest))
    decreases |ss|
  {
    hide ReadSlot;
    if ss == [] {
      assert done + Backs(ss) == done;
    } else {
      var after := SlotsIn(ss[1..], rest);
      SlotRead(gap, ss[0], after);
      ReadFirst(ReadSlot, done, Feed(gap, SlotsIn(ss, rest)), |ss|);
      var left := SlotLeft(ss[0], after);
      FeedNewline(after);
      FeedNewline(rest);
      SlotsRead(if left == after then "" else ['\n'], done + [Back(ss[0])], ss[1..], rest);
      assert (done + [Back(ss[0])]) + Backs(ss[1..]) == done + Backs(ss);
    }
  }

  /** The adapter section: its heading and all slots. */
  function AdfOut(kw: string, ss: seq<Option<Adapter>>): string {
    Launder(Heading(kw, |ss|, Eol)) + SlotsOut(ss)
  }

  lemma AdfIsPut(kw: string, ss: seq<Option<Adapter>>, rest: Input)
    requires |ss| < 0x1_0000 && forall s :: s in ss ==> GoodSlot(s)
    ensures Feed(AdfOut(kw, ss), rest) == Put(Heading(kw, |ss|, Eol), SlotsIn(ss, rest))
  {
    SlotsOutIn(ss, rest);
    FeedCat(Launder(Heading(kw, |ss|, Eol)), SlotsOut(ss), rest);
  }

  /** The keyword, the count and all slots are read back. */
  lemma AdfSurvives(gap: string, kw: string, ss: seq<Option<Adapter>>, rest: Input)
    requires Gap(gap, false) && Keyword(kw) && |ss| < 0x1_0000 && forall s :: s in ss ==> GoodSlot(s)
    ensures var k := Token(Feed(gap, Feed(AdfOut(kw, ss), rest)), 32);
      var c := Next(k.rest);
      && k.value == kw && !k.eof && !c.eof && Scanned(c.value, 10) == |ss|
      && ReadMany(ReadSlot, [], c.rest, |ss|) == Got(Backs(ss), SlotsLeft("", ss, rest))
  {
    AdfIsPut(kw, ss, rest);
    HeadingRead(gap, kw, |ss|, Eol, SlotsIn(ss, rest));
    SlotsRead("", [], ss, rest);
    assert [] + Backs(ss) == Backs(ss);
  }
}
