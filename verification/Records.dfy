/** The hole list, the memory chain list and the byte list of the snapshot file, written
    (ASQENG/WRITSYS.C) and read back (ASQENG/READSYS.C). */
module Records {
  import opened CText
  import opened Fields
  import opened Numbers
  import opened Reader
  import opened Scanner

  /** The heading of a record with a count, then one line for each item. */
  function Section<T>(kw: string, fields: T -> Fields, xs: seq<T>): string {
    Launder(Heading(kw, |xs|, Eol)) + Out(fields, xs)
  }

  lemma SectionIn<T>(kw: string, fields: T -> Fields, xs: seq<T>, rest: Input)
    requires forall x :: x in xs ==> Sound(fields(x))
    ensures Feed(Section(kw, fields, xs), rest) == Put(Heading(kw, |xs|, Eol), In(fields, xs, rest))
  {
    OutIn(fields, xs, rest);
    FeedCat(Launder(Heading(kw, |xs|, Eol)), Out(fields, xs), rest);
  }

  /** The main loop reads the keyword, the record's function the count; the lines come next. */
  lemma SectionRead<T>(gap: string, kw: string, fields: T -> Fields, xs: seq<T>, rest: Input)
    requires Gap(gap, false) && Keyword(kw) && |xs| < 0x1_0000
    requires forall x :: x in xs ==> Sound(fields(x))
    ensures var k := Token(Feed(gap, Feed(Section(kw, fields, xs), rest)), 32);
      var c := Next(k.rest);
      && k.value == kw && !k.eof && !c.eof && Scanned(c.value, 10) == |xs| && c.rest == In(fields, xs, rest)
  {
    SectionIn(kw, fields, xs, rest);
    HeadingRead(gap, kw, |xs|, Eol, In(fields, xs, rest));
  }

  lemma HeadingWidth(kw: string, n: Word, more: Fields)
    requires Keyword(kw) && Width(more) <= 200
    ensures |Heading(kw, n, more)| < 512
  {
    DwordDigits(n, 10);
    SpacesAreBlanks(if |kw| < 10 then 10 - |kw| else 0);
  }

  method PrtHeading(w: Writer, kw: string, n: Word, more: Fields)
    requires Keyword(kw) && Width(more) <= 200
    modifies w
    ensures w.file == old(w.file) + Launder(Heading(kw, n, more))
  {
    HeadingWidth(kw, n, more);
    w.Lprintf(Heading(kw, n, more));
  }

  /** A line for each item. */
  method PrtLines<T>(w: Writer, fields: T -> Fields, xs: seq<T>)
    requires forall x :: x in xs ==> |Line(fields(x))| < 512
    modifies w
    ensures w.file == old(w.file) + Out(fields, xs)
  {
    ghost var want := w.file + Out(fields, xs);
    var k := 0;
    while k < |xs|
      invariant k <= |xs| && w.file + Out(fields, xs[k..]) == want
    {
      assert xs[k] in xs;
      OutStep(w.file, fields, xs, k);
      w.Lprintf(Line(fields(xs[k])));
      k := k + 1;
    }
    assert xs[k..] == [];
  }

  /** The `prt_` functions over a list: nothing for an empty one, else its heading and its lines. */
  method PrtList<T>(w: Writer, kw: string, fields: T -> Fields, xs: seq<T>)
    requires Keyword(kw) && |xs| < 0x1_0000
    requires forall x :: x in xs ==> |Line(fields(x))| < 512
    modifies w
    ensures w.file == old(w.file) + if xs == [] then "" else Section(kw, fields, xs)
  {
    if |xs| < 1 {
      return;
    }
    Regroup(w.file, Launder(Heading(kw, |xs|, Eol)), Out(fields, xs));
    PrtHeading(w, kw, |xs|, Eol);
    PrtLines(w, fields, xs);
  }

  // ----- holes -----

  datatype Hole = Hole(faddr: Dword, length: Dword, cls: Word, name: string)

  function HoleFields(h: Hole): Fields {
    Hex8(h.faddr, Hex8(h.length, Dec(h.cls, Str(h.name, Eol))))
  }

  /** A hole that survives: its name has no ^Z and is two bytes shorter than its field. */
  predicate GoodHole(h: Hole) {
    Clean(h.name) && |h.name| <= 18
  }

  lemma HoleSound(h: Hole)
    requires GoodHole(h)
    ensures Sound(HoleFields(h))
  {
    var f3 := Str(h.name, Eol);
    DecSound(h.cls, f3);
    Hex8Sound(h.length, Dec(h.cls, f3));
    Hex8Sound(h.faddr, Hex8(h.length, Dec(h.cls, f3)));
  }

  lemma HoleWidth(h: Hole)
    requires |h.name| < 20
    ensures Width(HoleFields(h)) < 512
  {
    var f3 := Str(h.name, Eol);
    var f2 := Dec(h.cls, f3);
    NumberWidth(0, h.cls, f3);
    NumberWidth(h.length, 0, f2);
    NumberWidth(h.faddr, 0, Hex8(h.length, f2));
  }

  function ReadHole(i: Input): Read<Hole> {
    var a := Next(i);
    var b := Next(a.rest);
    var c := Next(b.rest);
    var d := Next(c.rest);
    if a.eof || b.eof || c.eof || d.eof then Failed
    else Got(Hole(Low32(Scanned(a.value, 16)), Low32(Scanned(b.value, 16)), Low16(Scanned(c.value, 10)),
                  FieldOf(d.value, 20)), d.rest)
  }

  /** One hole is read back; its line end is left for the next token to skip. */
  lemma HoleRead(gap: string, h: Hole, rest: Input)
    requires GoodHole(h) && Gap(gap, false)
    ensures ReadHole(Feed(gap, LineIn(HoleFields(h), rest))) == Got(h, More('\n', rest))
  {
    var f3 := Str(h.name, Eol);
    var f2 := Dec(h.cls, f3);
    var f1 := Hex8(h.length, f2);
    DecSound(h.cls, f3);
    Hex8Sound(h.length, f2);
    Hex8Sound(h.faddr, f1);
    FieldNext(gap, Hex8(h.faddr, f1), rest);
    FieldNextEaten(f1, rest);
    FieldNextEaten(f2, rest);
    FieldNextEaten(f3, rest);
  }

  lemma FeedNewline(rest: Input)
    ensures Feed(['\n'], rest) == More('\n', rest)
  {
    assert ['\n'][1..] == "";
  }

  /** What stands before the next record once the list has been read. */
  lemma {:induction false} HolesRead(gap: string, done: seq<Hole>, hs: seq<Hole>, rest: Input)
    requires Gap(gap, false) && forall h :: h in hs ==> GoodHole(h)
    ensures ReadMany(ReadHole, done, Feed(gap, In(HoleFields, hs, rest)), |hs|)
         == Got(done + hs, if hs == [] then Feed(gap, rest) else More('\n', rest))
    decreases |hs|
  {
    hide ReadHole;
    if hs == [] {
      assert done + hs == done;
    } else {
      var after := In(HoleFields, hs[1..], rest);
      HoleRead(gap, hs[0], after);
      HolesRead(['\n'], done + [hs[0]], hs[1..], rest);
      FeedNewline(after);
      FeedNewline(rest);
      assert (done + [hs[0]]) + hs[1..] == done + hs;
    }
  }

  /** `prt_HOLES` */
  method PrtHoles(w: Writer, kw: string, value: seq<Hole>)
    requires Keyword(kw) && |value| < 0x1_0000 && forall h :: h in value ==> |h.name| < 20
    modifies w
    ensures w.file == old(w.file) + if value == [] then "" else Section(kw, HoleFields, value)
  {
    forall h | h in value ensures |Line(HoleFields(h))| < 512 {
      HoleWidth(h);
    }
    PrtList(w, kw, HoleFields, value);
  }

  /** One hole of `scn_HOLES`. */
  method ScnHole(r: Reader) returns (ok: bool, h: Hole)
    modifies r`input, r`reachedEOL
    ensures var want := ReadHole(old(r.input));
      if ok then want == Got(h, r.input) else want == Failed
  {
    hide Next;
    h := Hole(0, 0, 0, "");
    var a, b, c, name;
    ok, a := r.ScnNumber(16, 0);
    if !ok {
      return;
    }
    ok, b := r.ScnNumber(16, 0);
    if !ok {
      return;
    }
    ok, c := r.ScnNumber(10, 0);
    if !ok {
      return;
    }
    ok, name := r.ScnString(20);
    if !ok {
      return;
    }
    h := Hole(Low32(a), Low32(b), Low16(c), name);
  }

  /** `scn_HOLES` */
  method ScnHoles(r: Reader) returns (ok: bool, value: seq<Hole>)
    modifies r`input, r`reachedEOL
    ensures var c := Next(old(r.input));
      var want := if c.eof then Failed else ReadMany(ReadHole, [], c.rest, Low16(Scanned(c.value, 10)));
      if ok then want == Got(value, r.input) else want == Failed
  {
    hide ReadHole, Next;
    var n;
    ok, n := r.ScnNumber(10, 0);
    value := [];
    if !ok {
      return;
    }
    var kk, count := 0, Low16(n);
    ghost var want := ReadMany(ReadHole, [], r.input, count);
    while kk < count
      invariant kk <= count && ReadMany(ReadHole, value, r.input, count - kk) == want
    {
      var h;
      ok, h := ScnHole(r);
      if !ok {
        return;
      }
      value := value + [h];
      kk := kk + 1;
    }
    ok := true;
  }
}
