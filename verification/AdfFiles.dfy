/** Writing the adapter descriptions from their records, and rebuilding the records from the text
    (ASQENG/WRITSYS.C, ASQENG/READSYS.C). */
module AdfFiles {
  import opened AdfChains
  import opened AdfText
  import opened CText
  import opened Fields
  import opened Numbers
  import opened Options
  import opened Reader
  import opened Records
  import opened Scanner

  // ----- writing -----

  /** Strings as the records can hold them: no NUL, and their terminator fits the field. */
  predicate Held(s: string, size: nat) {
    NUL !in s && |s| < size
  }

  predicate HeldChoice(c: Choice) {
    Held(c.name, 50) && |c.pos| == 4 && forall p :: p in c.pos ==> Held(p, 10)
  }

  predicate HeldOption(o: AdfOption) {
    Held(o.name, 50) && forall c :: c in o.choices ==> HeldChoice(c)
  }

  predicate HeldSlot(s: Option<Adapter>) {
    s.Some? ==> Held(s.value.name, 50) && forall o :: o in s.value.options ==> HeldOption(o)
  }

  function ItemText(f: Fields): string
    requires f.Field?
  {
    [' '] + f.pad + if f.quoted then [CTRL_Z] + f.s + [CTRL_Z] else f.s
  }

  /** A line may be put out in parts. */
  lemma LineParts(f: Fields)
    requires f.Field? && NUL !in f.pad && NUL !in f.s
    ensures Launder(Line(f)) == Launder(ItemText(f)) + Launder(Line(f.next))
  {
    LaunderCat(ItemText(f), Line(f.next));
  }

  method PrtPos(w: Writer, pos: seq<string>)
    requires forall p :: p in pos ==> Held(p, 10)
    modifies w
    ensures w.file == old(w.file) + Launder(Line(PosFields(pos)))
  {
    ghost var want := w.file + Launder(Line(PosFields(pos)));
    var kk := 0;
    while kk < |pos|
      invariant kk <= |pos| && w.file + Launder(Line(PosFields(pos[kk..]))) == want
    {
      ghost var f, now := PosFields(pos[kk..]), w.file;
      assert pos[kk] in pos && pos[kk..][1..] == pos[kk + 1..];
      LineParts(f);
      assert f.next == PosFields(pos[kk + 1..]);
      w.Lprintf([' '] + [CTRL_Z] + pos[kk] + [CTRL_Z]);
      assert [' '] + [CTRL_Z] + pos[kk] + [CTRL_Z] == ItemText(f);
      assert (now + Launder(ItemText(f))) + Launder(Line(f.next)) == now + Launder(Line(f));
      kk := kk + 1;
    }
    assert pos[kk..] == [];
    w.Lprintf(['\n']);
  }

  method PrtChoice(w: Writer, c: Choice)
    requires HeldChoice(c)
    modifies w
    ensures w.file == old(w.file) + Launder(Line(ChoiceFields(c)))
  {
    ghost var f := ChoiceFields(c);
    LineParts(f);
    w.Lprintf([' ', ' ', ' '] + [CTRL_Z] + c.name + [CTRL_Z]);
    assert [' ', ' ', ' '] + [CTRL_Z] + c.name + [CTRL_Z] == ItemText(f);
    PrtPos(w, c.pos);
  }

  /** `prt_ADFCHOICE`: walk the chain. */
  method PrtAdfChoices(w: Writer, h: Heap, first: nat, n: nat, ghost cs: seq<Choice>)
    requires ChoicesAt(h, first, cs) && n == |cs| && forall c :: c in cs ==> HeldChoice(c)
    modifies w
    ensures w.file == old(w.file) + Out(ChoiceFields, cs)
  {
    ghost var hs :| ChoiceChain(h, hs, cs) && (hs != [] ==> hs[0] == first);
    ghost var want := w.file + Out(ChoiceFields, cs);
    var p, jj := first, 0;
    while jj < n
      invariant jj <= n && (jj < n ==> p == hs[jj])
      invariant w.file + Out(ChoiceFields, cs[jj..]) == want
    {
      assert ChoiceLink(h, hs, cs, jj) && cs[jj] in cs;
      assert Choice(h[p].name, h[p].pos) == cs[jj];
      OutStep(w.file, ChoiceFields, cs, jj);
      PrtChoice(w, Choice(h[p].name, h[p].pos));
      p := h[p].next;
      jj := jj + 1;
    }
    assert cs[jj..] == [];
  }

  lemma OptionWidth(o: AdfOption)
    requires |o.name| < 50
    ensures Width(OptionFields(o)) < 512
  {
    NumberWidth(0, Low16(|o.choices|), Eol);
  }

  method PrtOptionLine(w: Writer, name: string, n: Word, ghost o: AdfOption)
    requires name == o.name && |name| < 50 && n == |o.choices|
    modifies w
    ensures w.file == old(w.file) + Launder(Line(OptionFields(o)))
  {
    OptionWidth(o);
    assert n == Low16(|o.choices|);
    w.Lprintf(Line(Field([' '], true, name, Dec(n, Eol))));
  }

  /** One option of `prt_ADFOPTION`, and its choices. */
  method PrtOption(w: Writer, h: Heap, p: nat, ghost o: AdfOption)
    requires HeldOption(o) && p in h && h[p].OptionRec? && h[p].name == o.name && h[p].nchoice == |o.choices|
    requires ChoicesAt(h, h[p].fchoice, o.choices)
    modifies w
    ensures w.file == old(w.file) + OptionOut(o)
  {
    ghost var start, line, cs := w.file, Launder(Line(OptionFields(o))), Out(ChoiceFields, o.choices);
    PrtOptionLine(w, h[p].name, h[p].nchoice, o);
    if h[p].nchoice > 0 {
      PrtAdfChoices(w, h, h[p].fchoice, h[p].nchoice, o.choices);
    }
    assert o.choices == [] ==> cs == "";
    Regroup(start, line, cs);
  }

  /** `prt_ADFOPTION` */
  method PrtAdfOptions(w: Writer, h: Heap, first: nat, n: nat, ghost os: seq<AdfOption>)
    requires OptionsAt(h, first, os) && n == |os| && forall o :: o in os ==> HeldOption(o)
    modifies w
    ensures w.file == old(w.file) + OptionsOut(os)
  {
    ghost var hs :| OptionChain(h, hs, os) && (hs != [] ==> hs[0] == first);
    ghost var want := w.file + OptionsOut(os);
    var p, kk := first, 0;
    while kk < n
      invariant kk <= n && (kk < n ==> p == hs[kk])
      invariant w.file + OptionsOut(os[kk..]) == want
    {
      ghost var now, o := w.file, os[kk];
      assert OptionLink(h, hs, os, kk);
      assert o in os;
      PrtOption(w, h, p, o);
      OptionsStep(now, os, kk);
      p := h[p].next;
      kk := kk + 1;
    }
    assert os[kk..] == [];
  }

  lemma OptionsStep(file: string, os: seq<AdfOption>, k: nat)
    requires k < |os|
    ensures file + OptionsOut(os[k..]) == (file + OptionOut(os[k])) + OptionsOut(os[k + 1..])
  {
    assert os[k..][1..] == os[k + 1..];
    Regroup(file, OptionOut(os[k]), OptionsOut(os[k + 1..]));
  }

  lemma SlotWidth(s: Option<Adapter>)
    requires s.Some? ==> |s.value.name| < 50
    ensures Width(SlotFields(s)) < 512
  {
    var (aid, name, n) := match s case None => (0, "", 0) case Some(a) => (a.aid, a.name, Low16(|a.options|));
    NumberWidth(0, n, Eol);
    NumberWidth(0, aid, Str(name, Dec(n, Eol)));
  }

  /** One slot of `prt_ADFINFO`. */
  method PrtSlot(w: Writer, h: Heap, p: nat, ghost s: Option<Adapter>)
    requires SlotAt(h, p, s) && HeldSlot(s)
    modifies w
    ensures w.file == old(w.file) + SlotOut(s)
  {
    SlotWidth(s);
    if p != 0 {
      PrtAdapter(w, h, p, s.value);
    } else {
      w.Lprintf(Line(Hex4(0, Str("", Dec(0, Eol)))));
      assert s == None;
    }
  }

  method PrtAdapter(w: Writer, h: Heap, p: nat, ghost a: Adapter)
    requires AdapterAt(h, p, a) && HeldSlot(Some(a))
    modifies w
    ensures w.file == old(w.file) + SlotOut(Some(a))
  {
    ghost var start, f := w.file, SlotFields(Some(a));
    SlotWidth(Some(a));
    assert h[p].noption == Low16(|a.options|);
    w.Lprintf(Line(Hex4(h[p].aid, Str(h[p].name, Dec(h[p].noption, Eol)))));
    assert w.file == start + Launder(Line(f));
    if h[p].noption > 0 {
      PrtAdfOptions(w, h, h[p].foption, h[p].noption, a.options);
    }
    assert a.options == [] ==> OptionsOut(a.options) == "";
    Regroup(start, Launder(Line(f)), OptionsOut(a.options));
  }

  /** `prt_ADFINFO` */
  method PrtAdfInfo(w: Writer, kw: string, h: Heap, value: seq<nat>, ghost ss: seq<Option<Adapter>>)
    requires Keyword(kw) && |value| < 0x1_0000
    requires SlotsAt(h, value, ss) && forall s :: s in ss ==> HeldSlot(s)
    modifies w
    ensures w.file == old(w.file) + AdfOut(kw, ss)
  {
    ghost var start, heading := w.file, Launder(Heading(kw, |ss|, Eol));
    PrtHeading(w, kw, |value|, Eol);
    PrtSlots(w, h, value, ss);
    Regroup(start, heading, SlotsOut(ss));
  }

  lemma SlotsStep(file: string, ss: seq<Option<Adapter>>, k: nat)
    requires k < |ss|
    ensures file + SlotsOut(ss[k..]) == (file + SlotOut(ss[k])) + SlotsOut(ss[k + 1..])
  {
    assert ss[k..][1..] == ss[k + 1..];
    Regroup(file, SlotOut(ss[k]), SlotsOut(ss[k + 1..]));
  }

  method PrtSlots(w: Writer, h: Heap, value: seq<nat>, ghost ss: seq<Option<Adapter>>)
    requires SlotsAt(h, value, ss) && forall s :: s in ss ==> HeldSlot(s)
    modifies w
    ensures w.file == old(w.file) + SlotsOut(ss)
  {
    ghost var want := w.file + SlotsOut(ss);
    var kk := 0;
    while kk < |value|
      invariant kk <= |value| && w.file + SlotsOut(ss[kk..]) == want
    {
      assert SlotHolds(h, value, ss, kk) && ss[kk] in ss;
      SlotsStep(w.file, ss, kk);
      PrtSlot(w, h, value[kk], ss[kk]);
      kk := kk + 1;
    }
    assert ss[kk..] == [];
  }
}
