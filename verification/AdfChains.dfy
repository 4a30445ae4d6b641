/** The adapter descriptions in the system information buffer: records that refer to each other by
    handles, written out and rebuilt (ASQENG/WRITSYS.C, ASQENG/READSYS.C). */
module AdfChains {
  import opened AdfText
  import opened CText
  import opened Fields
  import opened Numbers
  import opened Options
  import opened Reader
  import opened Records
  import opened Scanner

  /** A record; the next handle of a list's last record means nothing. */
  datatype Rec =
    | ChoiceRec(next: nat, name: string, pos: seq<string>)
    | OptionRec(next: nat, name: string, nchoice: Word, fchoice: nat, lchoice: nat)
    | AdapterRec(aid: Word, name: string, noption: Word, foption: nat, loption: nat)

  type Heap = map<nat, Rec>

  // ----- what the records stand for -----

  ghost predicate ChoiceLink(h: Heap, hs: seq<nat>, cs: seq<Choice>, j: nat)
    requires j < |hs| == |cs|
  {
    && hs[j] in h && h[hs[j]].ChoiceRec?
    && h[hs[j]].name == cs[j].name && h[hs[j]].pos == cs[j].pos
    && (j < |hs| - 1 ==> h[hs[j]].next == hs[j + 1])
  }

  ghost predicate ChoiceChain(h: Heap, hs: seq<nat>, cs: seq<Choice>) {
    |hs| == |cs| && forall j: nat :: j < |hs| ==> ChoiceLink(h, hs, cs, j)
  }

  /** The chain that starts at the handle holds these choices. */
  ghost predicate ChoicesAt(h: Heap, first: nat, cs: seq<Choice>) {
    exists hs :: ChoiceChain(h, hs, cs) && (hs != [] ==> hs[0] == first)
  }

  ghost predicate OptionLink(h: Heap, hs: seq<nat>, os: seq<AdfOption>, j: nat)
    requires j < |hs| == |os|
  {
    && hs[j] in h && h[hs[j]].OptionRec?
    && h[hs[j]].name == os[j].name && h[hs[j]].nchoice == |os[j].choices|
    && ChoicesAt(h, h[hs[j]].fchoice, os[j].choices)
    && (j < |hs| - 1 ==> h[hs[j]].next == hs[j + 1])
  }

  ghost predicate OptionChain(h: Heap, hs: seq<nat>, os: seq<AdfOption>) {
    |hs| == |os| && forall j: nat :: j < |hs| ==> OptionLink(h, hs, os, j)
  }

  ghost predicate OptionsAt(h: Heap, first: nat, os: seq<AdfOption>) {
    exists hs :: OptionChain(h, hs, os) && (hs != [] ==> hs[0] == first)
  }

  ghost predicate AdapterAt(h: Heap, p: nat, a: Adapter) {
    && p in h && h[p].AdapterRec? && h[p].aid == a.aid && h[p].name == a.name && h[p].noption == |a.options|
    && OptionsAt(h, h[p].foption, a.options)
  }

  ghost predicate SlotAt(h: Heap, p: nat, s: Option<Adapter>) {
    match s
    case None => p == 0
    case Some(a) => p != 0 && AdapterAt(h, p, a)
  }

  ghost predicate SlotHolds(h: Heap, value: seq<nat>, ss: seq<Option<Adapter>>, k: nat)
    requires k < |value| == |ss|
  {
    SlotAt(h, value[k], ss[k])
  }

  ghost predicate SlotsAt(h: Heap, value: seq<nat>, ss: seq<Option<Adapter>>) {
    |value| == |ss| && forall k: nat :: k < |ss| ==> SlotHolds(h, value, ss, k)
  }

  // ----- what changes to the records keep -----

  /** Records may be added but not changed. */
  ghost predicate Grown(h: Heap, g: Heap) {
    forall p :: p in h ==> p in g && g[p] == h[p]
  }

  /** Choice records may be added but not changed. */
  ghost predicate ChoicesGrown(h: Heap, g: Heap) {
    forall p :: p in h && h[p].ChoiceRec? ==> p in g && g[p] == h[p]
  }

  lemma ChoicesKept(h: Heap, g: Heap, first: nat, cs: seq<Choice>)
    requires ChoicesAt(h, first, cs) && ChoicesGrown(h, g)
    ensures ChoicesAt(g, first, cs)
  {
    var hs :| ChoiceChain(h, hs, cs) && (hs != [] ==> hs[0] == first);
    forall j: nat | j < |hs| ensures ChoiceLink(g, hs, cs, j) {
      assert ChoiceLink(h, hs, cs, j);
    }
    assert ChoiceChain(g, hs, cs);
  }

  lemma OptionChainKept(h: Heap, g: Heap, hs: seq<nat>, os: seq<AdfOption>)
    requires OptionChain(h, hs, os) && Grown(h, g)
    ensures OptionChain(g, hs, os)
  {
    forall j: nat | j < |hs| ensures OptionLink(g, hs, os, j) {
      assert OptionLink(h, hs, os, j);
      ChoicesKept(h, g, h[hs[j]].fchoice, os[j].choices);
    }
  }

  lemma OptionsKept(h: Heap, g: Heap, first: nat, os: seq<AdfOption>)
    requires OptionsAt(h, first, os) && Grown(h, g)
    ensures OptionsAt(g, first, os)
  {
    var hs :| OptionChain(h, hs, os) && (hs != [] ==> hs[0] == first);
    OptionChainKept(h, g, hs, os);
  }

  lemma SlotsKept(h: Heap, g: Heap, value: seq<nat>, ss: seq<Option<Adapter>>)
    requires SlotsAt(h, value, ss) && Grown(h, g)
    ensures SlotsAt(g, value, ss)
  {
    forall k: nat | k < |ss| ensures SlotHolds(g, value, ss, k) {
      assert SlotHolds(h, value, ss, k);
      if ss[k].Some? {
        OptionsKept(h, g, h[value[k]].foption, ss[k].value.options);
      }
    }
  }

  ghost predicate Increasing(hs: seq<nat>, low: nat, high: nat) {
    && (forall j :: 0 <= j < |hs| ==> low <= hs[j] < high)
    && (forall j, k :: 0 <= j < k < |hs| ==> hs[j] < hs[k])
  }

  /** The heap with a record's next handle set. */
  function Linked(h: Heap, p: nat, next: nat): Heap
    requires p in h && !h[p].AdapterRec?
  {
    h[p := h[p].(next := next)]
  }

  /** The heap with a record stored at p and linked to the end of its chain. */
  function Added(h: Heap, last: nat, p: nat, r: Rec): Heap
    requires last != 0 ==> last in h && !h[last].AdapterRec? && last != p
  {
    var g := h[p := r];
    if last == 0 then g else Linked(g, last, p)
  }

  ghost predicate IsLast(hs: seq<nat>, last: nat) {
    if hs == [] then last == 0 else last == hs[|hs| - 1] && last != 0
  }

  lemma ChoiceAppended(h: Heap, hs: seq<nat>, cs: seq<Choice>, last: nat, p: nat, c: Choice)
    requires ChoiceChain(h, hs, cs) && Increasing(hs, 0, p) && IsLast(hs, last)
    ensures last != 0 ==> last in h && h[last].ChoiceRec? && last != p
    ensures ChoiceChain(Added(h, last, p, ChoiceRec(0, c.name, c.pos)), hs + [p], cs + [c])
  {
    if hs != [] {
      assert ChoiceLink(h, hs, cs, |hs| - 1);
    }
    var g, hs', cs' := Added(h, last, p, ChoiceRec(0, c.name, c.pos)), hs + [p], cs + [c];
    forall j: nat | j < |hs'| ensures ChoiceLink(g, hs', cs', j) {
      if j < |hs| {
        assert ChoiceLink(h, hs, cs, j);
      }
    }
  }

  lemma OptionAppended(h: Heap, hs: seq<nat>, os: seq<AdfOption>, last: nat, p: nat, r: Rec, o: AdfOption)
    requires OptionChain(h, hs, os) && Increasing(hs, 0, p) && IsLast(hs, last) && p !in h
    requires r.OptionRec? && r.name == o.name && r.nchoice == |o.choices| && ChoicesAt(h, r.fchoice, o.choices)
    ensures last != 0 ==> last in h && h[last].OptionRec? && last != p
    ensures OptionChain(Added(h, last, p, r), hs + [p], os + [o])
  {
    if hs != [] {
      assert OptionLink(h, hs, os, |hs| - 1);
    }
    var g, hs', os' := Added(h, last, p, r), hs + [p], os + [o];
    assert ChoicesGrown(h, g);
    ChoicesKept(h, g, r.fchoice, o.choices);
    forall j: nat | j < |hs'| ensures OptionLink(g, hs', os', j) {
      if j < |hs| {
        assert OptionLink(h, hs, os, j);
        ChoicesKept(h, g, h[hs[j]].fchoice, os[j].choices);
      }
    }
  }
}
