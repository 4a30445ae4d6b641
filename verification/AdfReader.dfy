/** Rebuilding the adapter records from the text (`scn_ADFINFO`, `scn_ADFOPTION`, `scn_ADFCHOICE`).
    The readers of options and choices report a file that ends early, but their callers do not
    look. */
module AdfReader {
  import opened AdfChains
  import opened AdfText
  import opened CText
  import opened Fields
  import opened Numbers
  import opened Options
  import opened Reader
  import opened Scanner

  /** The part of the system information buffer that holds these records: handles only grow. */
  class Arena {
    var heap: Heap
    var bufnext: nat

    ghost predicate Valid()
      reads this
    {
      2 <= bufnext && forall p :: p in heap ==> 2 <= p < bufnext
    }

    constructor ()
      ensures Valid() && heap == map[]
    {
      heap, bufnext := map[], 2;
    }

    /** `sysbuf_store` */
    method Store(r: Rec) returns (p: nat)
      requires Valid()
      modifies this
      ensures Valid() && p == old(bufnext) < bufnext && p !in old(heap) && heap == old(heap)[p := r]
    {
      p := bufnext;
      heap := heap[p := r];
      bufnext := bufnext + 1;
    }

    /** Set the next handle of the last record of a chain. */
    method SetNext(last: nat, p: nat)
      requires Valid() && last in heap && !heap[last].AdapterRec?
      modifies this`heap
      ensures Valid() && heap == Linked(old(heap), last, p)
    {
      heap := heap[last := heap[last].(next := p)];
    }
  }

  method ScnCount(r: Reader) returns (ok: bool, n: Word)
    modifies r`input, r`reachedEOL
    ensures var want := ReadCount(old(r.input));
      if ok then want == GotE(n, r.input, r.reachedEOL) else want == FailedE && r.input == End
  {
    NothingLeft(r.input);
    var v;
    ok, v := r.ScnNumber(10, 0);
    n := Low16(v);
  }

  method ScnText(r: Reader, size: nat) returns (ok: bool, s: string)
    requires size > 0
    modifies r`input, r`reachedEOL
    ensures var want := ReadString(old(r.input), size);
      if ok then want == GotE(s, r.input, r.reachedEOL) else want == FailedE && r.input == End
  {
    NothingLeft(r.input);
    ok, s := r.ScnString(size);
  }

  /** One choice: its name and its four POS strings. */
  method ScnChoice(r: Reader) returns (ok: bool, c: Choice)
    modifies r`input, r`reachedEOL
    ensures var want := ReadChoice(old(r.input));
      if ok then want == GotE(c, r.input, r.reachedEOL) else want == FailedE && r.input == End
  {
    c := Choice("", []);
    var name;
    ok, name := ScnText(r, 50);
    if !ok {
      return;
    }
    var ii, pos := 0, [];
    ghost var want := ReadManyE(ReadPos, [], r.input, r.reachedEOL, 4);
    while ii < 4
      invariant ii <= 4 && ReadManyE(ReadPos, pos, r.input, r.reachedEOL, 4 - ii) == want
    {
      var p;
      ok, p := ScnText(r, 10);
      if !ok {
        return;
      }
      pos := pos + [p];
      ii := ii + 1;
    }
    ok, c := true, Choice(name, pos);
  }

  /** Records below a handle stay as they are. */
  ghost predicate KeptBelow(h: Heap, g: Heap, low: nat) {
    forall p :: p in h && p < low ==> p in g && g[p] == h[p]
  }

  /** A chain under construction, at handles from low up to high. */
  ghost predicate Built(hs: seq<nat>, first: nat, last: nat, low: nat, high: nat) {
    Increasing(hs, low, high) && IsLast(hs, last) && (hs != [] ==> hs[0] == first)
  }

  /** Store a record at the end of a chain. */
  method Append(arena: Arena, first0: nat, last0: nat, r: Rec, ghost low: nat, ghost hs: seq<nat>)
    returns (first: nat, last: nat)
    requires arena.Valid() && low <= arena.bufnext && low > 0 && Built(hs, first0, last0, low, arena.bufnext)
    requires last0 != 0 ==> last0 in arena.heap && !arena.heap[last0].AdapterRec?
    modifies arena
    ensures arena.Valid() && last == old(arena.bufnext) < arena.bufnext && last !in old(arena.heap)
    ensures arena.heap == Added(old(arena.heap), last0, last, r)
    ensures Built(hs + [last], first, last, low, arena.bufnext) && KeptBelow(old(arena.heap), arena.heap, low)
  {
    last := arena.Store(r);
    first := first0;
    if last0 != 0 {
      arena.SetNext(last0, last);
    } else {
      first := last;
    }
  }

  /** `scn_ADFCHOICE`: store the choices and chain them. */
  method ScnAdfChoices(r: Reader, arena: Arena, n: nat) returns (ok: bool, first: nat, last: nat)
    requires arena.Valid()
    modifies r`input, r`reachedEOL, arena
    ensures arena.Valid() && arena.bufnext >= old(arena.bufnext)
    ensures KeptBelow(old(arena.heap), arena.heap, old(arena.bufnext))
    ensures var want := ReadManyE(ReadChoice, [], old(r.input), old(r.reachedEOL), n);
      if ok then want.GotE? && want.rest == r.input && want.eol == r.reachedEOL && ChoicesAt(arena.heap, first, want.value)
      else want == FailedE && r.input == End
  {
    hide ReadChoice;
    ghost var low, h0 := arena.bufnext, arena.heap;
    ghost var hs, cs: seq<Choice> := [], [];
    first, last := 0, 0;
    var kk := 0;
    ghost var want := ReadManyE(ReadChoice, [], r.input, r.reachedEOL, n);
    while kk < n
      invariant kk <= n && arena.Valid() && arena.bufnext >= low && KeptBelow(h0, arena.heap, low)
      invariant Built(hs, first, last, low, arena.bufnext) && ChoiceChain(arena.heap, hs, cs)
      invariant ReadManyE(ReadChoice, cs, r.input, r.reachedEOL, n - kk) == want
    {
      var c;
      ok, c := ScnChoice(r);
      if !ok {
        return;
      }
      ChoiceAppended(arena.heap, hs, cs, last, arena.bufnext, c);
      first, last := Append(arena, first, last, ChoiceRec(0, c.name, c.pos), low, hs);
      hs, cs := hs + [last], cs + [c];
      kk := kk + 1;
    }
    assert ChoiceChain(arena.heap, hs, cs);
    ok := true;
  }

  /** One option, its choices stored; a file that ends among the choices is not noticed here. */
  method ScnOption(r: Reader, arena: Arena) returns (ok: bool, v: Rec)
    requires arena.Valid()
    modifies r`input, r`reachedEOL, arena
    ensures arena.Valid() && arena.bufnext >= old(arena.bufnext) && v.OptionRec?
    ensures KeptBelow(old(arena.heap), arena.heap, old(arena.bufnext))
    ensures var want := ReadOption(old(r.input));
      if want.FailedE? then r.input == End
      else
        && ok && r.input == want.rest && r.reachedEOL == want.eol
        && v.name == want.value.name && v.nchoice == |want.value.choices|
        && ChoicesAt(arena.heap, v.fchoice, want.value.choices)
    ensures !ok ==> ReadOption(old(r.input)) == FailedE
  {
    v := OptionRec(0, "", 0, 0, 0);
    var name, n;
    ok, name := ScnText(r, 50);
    if !ok {
      return;
    }
    ok, n := ScnCount(r);
    if !ok {
      return;
    }
    var got, first, last := true, 0, 0;
    ReadManyCount(ReadChoice, [], r.input, r.reachedEOL, n);
    if n > 0 {
      got, first, last := ScnAdfChoices(r, arena, n);
    } else {
      assert ChoiceChain(arena.heap, [], []);
    }
    v := OptionRec(0, name, n, first, last);
  }

  /** Where the reading of options stands: os have been read and n are left, or the file has ended
      too early. */
  ghost predicate Reading(os: seq<AdfOption>, i: Input, eol: bool, n: nat, want: ReadE<seq<AdfOption>>) {
    ReadManyE(ReadOption, os, i, eol, n) == want || (want.FailedE? && i == End)
  }

  lemma ReadingStep(os: seq<AdfOption>, i: Input, eol: bool, n: nat, want: ReadE<seq<AdfOption>>)
    requires Reading(os, i, eol, n, want) && n > 0
    ensures var g := ReadOption(i);
      if g.FailedE? then want.FailedE? else Reading(os + [g.value], g.rest, g.eol, n - 1, want)
  {
    EndReads();
  }

  /** Read one option and store it at the end of the chain. */
  method NextOption(r: Reader, arena: Arena, first0: nat, last0: nat, ghost n: nat, ghost want: ReadE<seq<AdfOption>>,
                    ghost low: nat, ghost hs: seq<nat>, ghost os: seq<AdfOption>)
    returns (ok: bool, first: nat, last: nat, ghost os': seq<AdfOption>)
    requires arena.Valid() && 0 < low <= arena.bufnext && Built(hs, first0, last0, low, arena.bufnext)
    requires last0 != 0 ==> last0 in arena.heap && arena.heap[last0].OptionRec?
    requires n > 0 && Reading(os, r.input, r.reachedEOL, n, want)
    requires want.GotE? ==> OptionChain(arena.heap, hs, os)
    modifies r`input, r`reachedEOL, arena
    ensures arena.Valid() && arena.bufnext >= low && KeptBelow(old(arena.heap), arena.heap, low)
    ensures !ok ==> want == FailedE && r.input == End
    ensures ok ==> Built(hs + [last], first, last, low, arena.bufnext)
    ensures ok ==> last in arena.heap && arena.heap[last].OptionRec?
    ensures ok ==> Reading(os', r.input, r.reachedEOL, n - 1, want)
    ensures ok && want.GotE? ==> OptionChain(arena.heap, hs + [last], os')
  {
    ghost var g, h := ReadOption(r.input), arena.heap;
    ReadingStep(os, r.input, r.reachedEOL, n, want);
    first, last := first0, last0;
    os' := if g.GotE? then os + [g.value] else os;
    var v;
    ok, v := ScnOption(r, arena);
    if !ok {
      return;
    }
    assert Grown(h, arena.heap);
    if want.GotE? {
      OptionChainKept(h, arena.heap, hs, os);
      OptionAppended(arena.heap, hs, os, last, arena.bufnext, v, g.value);
    }
    first, last := Append(arena, first, last, v, low, hs);
  }

  lemma NoOptions(h: Heap)
    ensures OptionChain(h, [], [])
  {
  }

  lemma OptionsBuilt(h: Heap, hs: seq<nat>, os: seq<AdfOption>, first: nat)
    requires OptionChain(h, hs, os) && (hs != [] ==> hs[0] == first)
    ensures OptionsAt(h, first, os)
  {
  }

  /** `scn_ADFOPTION`: store the options and chain them. */
  method ScnAdfOptions(r: Reader, arena: Arena, n: nat) returns (ok: bool, first: nat, last: nat)
    requires arena.Valid()
    modifies r`input, r`reachedEOL, arena
    ensures arena.Valid() && arena.bufnext >= old(arena.bufnext)
    ensures KeptBelow(old(arena.heap), arena.heap, old(arena.bufnext))
    ensures var want := ReadManyE(ReadOption, [], old(r.input), old(r.reachedEOL), n);
      if want.FailedE? then r.input == End
      else ok && want.rest == r.input && want.eol == r.reachedEOL && OptionsAt(arena.heap, first, want.value)
  {
    hide ReadOption;
    ghost var low, h0 := arena.bufnext, arena.heap;
    ghost var hs, os: seq<AdfOption> := [], [];
    first, last := 0, 0;
    var kk := 0;
    ghost var want := ReadManyE(ReadOption, [], r.input, r.reachedEOL, n);
    NoOptions(arena.heap);
    while kk < n
      invariant kk <= n && arena.Valid() && arena.bufnext >= low && KeptBelow(h0, arena.heap, low)
      invariant Built(hs, first, last, low, arena.bufnext)
      invariant last != 0 ==> last in arena.heap && arena.heap[last].OptionRec?
      invariant Reading(os, r.input, r.reachedEOL, n - kk, want)
      invariant want.GotE? ==> OptionChain(arena.heap, hs, os)
    {
      ok, first, last, os := NextOption(r, arena, first, last, n - kk, want, low, hs, os);
      if !ok {
        return;
      }
      hs := hs + [last];
      kk := kk + 1;
    }
    ok := true;
    if want.GotE? {
      OptionsBuilt(arena.heap, hs, os, first);
    }
  }

  /** Whether the file holds the whole of an adapter, and the adapter's options are stored. */
  method ScnAdapter(r: Reader, arena: Arena) returns (ok: bool, v: Rec)
    requires arena.Valid()
    modifies r`input, r`reachedEOL, arena
    ensures arena.Valid() && arena.bufnext >= old(arena.bufnext) && v.AdapterRec?
    ensures KeptBelow(old(arena.heap), arena.heap, old(arena.bufnext))
    ensures var want := ReadAdapter(old(r.input));
      if want.FailedE? then r.input == End
      else ok && r.input == want.rest && r.reachedEOL == want.eol && Stands(arena.heap, v, want.value)
    ensures !ok ==> ReadAdapter(old(r.input)) == FailedE
  {
    hide Scanned, Converts, FieldOf;
    v := AdapterRec(0, "", 0, 0, 0);
    NothingLeft(r.input);
    var aid, name, n;
    ok, aid := r.ScnNumber(16, 0);
    if !ok {
      return;
    }
    ok, name := ScnText(r, 50);
    if !ok {
      return;
    }
    ok, n := ScnCount(r);
    if !ok {
      return;
    }
    var got, first, last := true, 0, 0;
    ReadManyCount(ReadOption, [], r.input, r.reachedEOL, n);
    if n > 0 {
      got, first, last := ScnAdfOptions(r, arena, n);
    } else {
      NoOptions(arena.heap);
      OptionsBuilt(arena.heap, [], [], first);
    }
    v := AdapterRec(Low16(aid), name, n, first, last);
  }

  /** The record, with what its handles reach, stands for the adapter. */
  ghost predicate Stands(h: Heap, v: Rec, a: Adapter)
    requires v.AdapterRec?
  {
    v.aid == a.aid && v.name == a.name && v.noption == |a.options| && OptionsAt(h, v.foption, a.options)
  }

  /** One slot: an adapter with number 0 is not stored. */
  method ScnSlot(r: Reader, arena: Arena) returns (ok: bool, p: nat)
    requires arena.Valid()
    modifies r`input, r`reachedEOL, arena
    ensures arena.Valid() && Grown(old(arena.heap), arena.heap)
    ensures match ReadSlot(old(r.input))
      case Failed => r.input == End
      case Got(s, rest) => ok && r.input == rest && SlotAt(arena.heap, p, s)
    ensures !ok ==> ReadSlot(old(r.input)) == Failed
  {
    p := 0;
    ghost var h := arena.heap;
    var v;
    ok, v := ScnAdapter(r, arena);
    if !ok {
      return;
    }
    ghost var g := arena.heap;
    assert Grown(h, g);
    if v.aid != 0 {
      p := arena.Store(v);
      forall a: Adapter | Stands(g, v, a) ensures AdapterAt(arena.heap, p, a) {
        OptionsKept(g, arena.heap, v.foption, a.options);
      }
    }
    r.AssertEol();
  }

  lemma SlotAdded(h: Heap, g: Heap, value: seq<nat>, ss: seq<Option<Adapter>>, p: nat, s: Option<Adapter>)
    requires SlotsAt(h, value, ss) && Grown(h, g) && SlotAt(g, p, s)
    ensures SlotsAt(g, value + [p], ss + [s])
  {
    SlotsKept(h, g, value, ss);
    forall k: nat | k < |ss| + 1 ensures SlotHolds(g, value + [p], ss + [s], k) {
      if k < |ss| {
        assert SlotHolds(g, value, ss, k);
      }
    }
  }

  /** Where the reading of slots stands. */
  ghost predicate ReadingSlots(ss: seq<Option<Adapter>>, i: Input, n: nat, want: Read<seq<Option<Adapter>>>) {
    ReadMany(ReadSlot, ss, i, n) == want || (want == Failed && i == End)
  }

  lemma ReadingSlot(ss: seq<Option<Adapter>>, i: Input, n: nat, want: Read<seq<Option<Adapter>>>)
    requires ReadingSlots(ss, i, n, want) && n > 0
    ensures match ReadSlot(i)
      case Failed => want == Failed
      case Got(s, rest) => ReadingSlots(ss + [s], rest, n - 1, want)
  {
    EndReads();
  }

  lemma NoSlots(h: Heap)
    ensures SlotsAt(h, [], [])
  {
  }

  method NextSlot(r: Reader, arena: Arena, ghost n: nat, ghost want: Read<seq<Option<Adapter>>>,
                  ghost value: seq<nat>, ghost ss: seq<Option<Adapter>>)
    returns (ok: bool, p: nat, ghost ss': seq<Option<Adapter>>)
    requires arena.Valid() && n > 0 && ReadingSlots(ss, r.input, n, want)
    requires want.Got? ==> SlotsAt(arena.heap, value, ss)
    modifies r`input, r`reachedEOL, arena
    ensures arena.Valid()
    ensures if ok then ReadingSlots(ss', r.input, n - 1, want) else want == Failed && r.input == End
    ensures ok && want.Got? ==> SlotsAt(arena.heap, value + [p], ss')
  {
    ghost var h, g := arena.heap, ReadSlot(r.input);
    ReadingSlot(ss, r.input, n, want);
    ss' := if g.Got? then ss + [g.value] else ss;
    ok, p := ScnSlot(r, arena);
    if want.Got? {
      SlotAdded(h, arena.heap, value, ss, p, g.value);
    }
  }

  /** The slots; as many handles are set as slots are read. */
  method ScnSlots(r: Reader, arena: Arena, value: array<nat>, count: nat)
    returns (ok: bool, ghost ss: seq<Option<Adapter>>)
    requires arena.Valid() && count <= value.Length
    modifies r`input, r`reachedEOL, arena, value
    ensures arena.Valid()
    ensures var want := ReadMany(ReadSlot, [], old(r.input), count);
      && (want == Failed ==> r.input == End)
      && (want.Got? ==> ok && want == Got(ss, r.input) && SlotsAt(arena.heap, value[..count], ss))
    ensures forall k :: count <= k < value.Length ==> value[k] == old(value[k])
  {
    hide ReadSlot;
    var kk := 0;
    ss := [];
    ghost var want := ReadMany(ReadSlot, [], r.input, count);
    NoSlots(arena.heap);
    assert value[..0] == [];
    while kk < count
      invariant kk <= count && arena.Valid() && ReadingSlots(ss, r.input, count - kk, want)
      invariant want.Got? ==> SlotsAt(arena.heap, value[..kk], ss)
      invariant forall k :: count <= k < value.Length ==> value[k] == old(value[k])
    {
      ghost var vs := value[..kk];
      var p;
      ok, p, ss := NextSlot(r, arena, count - kk, want, vs, ss);
      if !ok {
        return;
      }
      value[kk] := p;
      assert value[..kk + 1] == vs + [p];
      kk := kk + 1;
    }
    ok := true;
  }

  /** `scn_ADFINFO`: all handles are cleared, then the slots that fit are read. */
  method ScnAdfInfo(r: Reader, arena: Arena, value: array<nat>) returns (ok: bool)
    requires arena.Valid()
    modifies r`input, r`reachedEOL, arena, value
    ensures arena.Valid()
    ensures var c := Next(old(r.input));
      var n := Low16(Scanned(c.value, 10));
      var count := if n > value.Length then value.Length else n;
      && (c.eof ==> !ok)
      && (!c.eof ==>
            match ReadMany(ReadSlot, [], c.rest, count)
            case Failed => r.input == End
            case Got(ss, rest) =>
              && ok && r.input == rest && SlotsAt(arena.heap, value[..count], ss)
              && forall k :: count <= k < value.Length ==> value[k] == 0)
  {
    forall k | 0 <= k < value.Length {
      value[k] := 0;
    }
    var n;
    ok, n := r.ScnNumber(10, 0);
    if !ok {
      return;
    }
    var count := Low16(n);
    if count > value.Length {
      count := value.Length;
    }
    ghost var ss;
    ok, ss := ScnSlots(r, arena, value, count);
  }

  lemma EndReads()
    ensures Next(End).eof && ReadOption(End) == FailedE && ReadAdapter(End) == FailedE
  {
  }
}
