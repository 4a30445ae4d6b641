/** Filling the gaps of the memory map (ASQENG/MAPINFO.C): `find_holes` probes memory and
    records each hole; `map_holes` puts the recorded holes back when a snapshot is read. */
module MapHoles {
  import opened UMaps
  import opened MapFix

  const CLASS_NONE: nat := 0
  const CLASS_UNUSED: nat := 1
  const CLASS_RAM: nat := 2

  datatype MemType = Unknown | Ram | Rom | Empty | McaMem

  /** What the snapshot keeps of a hole. */
  datatype MemHole = MemHole(name: string, cls: nat, faddr: nat, length: nat)

  /** The memory tester: for a segment and a size in paragraphs, the kind of memory found and
      for how many paragraphs it lasts. */
  type Probe = (nat, nat) -> (MemType, nat)

  ghost predicate Sound(testmem: Probe) {
    forall seg: nat, size: nat :: size > 0 ==> 1 <= testmem(seg, size).1 <= size
  }

  function HoleName(t: MemType): string {
    match t
    case Unknown => "Unknown"
    case Ram => "RAM"
    case Rom => "Unused"
    case Empty => "Unused"
    case McaMem => "MCA"
  }

  function HoleClass(t: MemType): nat {
    match t
    case Unknown => CLASS_NONE
    case Ram => CLASS_RAM
    case Rom => CLASS_UNUSED
    case Empty => CLASS_UNUSED
    case McaMem => CLASS_RAM
  }

  /** The hole recorded when memory is accounted for up to `here` and the next item starts at
      `next`.  Segments and sizes are 16-bit words. */
  function HoleAt(here: nat, next: nat, testmem: Probe, noTest: bool): MemHole {
    var gap: nat := if here < next then next - here else 0;
    var seg := here / 16 % 0x10000;
    var size := gap / 16 % 0x10000;
    if size != 0 && !noTest then
      var (t, n) := testmem(seg, size);
      MemHole(HoleName(t), HoleClass(t), seg * 16, n * 16)
    else
      MemHole(HoleName(Unknown), HoleClass(Unknown), seg * 16, gap)
  }

  /** A way of probing a gap, from its start to the next item. */
  type HoleFinder = (nat, nat) -> MemHole

  function Finder(testmem: Probe, noTest: bool): HoleFinder {
    (here: nat, next: nat) => HoleAt(here, next, testmem, noTest)
  }

  /** Each hole found takes something of its gap and no more than the gap. */
  ghost predicate Sensible(find: HoleFinder) {
    forall here: nat, next: nat :: here < next ==> Bites(find(here, next), here, next)
  }

  predicate Bites(h: MemHole, here: nat, next: nat) {
    1 <= h.length <= next - here
  }

  /** Within the first megabyte a hole starts where its gap does exactly when that is a
      paragraph boundary; what it leaves of the gap then starts on a paragraph too. */
  ghost predicate Aligning(find: HoleFinder) {
    forall here: nat, next: nat :: here < next <= 0x100000 ==> Aligns(find(here, next), here, next)
  }

  predicate Aligns(h: MemHole, here: nat, next: nat) {
    (h.faddr == here <==> OnPara(here)) && (OnPara(here) && here + h.length < next ==> OnPara(here + h.length))
  }

  predicate OnPara(a: nat) {
    a % 16 == 0
  }

  lemma ProbingIsSensible(testmem: Probe, noTest: bool)
    requires Sound(testmem)
    ensures Sensible(Finder(testmem, noTest)) && Aligning(Finder(testmem, noTest))
  {
    var find := Finder(testmem, noTest);
    forall here: nat, next: nat | here < next ensures Bites(find(here, next), here, next) {
      ProbeBites(here, next, testmem, noTest);
    }
    forall here: nat, next: nat | here < next <= 0x100000 ensures Aligns(find(here, next), here, next) {
      ProbeBites(here, next, testmem, noTest);
    }
  }

  lemma ProbeBites(here: nat, next: nat, testmem: Probe, noTest: bool)
    requires Sound(testmem) && here < next
    ensures Bites(HoleAt(here, next, testmem, noTest), here, next)
    ensures next <= 0x100000 ==> Aligns(HoleAt(here, next, testmem, noTest), here, next)
  {
    var size := (next - here) / 16;
    assert size % 0x10000 <= size;
  }

  /** What a hole tells: the kind of memory that the tester found and how far it lasts; a gap that is
      not tested, or is less than a paragraph, is one unknown hole. */
  lemma HoleTells(here: nat, next: nat, testmem: Probe, noTest: bool)
    requires here < next <= 0x100000
    ensures var h := HoleAt(here, next, testmem, noTest);
      && h.faddr <= here < h.faddr + 16
      && (noTest || next - here < 16 ==> h.name == "Unknown" && h.cls == CLASS_NONE && h.length == next - here)
      && (!noTest && next - here >= 16 && here < 0x100000 && next - here < 0x100000 ==>
            var (kind, n) := testmem(here / 16, (next - here) / 16);
            && h.length == n * 16
            && (kind.Ram? ==> h.name == "RAM" && h.cls == CLASS_RAM)
            && (kind.McaMem? ==> h.name == "MCA" && h.cls == CLASS_RAM)
            && (kind.Rom? || kind.Empty? ==> h.name == "Unused" && h.cls == CLASS_UNUSED)
            && (kind.Unknown? ==> h.name == "Unknown" && h.cls == CLASS_NONE))
  {
  }

  function HoleItem(h: MemHole, topDos: nat): UMap {
    UMap(h.name, "", h.cls, 1, h.faddr, h.length, h.faddr >= topDos, false, false, true)
  }

  /** Where memory is accounted for up to, once x has been passed. */
  function Past(here: nat, x: UMap): nat {
    if here == x.faddr then here + x.length else here
  }

  function Gap(s: seq<UMap>, here: nat): nat {
    if s != [] && here < s[0].faddr then s[0].faddr - here else 0
  }

  /** The holes found from `here` on, in order. */
  function Holes(s: seq<UMap>, here: nat, find: HoleFinder): seq<MemHole>
    requires Sensible(find)
    decreases |s|, Gap(s, here)
  {
    if s == [] then []
    else if here < s[0].faddr then
      var h := find(here, s[0].faddr);
      [h] + Holes(s, here + h.length, find)
    else Holes(s[1..], Past(here, s[0]), find)
  }

  /** The map with every hole found from `here` on in its place. */
  function Filled(s: seq<UMap>, here: nat, find: HoleFinder, topDos: nat): seq<UMap>
    requires Sensible(find)
    decreases |s|, Gap(s, here)
  {
    if s == [] then []
    else if here < s[0].faddr then
      var h := find(here, s[0].faddr);
      [HoleItem(h, topDos)] + Filled(s, here + h.length, find, topDos)
    else [s[0]] + Filled(s[1..], Past(here, s[0]), find, topDos)
  }

  /** The map with recorded holes put back. */
  function Replayed(s: seq<UMap>, holes: seq<MemHole>, topDos: nat): seq<UMap>
    decreases |s| + |holes|
  {
    if s == [] || holes == [] then s
    else if holes[0].faddr < s[0].faddr then [HoleItem(holes[0], topDos)] + Replayed(s, holes[1..], topDos)
    else [s[0]] + Replayed(s[1..], holes, topDos)
  }

  // ----- the shape of the maps -----

  /** How far memory is spoken for once x has been passed, gap included. */
  function Reach(here: nat, x: UMap): nat {
    if here <= x.faddr then End(x) else here
  }

  /** From `here` on, each nonempty item starts at or after the end of those before it. */
  predicate Spaced(s: seq<UMap>, here: nat) {
    s == [] || ((s[0].length > 0 ==> here <= s[0].faddr) && Spaced(s[1..], Reach(here, s[0])))
  }

  /** Every gap that opens from `here` on starts on a paragraph boundary. */
  predicate GapsAligned(s: seq<UMap>, here: nat) {
    s == [] || ((here < s[0].faddr ==> OnPara(here)) && GapsAligned(s[1..], Reach(here, s[0])))
  }

  /** From `here` on, each nonempty item starts exactly where those before it end. */
  predicate Tiled(s: seq<UMap>, here: nat) {
    s == [] || (if s[0].length == 0 then Tiled(s[1..], here)
                else s[0].faddr == here && Tiled(s[1..], End(s[0])))
  }

  /** How far the whole map reaches. */
  function Extent(s: seq<UMap>, here: nat): nat {
    if s == [] then here else Extent(s[1..], Reach(here, s[0]))
  }

  /** Where the last nonempty item ends. */
  function TileEnd(s: seq<UMap>, here: nat): nat {
    if s == [] then here
    else TileEnd(s[1..], if s[0].length == 0 then here else End(s[0]))
  }

  /** Real-mode items start within the first megabyte. */
  ghost predicate RealMode(s: seq<UMap>) {
    forall x :: x in s ==> x.faddr <= 0x100000
  }

  /** The original entries, without the inserted holes. */
  function Originals(s: seq<UMap>): seq<UMap> {
    if s == [] then []
    else if s[0].hole then Originals(s[1..])
    else [s[0]] + Originals(s[1..])
  }

  lemma {:induction false} SpacedFromDisjoint(s: seq<UMap>, here: nat)
    requires Ascending(s, 0) && Disjoint(s)
    requires forall x :: x in s && x.length > 0 ==> here <= x.faddr
    ensures Spaced(s, here)
  {
    if s != [] {
      forall x | x in s[1..] && x.length > 0 ensures Reach(here, s[0]) <= x.faddr {
        var k :| 0 <= k < |s[1..]| && s[1..][k] == x;
        assert s[k + 1] == x;
        assert Apart(s[0], s[k + 1]);
        assert s[0].faddr <= s[k + 1].faddr;
      }
      SpacedFromDisjoint(s[1..], Reach(here, s[0]));
    }
  }

  lemma LaterInGap(s: seq<UMap>, here: nat, later: nat)
    requires s != [] && here < later <= s[0].faddr && Spaced(s, here)
    ensures Spaced(s, later) && Extent(s, later) == Extent(s, here)
    ensures OnPara(here) && (later < s[0].faddr ==> OnPara(later)) ==>
      (GapsAligned(s, here) <==> GapsAligned(s, later))
  {
  }

  /** `find_holes` leaves no gap before the end of the map exactly when every gap it meets
      starts on a paragraph boundary; the filled map then ends where the old one did. */
  lemma {:induction false} FilledTiles(s: seq<UMap>, here: nat, find: HoleFinder, topDos: nat)
    requires Sensible(find) && Aligning(find) && Spaced(s, here) && RealMode(s)
    ensures Tiled(Filled(s, here, find, topDos), here) <==> GapsAligned(s, here)
    ensures GapsAligned(s, here) ==>
      TileEnd(Filled(s, here, find, topDos), here) == Extent(s, here)
    decreases |s|, Gap(s, here)
  {
    if s != [] {
      if here < s[0].faddr {
        var h := find(here, s[0].faddr);
        assert Bites(h, here, s[0].faddr) && Aligns(h, here, s[0].faddr);
        LaterInGap(s, here, here + h.length);
        FilledTiles(s, here + h.length, find, topDos);
        TiledCons(HoleItem(h, topDos), Filled(s, here + h.length, find, topDos), here);
      } else {
        FilledTiles(s[1..], Past(here, s[0]), find, topDos);
        TiledCons(s[0], Filled(s[1..], Past(here, s[0]), find, topDos), here);
      }
    }
  }

  lemma TiledCons(x: UMap, s: seq<UMap>, here: nat)
    ensures Tiled([x] + s, here) <==>
      if x.length == 0 then Tiled(s, here) else x.faddr == here && Tiled(s, End(x))
    ensures TileEnd([x] + s, here) == TileEnd(s, if x.length == 0 then here else End(x))
  {
    assert ([x] + s)[1..] == s;
  }

  /** Filling only adds entries: the others are kept, in order. */
  lemma {:induction false} FilledKeepsOriginals(s: seq<UMap>, here: nat, find: HoleFinder, topDos: nat)
    requires Sensible(find) && forall x :: x in s ==> !x.hole
    ensures Originals(Filled(s, here, find, topDos)) == s
    decreases |s|, Gap(s, here)
  {
    if s != [] {
      var f := Filled(s, here, find, topDos);
      if here < s[0].faddr {
        var h := find(here, s[0].faddr);
        FilledKeepsOriginals(s, here + h.length, find, topDos);
        assert f[1..] == Filled(s, here + h.length, find, topDos);
      } else {
        FilledKeepsOriginals(s[1..], Past(here, s[0]), find, topDos);
        assert f[1..] == Filled(s[1..], Past(here, s[0]), find, topDos);
        assert s == [s[0]] + s[1..];
      }
    }
  }

  /** Every entry added stands for a hole found, in layer 1 and without overlap marks; it counts as high
      when it lies above both 640K and the memory there is. */
  lemma {:induction false} FilledAddsHoles(s: seq<UMap>, here: nat, find: HoleFinder, memorySize: nat, x: UMap)
    requires Sensible(find) && x in Filled(s, here, find, TopDos(memorySize)) && x !in s
    ensures x.hole && x.layer == 1 && x.text == "" && !x.frag && !x.over
    ensures x.high <==> x.faddr >= 640 * 1024 && x.faddr >= memorySize * 1024
    ensures MemHole(x.name, x.cls, x.faddr, x.length) in Holes(s, here, find)
    decreases |s|, Gap(s, here)
  {
    var topDos := TopDos(memorySize);
    if here < s[0].faddr {
      var h := find(here, s[0].faddr);
      assert Bites(h, here, s[0].faddr);
      if x != HoleItem(h, topDos) {
        assert x in Filled(s, here + h.length, find, topDos);
        FilledAddsHoles(s, here + h.length, find, memorySize, x);
      }
    } else {
      assert x in Filled(s[1..], Past(here, s[0]), find, topDos);
      FilledAddsHoles(s[1..], Past(here, s[0]), find, memorySize, x);
    }
  }

  lemma {:induction false} HolesLieAhead(s: seq<UMap>, here: nat, find: HoleFinder)
    requires Sensible(find) && Aligning(find) && GapsAligned(s, here) && RealMode(s)
    ensures var hs := Holes(s, here, find); hs != [] ==> here <= hs[0].faddr
    decreases |s|, Gap(s, here)
  {
    if s != [] {
      if here < s[0].faddr {
        assert Bites(find(here, s[0].faddr), here, s[0].faddr) && Aligns(find(here, s[0].faddr), here, s[0].faddr);
      } else {
        HolesLieAhead(s[1..], Past(here, s[0]), find);
      }
    }
  }

  /** Replaying the recorded holes on the map they were found in rebuilds the filled map. */
  lemma {:induction false} ReplayRebuilds(s: seq<UMap>, here: nat, find: HoleFinder, topDos: nat)
    requires Sensible(find) && Aligning(find) && GapsAligned(s, here) && RealMode(s)
    ensures Replayed(s, Holes(s, here, find), topDos) == Filled(s, here, find, topDos)
    decreases |s|, Gap(s, here)
  {
    if s != [] {
      var hs := Holes(s, here, find);
      if here < s[0].faddr {
        var h := find(here, s[0].faddr);
        assert Bites(h, here, s[0].faddr) && Aligns(h, here, s[0].faddr);
        assert hs[1..] == Holes(s, here + h.length, find);
        ReplayRebuilds(s, here + h.length, find, topDos);
      } else {
        HolesLieAhead(s, here, find);
        ReplayRebuilds(s[1..], Past(here, s[0]), find, topDos);
        assert s == [s[0]] + s[1..];
      }
    }
  }

  /** No hole is recorded above the start of its gap. */
  ghost predicate Rounding(find: HoleFinder) {
    forall here: nat, next: nat :: here < next ==> find(here, next).faddr <= here
  }

  lemma ProbingRounds(testmem: Probe, noTest: bool)
    ensures Rounding(Finder(testmem, noTest))
  {
    var find := Finder(testmem, noTest);
    forall here: nat, next: nat | here < next ensures find(here, next).faddr <= here {
      assert here / 16 % 0x10000 <= here / 16;
      assert HoleAt(here, next, testmem, noTest).faddr == here / 16 % 0x10000 * 16;
    }
  }

  /** x is in its place ahead of the next hole, if one is recorded: the hole does not start below x. */
  predicate StaysAhead(x: UMap, holes: seq<MemHole>) {
    holes == [] || x.faddr <= holes[0].faddr
  }

  /** From `here` on, no item is passed that starts above the next hole recorded. */
  predicate InPlace(s: seq<UMap>, here: nat, find: HoleFinder)
    requires Sensible(find)
    decreases |s|, Gap(s, here)
  {
    if s == [] then true
    else if here < s[0].faddr then
      var h := find(here, s[0].faddr);
      assert Bites(h, here, s[0].faddr);
      InPlace(s, here + h.length, find)
    else
      StaysAhead(s[0], Holes(s[1..], Past(here, s[0]), find)) && InPlace(s[1..], Past(here, s[0]), find)
  }

  lemma ReplayHead(s: seq<UMap>, holes: seq<MemHole>, topDos: nat)
    requires s != []
    ensures holes != [] && holes[0].faddr < s[0].faddr ==>
      Replayed(s, holes, topDos) == [HoleItem(holes[0], topDos)] + Replayed(s, holes[1..], topDos)
    ensures StaysAhead(s[0], holes) ==> Replayed(s, holes, topDos) == [s[0]] + Replayed(s[1..], holes, topDos)
  {
    assert s == [s[0]] + s[1..];
  }

  lemma SameTails<T>(x: T, a: seq<T>, b: seq<T>)
    ensures [x] + a == [x] + b <==> a == b
  {
    assert ([x] + a)[1..] == a && ([x] + b)[1..] == b;
  }

  /** Replaying the recorded holes on the map they were found in rebuilds the filled map exactly when
      no item is passed that starts above the next hole. */
  lemma {:induction false} ReplayExactly(s: seq<UMap>, here: nat, find: HoleFinder, topDos: nat)
    requires Sensible(find) && Rounding(find) && forall x :: x in s ==> !x.hole
    ensures Replayed(s, Holes(s, here, find), topDos) == Filled(s, here, find, topDos) <==> InPlace(s, here, find)
    decreases |s|, Gap(s, here)
  {
    if s != [] {
      var hs := Holes(s, here, find);
      ReplayHead(s, hs, topDos);
      if here < s[0].faddr {
        var h := find(here, s[0].faddr);
        assert Bites(h, here, s[0].faddr) && h.faddr <= here;
        assert hs[1..] == Holes(s, here + h.length, find);
        ReplayExactly(s, here + h.length, find, topDos);
        SameTails(HoleItem(h, topDos), Replayed(s, hs[1..], topDos), Filled(s, here + h.length, find, topDos));
      } else {
        var rest := Filled(s[1..], Past(here, s[0]), find, topDos);
        ReplayExactly(s[1..], Past(here, s[0]), find, topDos);
        if StaysAhead(s[0], hs) {
          SameTails(s[0], Replayed(s[1..], hs, topDos), rest);
        } else {
          assert Replayed(s, hs, topDos)[0].hole && !([s[0]] + rest)[0].hole;
        }
      }
    }
  }

  /** A map in which neither holds, with the real way of probing: the gap after the second item does
      not start on a paragraph, and the hole recorded for it starts below that item. */
  lemma OffParagraphShows(s: seq<UMap>, testmem: Probe, noTest: bool, topDos: nat)
    requires Sound(testmem) && |s| == 3 && forall x :: x in s ==> !x.hole
    requires s[0].faddr == 0 && s[0].length == 17 && s[1].faddr == 17 && s[1].length == 5 && s[2].faddr == 64
    ensures Sensible(Finder(testmem, noTest))
    ensures var find := Finder(testmem, noTest); var filled := Filled(s, 0, find, topDos);
      !Tiled(filled, 0) && Replayed(s, Holes(s, 0, find), topDos) != filled
  {
    hide Filled, Tiled, Replayed, Sensible, Aligning, Rounding;
    var find := Finder(testmem, noTest);
    ProbingIsSensible(testmem, noTest);
    ProbingRounds(testmem, noTest);
    assert HoleAt(22, 64, testmem, noTest).faddr == 16;
    OffParagraphMap(s, find);
    FilledTiles(s, 0, find, topDos);
    ReplayExactly(s, 0, find, topDos);
  }

  lemma LastGap(u: seq<UMap>, here: nat)
    requires u != [] && u[1..] == [] && here < u[0].faddr && here % 16 != 0
    ensures Spaced(u, here) && !GapsAligned(u, here)
  {
    assert Spaced(u[1..], End(u[0]));
  }

  lemma OffParagraphMap(s: seq<UMap>, find: HoleFinder)
    requires Sensible(find) && |s| == 3 && find(22, 64).faddr == 16
    requires s[0].faddr == 0 && s[0].length == 17 && s[1].faddr == 17 && s[1].length == 5 && s[2].faddr == 64
    ensures Spaced(s, 0) && RealMode(s) && !GapsAligned(s, 0) && !InPlace(s, 0, find)
  {
    var t, u := s[1..], s[2..];
    assert t[1..] == u && u[1..] == [];
    assert u[0] == s[2];
    LastGap(u, 22);
    assert Spaced(t, 17) && !GapsAligned(t, 17);
    assert Bites(find(22, 64), 22, 64);
    assert Holes(u, 22, find) != [];
    assert Holes(u, 22, find)[0] == find(22, 64);
    assert Past(17, t[0]) == 22 && !StaysAhead(t[0], Holes(t[1..], 22, find));
    assert !InPlace(t, 17, find);
    assert Past(0, s[0]) == 17 && !InPlace(s[1..], 17, find);
  }

  // ----- the operations on the list -----

  function TopDos(memorySize: nat): nat {
    if memorySize * 1024 < 0xA0000 then 0xA0000 else memorySize * 1024
  }

  lemma StepOver(s: seq<UMap>, before: seq<UMap>, rest: seq<UMap>)
    requires s == before + rest && rest != []
    ensures s[|before|] == rest[0]
    ensures s == before + [rest[0]] + rest[1..]
  {
  }

  lemma InsertAt(s: seq<UMap>, before: seq<UMap>, rest: seq<UMap>, x: UMap)
    requires s == before + rest
    ensures s[..|before|] + [x] + s[|before|..] == before + [x] + rest
  {
  }

  lemma Reassociate<T>(a: seq<T>, x: T, b: seq<T>)
    ensures (a + [x]) + b == a + ([x] + b)
  {
  }

  /** `Filled`, with what has been filled so far. */
  ghost function FillOn(done: seq<UMap>, rest: seq<UMap>, here: nat, find: HoleFinder, topDos: nat): seq<UMap>
    requires Sensible(find)
    decreases |rest|, Gap(rest, here)
  {
    if rest == [] then done
    else if here < rest[0].faddr then
      var h := find(here, rest[0].faddr);
      assert Bites(h, here, rest[0].faddr);
      FillOn(done + [HoleItem(h, topDos)], rest, here + h.length, find, topDos)
    else FillOn(done + [rest[0]], rest[1..], Past(here, rest[0]), find, topDos)
  }

  ghost function HolesOn(done: seq<MemHole>, rest: seq<UMap>, here: nat, find: HoleFinder): seq<MemHole>
    requires Sensible(find)
    decreases |rest|, Gap(rest, here)
  {
    if rest == [] then done
    else if here < rest[0].faddr then
      var h := find(here, rest[0].faddr);
      assert Bites(h, here, rest[0].faddr);
      HolesOn(done + [h], rest, here + h.length, find)
    else HolesOn(done, rest[1..], Past(here, rest[0]), find)
  }

  /** One turn of the loop: a hole is put in front of the next item, or the item is passed. */
  lemma FillStep(done: seq<UMap>, holes: seq<MemHole>, rest: seq<UMap>, here: nat, find: HoleFinder, topDos: nat)
    requires Sensible(find) && rest != []
    ensures here < rest[0].faddr ==>
      var h := find(here, rest[0].faddr);
      && FillOn(done, rest, here, find, topDos) == FillOn(done + [HoleItem(h, topDos)], rest, here + h.length, find, topDos)
      && HolesOn(holes, rest, here, find) == HolesOn(holes + [h], rest, here + h.length, find)
      && Gap(rest, here + h.length) < Gap(rest, here)
    ensures here >= rest[0].faddr ==>
      && FillOn(done, rest, here, find, topDos) == FillOn(done + [rest[0]], rest[1..], Past(here, rest[0]), find, topDos)
      && HolesOn(holes, rest, here, find) == HolesOn(holes, rest[1..], Past(here, rest[0]), find)
  {
    if here < rest[0].faddr {
      assert Bites(find(here, rest[0].faddr), here, rest[0].faddr);
    }
  }

  lemma FillEnds(find: HoleFinder, topDos: nat)
    requires Sensible(find)
    ensures forall done, here: nat {:trigger FillOn(done, [], here, find, topDos)} :: FillOn(done, [], here, find, topDos) == done
    ensures forall holes, here: nat {:trigger HolesOn(holes, [], here, find)} :: HolesOn(holes, [], here, find) == holes
  {
  }

  lemma {:induction false} FillOnIsFilled(done: seq<UMap>, rest: seq<UMap>, here: nat, find: HoleFinder, topDos: nat)
    requires Sensible(find)
    ensures FillOn(done, rest, here, find, topDos) == done + Filled(rest, here, find, topDos)
    decreases |rest|, Gap(rest, here)
  {
    if rest != [] {
      if here < rest[0].faddr {
        var h := find(here, rest[0].faddr);
        assert Bites(h, here, rest[0].faddr);
        FillOnIsFilled(done + [HoleItem(h, topDos)], rest, here + h.length, find, topDos);
        Reassociate(done, HoleItem(h, topDos), Filled(rest, here + h.length, find, topDos));
      } else {
        FillOnIsFilled(done + [rest[0]], rest[1..], Past(here, rest[0]), find, topDos);
        Reassociate(done, rest[0], Filled(rest[1..], Past(here, rest[0]), find, topDos));
      }
    }
  }

  lemma {:induction false} HolesOnIsHoles(done: seq<MemHole>, rest: seq<UMap>, here: nat, find: HoleFinder)
    requires Sensible(find)
    ensures HolesOn(done, rest, here, find) == done + Holes(rest, here, find)
    decreases |rest|, Gap(rest, here)
  {
    if rest != [] {
      if here < rest[0].faddr {
        var h := find(here, rest[0].faddr);
        assert Bites(h, here, rest[0].faddr);
        HolesOnIsHoles(done + [h], rest, here + h.length, find);
        Reassociate(done, h, Holes(rest, here + h.length, find));
      } else {
        HolesOnIsHoles(done, rest[1..], Past(here, rest[0]), find);
      }
    }
  }

  /** The loop of `find_holes`, for any sensible way of probing a gap. */
  method FillGaps(umlist: UMapList, find: HoleFinder, topDos: nat) returns (hlist: seq<MemHole>)
    requires Sensible(find)
    modifies umlist
    ensures umlist.items == FillOn([], old(umlist.items), 0, find, topDos)
    ensures hlist == HolesOn([], old(umlist.items), 0, find)
  {
    hide Holes, Filled, FillOn, HolesOn, Sensible, HoleItem;
    ghost var s0 := umlist.items;
    hlist := [];
    FillEnds(find, topDos);
    var here: nat := 0;
    var k := 0;
    ghost var before, rest := [], s0;
    while k < |umlist.items|
      invariant umlist.items == before + rest && k == |before|
      invariant FillOn(before, rest, here, find, topDos) == FillOn([], s0, 0, find, topDos)
      invariant HolesOn(hlist, rest, here, find) == HolesOn([], s0, 0, find)
      decreases |rest|, Gap(rest, here)
    {
      StepOver(umlist.items, before, rest);
      var x := umlist.items[k];
      FillStep(before, hlist, rest, here, find, topDos);
      if here < x.faddr {
        var hole := find(here, x.faddr);
        InsertAt(umlist.items, before, rest, HoleItem(hole, topDos));
        umlist.items := umlist.items[..k] + [HoleItem(hole, topDos)] + umlist.items[k..];
        before := before + [HoleItem(hole, topDos)];
        hlist := hlist + [hole];
        here := here + hole.length;
      } else {
        before, rest := before + [x], rest[1..];
        if here == x.faddr {
          here := here + x.length;
        }
      }
      k := k + 1;
    }
  }

  method FindHoles(umlist: UMapList, testmem: Probe, noTest: bool, memorySize: nat) returns (hmap: seq<MemHole>)
    requires Sound(testmem)
    modifies umlist
    ensures umlist.items == Filled(old(umlist.items), 0, Finder(testmem, noTest), TopDos(memorySize))
    ensures hmap == Holes(old(umlist.items), 0, Finder(testmem, noTest))
  {
    ProbingIsSensible(testmem, noTest);
    FillOnIsFilled([], umlist.items, 0, Finder(testmem, noTest), TopDos(memorySize));
    HolesOnIsHoles([], umlist.items, 0, Finder(testmem, noTest));
    hmap := FillGaps(umlist, Finder(testmem, noTest), TopDos(memorySize));
  }

  /** `Replayed`, with what has been rebuilt so far. */
  ghost function ReplayOn(done: seq<UMap>, rest: seq<UMap>, holes: seq<MemHole>, topDos: nat): seq<UMap>
    decreases |rest| + |holes|
  {
    if rest == [] || holes == [] then done + rest
    else if holes[0].faddr < rest[0].faddr then
      ReplayOn(done + [HoleItem(holes[0], topDos)], rest, holes[1..], topDos)
    else ReplayOn(done + [rest[0]], rest[1..], holes, topDos)
  }

  lemma {:induction false} ReplayOnIsReplayed(done: seq<UMap>, rest: seq<UMap>, holes: seq<MemHole>, topDos: nat)
    ensures ReplayOn(done, rest, holes, topDos) == done + Replayed(rest, holes, topDos)
    decreases |rest| + |holes|
  {
    if rest != [] && holes != [] {
      if holes[0].faddr < rest[0].faddr {
        ReplayOnIsReplayed(done + [HoleItem(holes[0], topDos)], rest, holes[1..], topDos);
      } else {
        ReplayOnIsReplayed(done + [rest[0]], rest[1..], holes, topDos);
      }
    }
  }

  method ReplayHoles(umlist: UMapList, hmap: seq<MemHole>, memorySize: nat)
    modifies umlist
    ensures umlist.items == Replayed(old(umlist.items), hmap, TopDos(memorySize))
  {
    if hmap == [] { return; }
    ghost var s0 := umlist.items;
    var topDos := TopDos(memorySize);
    ReplayOnIsReplayed([], s0, hmap, topDos);
    var hp := 0;
    var k := 0;
    ghost var before, rest := [], s0;
    while k < |umlist.items|
      invariant umlist.items == before + rest && k == |before| && hp < |hmap|
      invariant ReplayOn(before, rest, hmap[hp..], topDos) == ReplayOn([], s0, hmap, topDos)
      decreases |rest| + |hmap| - hp
    {
      StepOver(umlist.items, before, rest);
      if hmap[hp].faddr < umlist.items[k].faddr {
        InsertAt(umlist.items, before, rest, HoleItem(hmap[hp], topDos));
        umlist.items := umlist.items[..k] + [HoleItem(hmap[hp], topDos)] + umlist.items[k..];
        before := before + [HoleItem(hmap[hp], topDos)];
        hp := hp + 1;
        if hp >= |hmap| {
          return;
        }
      } else {
        before, rest := before + [rest[0]], rest[1..];
      }
      k := k + 1;
    }
  }
}
