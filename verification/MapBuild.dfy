/** The order in which `make_umap` works on the collected ranges (ASQENG/MAPINFO.C): sort, resolve
    overlaps, sort again, clean up, fill the gaps. */
module MapBuild {
  import opened MapFix
  import opened MapHoles
  import opened MapMarks
  import opened MapMerge
  import opened MapOverlap
  import opened MapShort
  import opened Seqs
  import opened UMaps

  ghost predicate Within(s: seq<UMap>, b: nat) {
    forall x :: x in s ==> End(x) <= b
  }

  /** Dropping empty fragments does not change what is painted. */
  lemma KeptPaints(s: seq<UMap>)
    ensures SameSkyline(s, Kept(s)) && PiecesOf(Kept(s), s)
  {
    var t := Kept(s);
    forall x ensures x in t <==> x in s && !EmptyFragment(x) {
      KeptItems(s, x);
    }
    forall x | x in t ensures exists y :: y in s && PartOf(x, y) {
      assert PartOf(x, x);
    }
    forall a: nat, layer: int ensures Reaches(s, a, layer) <==> Reaches(t, a, layer) {
      if Reaches(s, a, layer) {
        var x :| x in s && Covers(x, a) && layer <= x.layer;
        assert x in t;
      }
    }
  }

  lemma SkylineComposes(s: seq<UMap>, t: seq<UMap>, u: seq<UMap>)
    requires SameSkyline(s, t) && SameSkyline(t, u)
    ensures SameSkyline(s, u)
  {
    forall a: nat, layer: int ensures Reaches(s, a, layer) <==> Reaches(u, a, layer) {
      assert Reaches(s, a, layer) <==> Reaches(t, a, layer);
    }
  }

  /** Two rearrangements are disjoint together. */
  lemma {:induction false} PermutedDisjoint(s: seq<UMap>, t: seq<UMap>)
    requires multiset(s) == multiset(t) && Disjoint(s)
    ensures Disjoint(t)
    decreases |t|
  {
    if t == [] {
    } else {
      var k := TakeOut(t, s);
      var rest := Without(s, k);
      assert forall j {:trigger rest[j]} :: 0 <= j < |rest| ==> rest[j] == s[if j < k then j else j + 1];
      forall i, j | 0 <= i < j < |rest| ensures Apart(rest[i], rest[j]) {
        assert Apart(s[if i < k then i else i + 1], s[if j < k then j else j + 1]);
      }
      PermutedDisjoint(rest, t[1..]);
      forall j | 0 < j < |t| ensures Apart(t[0], t[j]) {
        assert t[j] in multiset(t[1..]) by {
          assert t[1..][j - 1] == t[j];
        }
        assert t[j] in rest;
        var m :| 0 <= m < |rest| && rest[m] == t[j];
        var n := if m < k then m else m + 1;
        assert Apart(s[if n < k then n else k], s[if n < k then k else n]);
      }
      forall i, j | 0 <= i < j < |t| ensures Apart(t[i], t[j]) {
        if i > 0 {
          assert Apart(t[1..][i - 1], t[1..][j - 1]);
        }
      }
    }
  }

  /** Items that no other beats are still there. */
  ghost predicate Undisturbed(s: seq<UMap>, t: seq<UMap>) {
    forall k: nat :: k < |s| && Unbeaten(s, k) && (s[k].length > 0 || !s[k].frag) ==>
      exists x :: x in t && x == s[k].(over := x.over)
  }

  lemma KeptIntact(s: seq<UMap>)
    ensures Intact(Kept(s), s)
  {
    forall x | x in Kept(s) && !x.frag ensures exists y :: y in s && x == y.(over := x.over) {
      KeptItems(s, x);
      assert x == x.(over := x.over);
    }
  }

  lemma KeptUndisturbed(s0: seq<UMap>, s: seq<UMap>)
    requires Stays(s0, s)
    ensures Undisturbed(s0, Kept(s))
  {
    var t := Kept(s);
    forall k: nat | k < |s0| && Unbeaten(s0, k) && (s0[k].length > 0 || !s0[k].frag)
      ensures exists x :: x in t && x == s0[k].(over := x.over)
    {
      var m: nat :| StandsAt(s, s0[k], m);
      KeptItems(s, s[m]);
      assert s[m] in t && s[m] == s0[k].(over := s[m].over);
    }
  }

  /** An empty item that is left is one of the input, start and owner unchanged; what the cuts have
      emptied is gone. */
  lemma EmptiesWereThere(s: seq<UMap>, t: seq<UMap>, x: UMap)
    requires Intact(t, s) && x in t && x.length == 0 && !x.frag
    ensures exists y :: y in s && y.length == 0 && y.faddr == x.faddr && SameOwner(x, y)
  {
    var y :| y in s && x == y.(over := x.over);
  }

  /** The ranges after overlap resolution, sorted, without empty fragments: the same painting; what
      is not marked as a fragment is an input item, and what no other item beats is still there. */
  method Settle(umlist: UMapList)
    modifies umlist
    ensures Orderly(umlist.items)
    ensures SameSkyline(old(umlist.items), umlist.items) && PiecesOf(umlist.items, old(umlist.items))
    ensures forall x :: x in umlist.items ==> x.length > 0 || !x.frag
    ensures Intact(umlist.items, old(umlist.items)) && Undisturbed(old(umlist.items), umlist.items)
    ensures forall x :: x in umlist.items && x.length == 0 ==>
      exists y :: y in old(umlist.items) && y.length == 0 && y.faddr == x.faddr && SameOwner(x, y)
  {
    hide SameSkyline, PiecesOf, Intact, Stays, Undisturbed, Ordered, Disjoint, Ascending;
    ghost var s0 := umlist.items;
    umlist.GlistSort();
    ghost var s1 := umlist.items;
    umlist.FixOverlap();
    ghost var s2 := umlist.items;
    umlist.GlistSort();
    ghost var s3 := umlist.items;
    SortFixSort(s0, s1, s2, s3);
    OrderedIsAscending(s3);
    PermutedDisjoint(s2, s3);
    OrderlyMeans(s3);
    MapZeroes(umlist);
    KeptKeepsOrder(s3);
    KeptPaints(s3);
    KeptIntact(s3);
    KeptUndisturbed(s0, s3);
    SkylineComposes(s0, s3, umlist.items);
    PiecesCompose(umlist.items, s3, s0);
    IntactComposes(umlist.items, s3, s0);
    forall x | x in umlist.items ensures x.length > 0 || !x.frag {
      KeptItems(s3, x);
    }
    forall x | x in umlist.items && x.length == 0
      ensures exists y :: y in s0 && y.length == 0 && y.faddr == x.faddr && SameOwner(x, y)
    {
      EmptiesWereThere(s0, umlist.items, x);
    }
  }

  lemma SortFixSort(s0: seq<UMap>, s1: seq<UMap>, s2: seq<UMap>, s3: seq<UMap>)
    requires multiset(s0) == multiset(s1) && multiset(s2) == multiset(s3)
    requires SameSkyline(s1, s2) && PiecesOf(s2, s1) && Intact(s2, s1) && Stays(s1, s2)
    ensures SameSkyline(s0, s3) && PiecesOf(s3, s0) && Intact(s3, s0) && Stays(s0, s3)
  {
    hide SameSkyline, PiecesOf, Intact, Stays;
    PermutedKeeps(s0, s1);
    PermutedKeeps(s1, s0);
    PermutedIntact(s0, s1);
    PermutedStays(s0, s1);
    SkylineComposes(s0, s1, s2);
    PiecesCompose(s2, s1, s0);
    IntactComposes(s2, s1, s0);
    StaysCompose(s0, s1, s2);
    PermutedKeeps(s2, s3);
    PermutedKeeps(s3, s2);
    PermutedIntact(s2, s3);
    PermutedStays(s2, s3);
    SkylineComposes(s0, s2, s3);
    PiecesCompose(s3, s2, s0);
    IntactComposes(s3, s2, s0);
    StaysCompose(s0, s2, s3);
  }

  lemma OrderlyIsSpaced(s: seq<UMap>)
    requires Orderly(s)
    ensures Spaced(s, 0)
  {
    OrderlyMeans(s);
    SpacedFromDisjoint(s, 0);
  }

  lemma PiecesWithin(s: seq<UMap>, t: seq<UMap>, b: nat)
    requires PiecesOf(s, t) && Within(t, b)
    ensures Below(s, b)
  {
    forall k: nat | k < |s| ensures End(s[k]) <= b {
      assert s[k] in s;
      var y :| y in t && PartOf(s[k], y);
    }
  }

  lemma BelowIsReal(s: seq<UMap>)
    requires Below(s, 0x100000)
    ensures RealMode(s)
  {
  }

  /** Real-mode maps are finished as one would hope. */
  lemma Finishes(merged: seq<UMap>, testmem: Probe, noTest: bool, topDos: nat)
    requires Sound(testmem) && Orderly(merged) && Below(merged, 0x100000)
    ensures Sensible(Finder(testmem, noTest))
    ensures Tiled(Filled(merged, 0, Finder(testmem, noTest), topDos), 0) <==> GapsAligned(merged, 0)
    ensures GapsAligned(merged, 0) ==>
      Replayed(merged, Holes(merged, 0, Finder(testmem, noTest)), topDos)
        == Filled(merged, 0, Finder(testmem, noTest), topDos)
  {
    hide Filled, Tiled, GapsAligned, Replayed, Holes, Spaced, RealMode, Below;
    BelowIsReal(merged);
    OrderlyIsSpaced(merged);
    ProbingIsSensible(testmem, noTest);
    FilledTiles(merged, 0, Finder(testmem, noTest), topDos);
    if GapsAligned(merged, 0) {
      ReplayRebuilds(merged, 0, Finder(testmem, noTest), topDos);
    }
  }

  /** The recorded holes rebuild the map exactly when the items stay in place. */
  lemma Replays(s0: seq<UMap>, settled: seq<UMap>, dev: nat, dataEnd: nat, testmem: Probe, noTest: bool, topDos: nat)
    requires Sound(testmem) && PiecesOf(settled, s0) && NoHoles(s0)
    ensures Sensible(Finder(testmem, noTest))
    ensures var merged := Merged(settled, 0, -1, dev, dataEnd).items;
      var find := Finder(testmem, noTest);
      var same := Replayed(merged, Holes(merged, 0, find), topDos) == Filled(merged, 0, find, topDos);
      same <==> InPlace(merged, 0, find)
  {
    hide Merged, Replayed, Holes, Filled, InPlace, Sensible, Rounding;
    forall x | x in settled ensures !x.hole {
      var y :| y in s0 && PartOf(x, y);
    }
    MergedNoHoles(settled, 0, -1, dev, dataEnd);
    ProbingIsSensible(testmem, noTest);
    ProbingRounds(testmem, noTest);
    ReplayExactly(Merged(settled, 0, -1, dev, dataEnd).items, 0, Finder(testmem, noTest), topDos);
  }

  /** The last part of `make_umap`.  The settled ranges paint what the input painted, each address
      in its top layer.  Merging goes wrong, and changes the addresses covered, exactly under the
      conditions on the settled ranges that `map_shortitems` has; if neither, and in the first
      megabyte, the finished map tiles memory from 0 to its end exactly when every gap starts on a
      paragraph.  The recorded holes rebuild the finished map from the merged ranges exactly when no
      item is passed that starts above the next hole, and always when every gap is so aligned. */
  method BuildMap(umlist: UMapList, testmem: Probe, noTest: bool, memorySize: nat, dev: nat, dataEnd: nat)
    returns (ok: bool, hmap: seq<MemHole>, ghost settled: seq<UMap>, ghost merged: seq<UMap>)
    requires Sound(testmem)
    modifies umlist
    ensures Sensible(Finder(testmem, noTest))
    ensures Orderly(settled) && SameSkyline(old(umlist.items), settled) && PiecesOf(settled, old(umlist.items))
    ensures Intact(settled, old(umlist.items)) && Undisturbed(old(umlist.items), settled)
    ensures forall x :: x in settled ==> x.length > 0 || !x.frag
    ensures Outcome(ok, merged) == Merged(settled, 0, -1, dev, dataEnd) && TotalLength(merged) == TotalLength(settled)
    ensures ok ==>
      && umlist.items == Filled(merged, 0, Finder(testmem, noTest), TopDos(memorySize))
      && hmap == Holes(merged, 0, Finder(testmem, noTest))
    ensures ok && NoHoles(old(umlist.items)) ==>
      (Replayed(merged, hmap, TopDos(memorySize)) == umlist.items <==> InPlace(merged, 0, Finder(testmem, noTest)))
    ensures Within(old(umlist.items), 0xFFFF_FFE0) ==>
      && (!ok <==> Stuck(settled, 0, dev, dataEnd))
      && (SameCover(settled, merged) <==> Joins(settled, 0, dev, dataEnd))
    ensures ok && Within(old(umlist.items), 0x100000) && Joins(settled, 0, dev, dataEnd) ==>
      && (Tiled(umlist.items, 0) <==> GapsAligned(merged, 0))
      && (GapsAligned(merged, 0) ==> Replayed(merged, hmap, TopDos(memorySize)) == umlist.items)
  {
    hide Orderly, SameSkyline, PiecesOf, Intact, Undisturbed, TotalLength, SameCover, Joins, Stuck, Merged, Below, Tidy;
    hide Filled, Tiled, GapsAligned, Replayed, Holes, InPlace, Within, NoHoles;
    ProbingIsSensible(testmem, noTest);
    ghost var s0 := umlist.items;
    Settle(umlist);
    settled := umlist.items;
    ok := MapShortItems(umlist, dev, dataEnd);
    merged := umlist.items;
    if Within(s0, 0xFFFF_FFE0) {
      PiecesWithin(settled, s0, 0xFFFF_FFE0);
    }
    hmap := [];
    if ok {
      hmap := FindHoles(umlist, testmem, noTest, memorySize);
      if NoHoles(s0) {
        Replays(s0, settled, dev, dataEnd, testmem, noTest, TopDos(memorySize));
      }
      if Within(s0, 0x100000) && Joins(settled, 0, dev, dataEnd) {
        PiecesWithin(settled, s0, 0x100000);
        Finishes(merged, testmem, noTest, TopDos(memorySize));
      }
    }
  }
}
