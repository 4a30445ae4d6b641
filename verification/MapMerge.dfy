/** The clean-up after overlap resolution (ASQENG/MAPINFO.C): `map_zeroes` removes empty
    fragments. */
module MapMerge {
  import opened MapFix
  import opened Seqs
  import opened UMaps

  function TotalLength(s: seq<UMap>): nat {
    if s == [] then 0 else s[0].length + TotalLength(s[1..])
  }

  lemma {:induction false} TotalLengthUpdate(s: seq<UMap>, k: nat, x: UMap)
    requires k < |s|
    ensures TotalLength(s[k := x]) == TotalLength(s) - s[k].length + x.length
  {
    if k == 0 {
      assert s[0 := x][1..] == s[1..];
    } else {
      assert s[k := x][1..] == s[1..][k - 1 := x];
      TotalLengthUpdate(s[1..], k - 1, x);
    }
  }

  lemma {:induction false} TotalLengthWithout(s: seq<UMap>, k: nat)
    requires k < |s|
    ensures TotalLength(Without(s, k)) == TotalLength(s) - s[k].length
  {
    if k == 0 {
      assert Without(s, 0) == s[1..];
    } else {
      assert Without(s, k)[1..] == Without(s[1..], k - 1);
      TotalLengthWithout(s[1..], k - 1);
    }
  }

  ghost predicate Covered(s: seq<UMap>, a: nat) {
    exists k :: 0 <= k < |s| && Covers(s[k], a)
  }

  // ----- empty fragments -----

  predicate EmptyFragment(x: UMap) {
    x.frag && x.length == 0
  }

  /** The items that are not empty fragments, in order. */
  function Kept(s: seq<UMap>): seq<UMap> {
    if s == [] then [] else (if EmptyFragment(s[0]) then [] else [s[0]]) + Kept(s[1..])
  }

  lemma {:induction false} KeptItems(s: seq<UMap>, x: UMap)
    ensures x in Kept(s) <==> x in s && !EmptyFragment(x)
  {
    if s != [] {
      assert s == [s[0]] + s[1..];
      KeptItems(s[1..], x);
    }
  }

  /** What is kept: all that has a length, and the empty items that no cut has made. */
  lemma KeptExactly(s: seq<UMap>, x: UMap)
    ensures x in Kept(s) <==> x in s && (x.length > 0 || !x.frag)
  {
    KeptItems(s, x);
  }

  lemma {:induction false} KeptLength(s: seq<UMap>)
    ensures TotalLength(Kept(s)) == TotalLength(s)
  {
    if s != [] {
      var t := Kept(s[1..]);
      KeptLength(s[1..]);
      assert ([s[0]] + t)[1..] == t && [] + t == t;
    }
  }

  /** x may stand before y in a sorted, disjoint map. */
  predicate Precedes(x: UMap, y: UMap) {
    x.faddr <= y.faddr && Apart(x, y)
  }

  ghost predicate Orderly(s: seq<UMap>) {
    forall j, k :: 0 <= j < k < |s| ==> Precedes(s[j], s[k])
  }

  lemma OrderlyMeans(s: seq<UMap>)
    ensures Orderly(s) <==> Ascending(s, 0) && Disjoint(s)
  {
    if Ascending(s, 0) && Disjoint(s) {
      forall j, k | 0 <= j < k < |s| ensures Precedes(s[j], s[k]) {
        assert Apart(s[j], s[k]) && s[j].faddr <= s[k].faddr;
      }
    }
    if Orderly(s) {
      forall j, k | 0 <= j <= k < |s| ensures s[j].faddr <= s[k].faddr && (j < k ==> Apart(s[j], s[k])) {
        assert j < k ==> Precedes(s[j], s[k]);
      }
    }
  }

  /** What is left stays sorted and disjoint. */
  lemma {:induction false} KeptKeepsOrder(s: seq<UMap>)
    requires Orderly(s)
    ensures Orderly(Kept(s))
  {
    if s != [] {
      var rest := s[1..];
      assert forall k {:trigger rest[k]} :: 0 <= k < |rest| ==> rest[k] == s[k + 1];
      KeptKeepsOrder(rest);
      var t := Kept(rest);
      if EmptyFragment(s[0]) {
        assert [] + t == t;
      } else {
        forall k | 0 <= k < |t| ensures Precedes(s[0], t[k]) {
          KeptItems(rest, t[k]);
          var m :| 0 <= m < |rest| && rest[m] == t[k];
          assert s[m + 1] == t[k];
        }
        assert forall k {:trigger Kept(s)[k]} :: 0 < k < |Kept(s)| ==> Kept(s)[k] == t[k - 1];
      }
    }
  }

  /** `map_zeroes` */
  method MapZeroes(umlist: UMapList)
    modifies umlist
    ensures umlist.items == Kept(old(umlist.items))
  {
    ghost var want := Kept(umlist.items);
    var k := 0;
    while k < |umlist.items|
      invariant k <= |umlist.items|
      invariant umlist.items[..k] + Kept(umlist.items[k..]) == want
      decreases |umlist.items| - k
    {
      ghost var s := umlist.items;
      assert s[k..][1..] == s[k + 1..];
      if EmptyFragment(umlist.items[k]) {
        umlist.items := umlist.items[..k] + umlist.items[k + 1..];
        assert umlist.items[k..] == s[k + 1..] && umlist.items[..k] == s[..k];
      } else {
        assert s[..k + 1] + Kept(s[k + 1..]) == s[..k] + ([s[k]] + Kept(s[k + 1..]));
        k := k + 1;
      }
    }
    assert umlist.items[k..] == [];
  }
}
