/** Overlap resolution in the unified memory map (ASQENG/MAPINFO.C).

    The map is a list of address ranges in layers.  `fix_overlap` lets an item of a higher
    layer hide the part of every lower item that it covers: a painter's algorithm in which
    the lower item is deleted, trimmed at one end, or split in two. */
module UMaps {
  import opened CText

  /** One UMAP entry.  The segmented address `saddr` always follows `faddr` and is not kept. */
  datatype UMap = UMap(
    name: string, text: string, cls: nat, layer: int,
    faddr: nat, length: nat,
    high: bool, frag: bool, over: bool, hole: bool)

  function End(x: UMap): nat {
    x.faddr + x.length
  }

  predicate Covers(x: UMap, a: nat) {
    x.faddr <= a < End(x)
  }

  /** x and y describe the same owner: only position, size and overlap marks may differ. */
  predicate SameOwner(x: UMap, y: UMap) {
    x.name == y.name && x.text == y.text && x.cls == y.cls && x.layer == y.layer
    && x.high == y.high && x.hole == y.hole
  }

  /** x is a piece of y. */
  predicate PartOf(x: UMap, y: UMap) {
    SameOwner(x, y) && y.faddr <= x.faddr && End(x) <= End(y)
  }

  /** The comparison the map is sorted with. */
  function UmCmp(x: UMap, y: UMap): int {
    if x.faddr < y.faddr then -1
    else if x.faddr > y.faddr then 1
    else if x.layer < y.layer then -1
    else if x.layer > y.layer then 1
    else if x.length < y.length then 1
    else if x.length > y.length then -1
    else StrICmp(x.name, y.name)
  }

  /** Every item compares as not after every later one. */
  ghost predicate Ordered(s: seq<UMap>) {
    forall j, k :: 0 <= j < k < |s| ==> UmCmp(s[j], s[k]) <= 0
  }

  /** From index i on, start addresses do not decrease. */
  ghost predicate Ascending(s: seq<UMap>, i: nat) {
    forall j, k :: i <= j <= k < |s| ==> s[j].faddr <= s[k].faddr
  }

  predicate Apart(x: UMap, y: UMap) {
    x.length == 0 || y.length == 0 || End(x) <= y.faddr || End(y) <= x.faddr
  }

  /** Items of positive length are pairwise disjoint. */
  ghost predicate Disjoint(s: seq<UMap>) {
    forall j, k :: 0 <= j < k < |s| ==> Apart(s[j], s[k])
  }

  lemma {:induction false} AscendingFromNeighbours(s: seq<UMap>, i: nat)
    requires forall k :: i < k < |s| ==> s[k - 1].faddr <= s[k].faddr
    ensures Ascending(s, i)
    decreases |s| - i
  {
    if i < |s| {
      AscendingFromNeighbours(s, i + 1);
      forall j, k | i <= j <= k < |s| ensures s[j].faddr <= s[k].faddr {
        if j == i < k {
          assert s[i + 1 - 1].faddr <= s[i + 1].faddr;
        }
      }
    }
  }

  // ----- sorting -----

  function Insert(x: UMap, s: seq<UMap>): (r: seq<UMap>)
    ensures multiset(r) == multiset(s) + multiset{x}
  {
    if s == [] then [x]
    else if UmCmp(x, s[0]) <= 0 then
      var r := [x] + s;
      assert r[1..] == s;
      r
    else
      var r := [s[0]] + Insert(x, s[1..]);
      assert s == [s[0]] + s[1..];
      r
  }

  function Sort(s: seq<UMap>): (r: seq<UMap>)
    ensures multiset(r) == multiset(s)
  {
    if s == [] then []
    else
      assert s == [s[0]] + s[1..];
      Insert(s[0], Sort(s[1..]))
  }

  /** The comparison decides any two items and is consistent over three: starts, then layers, then
      lengths the other way round, then names with case ignored. */
  lemma UmCmpIsOrder(x: UMap, y: UMap, z: UMap)
    ensures UmCmp(x, y) > 0 <==> UmCmp(y, x) < 0
    ensures UmCmp(x, y) <= 0 && UmCmp(y, z) <= 0 ==> UmCmp(x, z) <= 0
  {
    StrICmpFlips(x.name, y.name);
    if StrICmp(x.name, y.name) <= 0 && StrICmp(y.name, z.name) <= 0 {
      StrICmpTransitive(x.name, y.name, z.name);
    }
  }

  lemma InsertFront(x: UMap, s: seq<UMap>)
    requires Ordered(s) && s != [] && UmCmp(x, s[0]) <= 0
    ensures Ordered([x] + s)
  {
    hide UmCmp;
    var r := [x] + s;
    forall j, k | 0 <= j < k < |r| ensures UmCmp(r[j], r[k]) <= 0 {
      if j > 0 {
        assert UmCmp(s[j - 1], s[k - 1]) <= 0;
      } else if k > 1 {
        assert UmCmp(s[0], s[k - 1]) <= 0;
        UmCmpIsOrder(x, s[0], s[k - 1]);
      }
    }
  }

  lemma InsertBehind(x: UMap, s: seq<UMap>, t: seq<UMap>)
    requires Ordered(s) && s != [] && UmCmp(s[0], x) <= 0
    requires Ordered(t) && multiset(t) == multiset(s[1..]) + multiset{x}
    ensures Ordered([s[0]] + t)
  {
    hide UmCmp;
    var r := [s[0]] + t;
    forall j, k | 0 <= j < k < |r| ensures UmCmp(r[j], r[k]) <= 0 {
      if j > 0 {
        assert UmCmp(t[j - 1], t[k - 1]) <= 0;
      } else if t[k - 1] != x {
        assert t[k - 1] in multiset(t) && t[k - 1] in s[1..];
        var m :| 0 <= m < |s[1..]| && s[1..][m] == t[k - 1];
        assert UmCmp(s[0], s[m + 1]) <= 0;
      }
    }
  }

  lemma {:induction false} InsertKeepsOrder(x: UMap, s: seq<UMap>)
    requires Ordered(s)
    ensures Ordered(Insert(x, s))
  {
    hide Ordered, UmCmp;
    if s == [] {
      OneIsOrdered(x);
    } else if UmCmp(x, s[0]) <= 0 {
      InsertFront(x, s);
    } else {
      TailOrdered(s);
      InsertKeepsOrder(x, s[1..]);
      UmCmpIsOrder(x, s[0], x);
      InsertBehind(x, s, Insert(x, s[1..]));
    }
  }

  lemma OneIsOrdered(x: UMap)
    ensures Ordered([x])
  {
  }

  lemma TailOrdered(s: seq<UMap>)
    requires Ordered(s) && s != []
    ensures Ordered(s[1..])
  {
    forall j, k | 0 <= j < k < |s[1..]| ensures UmCmp(s[1..][j], s[1..][k]) <= 0 {
      assert UmCmp(s[j + 1], s[k + 1]) <= 0;
    }
  }

  /** The sorted map has every pair of its items in order. */
  lemma {:induction false} SortOrders(s: seq<UMap>)
    ensures Ordered(Sort(s))
  {
    if s != [] {
      SortOrders(s[1..]);
      InsertKeepsOrder(s[0], Sort(s[1..]));
    }
  }

  /** In a sorted map starts ascend; of items with the same start layers ascend; of those in the same
      layer the longer come first; and of those of the same length names ascend with case ignored. */
  lemma OrderedKeys(s: seq<UMap>, j: nat, k: nat)
    requires Ordered(s) && j < k < |s|
    ensures var x, y := s[j], s[k];
      && x.faddr <= y.faddr
      && (x.faddr == y.faddr ==> x.layer <= y.layer)
      && (x.faddr == y.faddr && x.layer == y.layer ==> x.length >= y.length)
      && (x.faddr == y.faddr && x.layer == y.layer && x.length == y.length ==> StrICmp(x.name, y.name) <= 0)
  {
    assert UmCmp(s[j], s[k]) <= 0;
  }

  lemma OrderedIsAscending(s: seq<UMap>)
    requires Ordered(s)
    ensures Ascending(s, 0)
  {
    forall j, k | 0 <= j <= k < |s| ensures s[j].faddr <= s[k].faddr {
      assert j < k ==> UmCmp(s[j], s[k]) <= 0;
    }
  }
}
