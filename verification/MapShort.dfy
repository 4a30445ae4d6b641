/** `map_shortitems` (ASQENG/MAPINFO.C): short items are merged into a neighbour, below the end of
    the data area into the item before, at the start of the device area into the item after. */
module MapShort {
  import opened MapFix
  import opened MapMerge
  import opened Seqs
  import opened UMaps

  predicate Short(x: UMap) {
    0 < x.length < 32
  }

  /** A short item at the start of the device area. */
  predicate AtDev(x: UMap, dev: nat) {
    x.faddr == dev && Short(x)
  }

  /** A 32-bit difference. */
  function Minus32(a: nat, b: nat): nat {
    if a >= b then a - b else (a - b) % 0x1_0000_0000
  }

  /** Item k merged into the earlier item p. */
  function MergedDown(s: seq<UMap>, p: nat, k: nat): seq<UMap>
    requires p < k < |s|
  {
    Without(s[p := s[p].(length := s[p].length + s[k].length)], k)
  }

  function Extended(x: UMap, n: nat): UMap {
    x.(faddr := Minus32(x.faddr, n), length := x.length + n)
  }

  /** Item k merged into the item after it. */
  function MergedUp(s: seq<UMap>, k: nat): seq<UMap>
    requires k + 1 < |s|
  {
    Without(s[k + 1 := Extended(s[k + 1], s[k].length)], k)
  }

  /** How the merging ends: `ok` is false when the program goes wrong. */
  datatype Outcome = Outcome(ok: bool, items: seq<UMap>)

  /** The merging from item k on; p is the item to merge into, if there is one. */
  function Merged(s: seq<UMap>, k: nat, p: int, dev: nat, dataEnd: nat): Outcome
    requires -1 <= p < k <= |s|
    decreases |s| - k
  {
    if k == |s| then Outcome(true, s)
    else if AtDev(s[k], dev) then
      if k + 1 < |s| then Merged(MergedUp(s, k), k, -1, dev, dataEnd) else Outcome(false, s)
    else if s[k].faddr >= dataEnd then Outcome(true, s)
    else if p >= 0 && Short(s[k]) then Merged(MergedDown(s, p, k), k, p, dev, dataEnd)
    else Merged(s, k + 1, if s[k].length > 0 then k else p, dev, dataEnd)
  }

  lemma MergedDownLength(s: seq<UMap>, p: nat, k: nat)
    requires p < k < |s|
    ensures TotalLength(MergedDown(s, p, k)) == TotalLength(s)
  {
    var x := s[p].(length := s[p].length + s[k].length);
    TotalLengthUpdate(s, p, x);
    TotalLengthWithout(s[p := x], k);
  }

  lemma MergedUpLength(s: seq<UMap>, k: nat)
    requires k + 1 < |s|
    ensures TotalLength(MergedUp(s, k)) == TotalLength(s)
  {
    var x := Extended(s[k + 1], s[k].length);
    TotalLengthUpdate(s, k + 1, x);
    TotalLengthWithout(s[k + 1 := x], k);
  }

  /** Merging loses no length and gains none, whatever the list. */
  lemma {:induction false} MergedLength(s: seq<UMap>, k: nat, p: int, dev: nat, dataEnd: nat)
    requires -1 <= p < k <= |s|
    ensures TotalLength(Merged(s, k, p, dev, dataEnd).items) == TotalLength(s)
    decreases |s| - k
  {
    hide TotalLength, MergedUp, MergedDown;
    if k < |s| {
      if AtDev(s[k], dev) {
        if k + 1 < |s| {
          MergedUpShape(s, k);
          MergedUpLength(s, k);
          MergedLength(MergedUp(s, k), k, -1, dev, dataEnd);
        }
      } else if s[k].faddr >= dataEnd {
      } else if p >= 0 && Short(s[k]) {
        MergedDownShape(s, p, k);
        MergedDownLength(s, p, k);
        MergedLength(MergedDown(s, p, k), k, p, dev, dataEnd);
      } else {
        MergedLength(s, k + 1, if s[k].length > 0 then k else p, dev, dataEnd);
      }
    }
  }

  ghost predicate NoHoles(s: seq<UMap>) {
    forall x :: x in s ==> !x.hole
  }

  /** Merging makes no holes. */
  lemma {:induction false} MergedNoHoles(s: seq<UMap>, k: nat, p: int, dev: nat, dataEnd: nat)
    requires -1 <= p < k <= |s| && NoHoles(s)
    ensures NoHoles(Merged(s, k, p, dev, dataEnd).items)
    decreases |s| - k
  {
    hide MergedUp, MergedDown;
    if k < |s| {
      if AtDev(s[k], dev) {
        if k + 1 < |s| {
          MergedUpShape(s, k);
          var t := MergedUp(s, k);
          forall x | x in t ensures !x.hole {
            var j: nat :| j < |t| && t[j] == x;
            assert s[if j < k then j else j + 1] in s;
          }
          MergedNoHoles(t, k, -1, dev, dataEnd);
        }
      } else if s[k].faddr >= dataEnd {
      } else if p >= 0 && Short(s[k]) {
        MergedDownShape(s, p, k);
        var t := MergedDown(s, p, k);
        forall x | x in t ensures !x.hole {
          var j: nat :| j < |t| && t[j] == x;
          assert s[if j < k then j else j + 1] in s;
        }
        MergedNoHoles(t, k, p, dev, dataEnd);
      } else {
        MergedNoHoles(s, k + 1, if s[k].length > 0 then k else p, dev, dataEnd);
      }
    }
  }

  /** x is y, grown and perhaps moved. */
  predicate Absorbs(x: UMap, y: UMap) {
    x == y.(faddr := x.faddr, length := x.length) && x.length >= y.length
  }

  /** Every item of t is an item of s, grown and perhaps moved, and every item of s that is not short
      is still there. */
  ghost predicate OwnersKept(s: seq<UMap>, t: seq<UMap>) {
    (forall x :: x in t ==> exists y :: y in s && Absorbs(x, y))
    && (forall y :: y in s && y.length >= 32 ==> exists x :: x in t && Absorbs(x, y))
  }

  lemma OwnersCompose(s: seq<UMap>, t: seq<UMap>, u: seq<UMap>)
    requires OwnersKept(s, t) && OwnersKept(t, u)
    ensures OwnersKept(s, u)
  {
    forall x | x in u ensures exists y :: y in s && Absorbs(x, y) {
      var y :| y in t && Absorbs(x, y);
      var z :| z in s && Absorbs(y, z);
      assert Absorbs(x, z);
    }
    forall y | y in s && y.length >= 32 ensures exists x :: x in u && Absorbs(x, y) {
      var x :| x in t && Absorbs(x, y);
      var z :| z in u && Absorbs(z, x);
      assert Absorbs(z, y);
    }
  }

  /** Item k, which is short, has gone into item m, which stands at n now. */
  lemma OwnersOfMerge(s: seq<UMap>, t: seq<UMap>, k: nat, m: nat, n: nat)
    requires k < |s| && m < |s| && m != k && n < |t| == |s| - 1 && Short(s[k]) && Absorbs(t[n], s[m])
    requires n == if m < k then m else m - 1
    requires forall j: nat {:trigger t[j]} :: j < |t| && j != n ==> t[j] == s[if j < k then j else j + 1]
    ensures OwnersKept(s, t)
  {
    forall x | x in t ensures exists y :: y in s && Absorbs(x, y) {
      var j: nat :| j < |t| && t[j] == x;
      assert Absorbs(x, s[if j < k then j else j + 1]);
    }
    forall y | y in s && y.length >= 32 ensures exists x :: x in t && Absorbs(x, y) {
      var j: nat :| j < |s| && s[j] == y;
      assert j != k && Absorbs(t[if j < k then j else j - 1], y);
    }
  }

  /** Whatever the list, merging keeps the owners: what is absorbed is short, and what absorbs it
      differs in place and size only. */
  lemma {:induction false} MergedOwners(s: seq<UMap>, k: nat, p: int, dev: nat, dataEnd: nat)
    requires -1 <= p < k <= |s|
    ensures OwnersKept(s, Merged(s, k, p, dev, dataEnd).items)
    decreases |s| - k
  {
    hide MergedUp, MergedDown, OwnersKept;
    OwnersItself(s);
    if k < |s| {
      if AtDev(s[k], dev) {
        if k + 1 < |s| {
          MergedUpShape(s, k);
          var t := MergedUp(s, k);
          OwnersOfMerge(s, t, k, k + 1, k);
          MergedOwners(t, k, -1, dev, dataEnd);
          OwnersCompose(s, t, Merged(s, k, p, dev, dataEnd).items);
        }
      } else if s[k].faddr >= dataEnd {
      } else if p >= 0 && Short(s[k]) {
        MergedDownShape(s, p, k);
        var t := MergedDown(s, p, k);
        OwnersOfMerge(s, t, k, p, p);
        MergedOwners(t, k, p, dev, dataEnd);
        OwnersCompose(s, t, Merged(s, k, p, dev, dataEnd).items);
      } else {
        MergedOwners(s, k + 1, if s[k].length > 0 then k else p, dev, dataEnd);
      }
    }
  }

  lemma OwnersItself(s: seq<UMap>)
    ensures OwnersKept(s, s)
  {
    forall x | x in s ensures Absorbs(x, x) {
    }
  }

  // ----- what one merge does -----

  /** Item by item: p grows by the length of k, the items after k move down. */
  lemma MergedDownShape(s: seq<UMap>, p: nat, k: nat)
    requires p < k < |s|
    ensures var t := MergedDown(s, p, k);
      && |t| == |s| - 1
      && t[p] == s[p].(length := s[p].length + s[k].length)
      && (forall j: nat {:trigger t[j]} :: j < |t| && j != p ==> t[j] == s[if j < k then j else j + 1])
  {
  }

  /** Item by item: k is replaced by its extended successor, the items after that move down. */
  lemma MergedUpShape(s: seq<UMap>, k: nat)
    requires k + 1 < |s|
    ensures var t := MergedUp(s, k);
      && |t| == |s| - 1
      && t[k] == Extended(s[k + 1], s[k].length)
      && (forall j: nat {:trigger t[j]} :: j < |t| && j != k ==> t[j] == s[if j < k then j else j + 1])
  {
  }

  predicate Touches(x: UMap, y: UMap) {
    End(x) == y.faddr
  }

  ghost predicate SameCover(s: seq<UMap>, t: seq<UMap>) {
    forall a: nat :: Covered(s, a) <==> Covered(t, a)
  }

  lemma CoverComposes(s: seq<UMap>, t: seq<UMap>, u: seq<UMap>)
    requires SameCover(s, t)
    ensures SameCover(t, u) <==> SameCover(s, u)
  {
    if SameCover(t, u) {
      forall a: nat ensures Covered(s, a) <==> Covered(u, a) {
        assert Covered(s, a) <==> Covered(t, a);
      }
    }
    if SameCover(s, u) {
      forall a: nat ensures Covered(t, a) <==> Covered(u, a) {
        assert Covered(s, a) <==> Covered(t, a);
      }
    }
  }

  /** No item ends above b. */
  ghost predicate Below(s: seq<UMap>, b: nat) {
    forall k: nat :: k < |s| ==> End(s[k]) <= b
  }

  /** Items p and k have nothing but empty items between them. */
  ghost predicate Follows(s: seq<UMap>, p: nat, k: nat)
    requires p < k < |s|
  {
    s[p].length > 0 && forall m: nat :: p < m < k ==> s[m].length == 0
  }

  lemma MergedDownOrder(s: seq<UMap>, p: nat, k: nat)
    requires Orderly(s) && p < k < |s| && Follows(s, p, k) && Touches(s[p], s[k])
    ensures Orderly(MergedDown(s, p, k))
  {
    hide MergedDown;
    var t := MergedDown(s, p, k);
    MergedDownShape(s, p, k);
    forall i, j | 0 <= i < j < |t| ensures Precedes(t[i], t[j]) {
      assert Precedes(s[if i < k then i else i + 1], s[if j < k then j else j + 1]);
      if i == p && j >= k {
        assert Precedes(s[k], s[j + 1]);
      }
    }
  }

  lemma MergedDownCover(s: seq<UMap>, p: nat, k: nat)
    requires p < k < |s| && Touches(s[p], s[k])
    ensures SameCover(s, MergedDown(s, p, k))
  {
    hide MergedDown;
    var t := MergedDown(s, p, k);
    MergedDownShape(s, p, k);
    forall a: nat ensures Covered(s, a) <==> Covered(t, a) {
      if Covered(s, a) {
        var j :| 0 <= j < |s| && Covers(s[j], a);
        assert Covers(t[if j < k then j else if j == k then p else j - 1], a);
      }
      if Covered(t, a) {
        var j :| 0 <= j < |t| && Covers(t[j], a);
        assert Covers(s[if j < k then j else j + 1], a) || Covers(s[k], a);
      }
    }
  }

  /** Merging an item into the one before, empty items between them passed over, keeps order,
      coverage and bounds when the two touch. */
  lemma MergedDownKeeps(s: seq<UMap>, p: nat, k: nat, b: nat)
    requires Orderly(s) && p < k < |s| && Follows(s, p, k) && Touches(s[p], s[k])
    ensures Orderly(MergedDown(s, p, k)) && SameCover(s, MergedDown(s, p, k))
    ensures Below(s, b) ==> Below(MergedDown(s, p, k), b)
  {
    MergedDownOrder(s, p, k);
    MergedDownCover(s, p, k);
    if Below(s, b) {
      hide MergedDown, Orderly, SameCover;
      MergedDownShape(s, p, k);
      assert End(s[k]) <= b;
    }
  }

  lemma MergedUpOrder(s: seq<UMap>, k: nat)
    requires Orderly(s) && k + 1 < |s| && s[k].length > 0 && Touches(s[k], s[k + 1])
    ensures Orderly(MergedUp(s, k))
  {
    hide MergedUp;
    var t := MergedUp(s, k);
    MergedUpShape(s, k);
    forall i, j | 0 <= i < j < |t| ensures Precedes(t[i], t[j]) {
      assert Precedes(s[if i < k then i else i + 1], s[if j < k then j else j + 1]);
      if i == k {
        assert Precedes(s[k], s[j + 1]);
      }
      if j == k {
        assert Precedes(s[i], s[k]);
      }
    }
  }

  lemma MergedUpCover(s: seq<UMap>, k: nat)
    requires k + 1 < |s| && Touches(s[k], s[k + 1])
    ensures SameCover(s, MergedUp(s, k))
  {
    hide MergedUp;
    var t := MergedUp(s, k);
    MergedUpShape(s, k);
    forall a: nat ensures Covered(s, a) <==> Covered(t, a) {
      if Covered(s, a) {
        var j :| 0 <= j < |s| && Covers(s[j], a);
        assert Covers(t[if j <= k then j else j - 1], a);
      }
      if Covered(t, a) {
        var j :| 0 <= j < |t| && Covers(t[j], a);
        assert Covers(s[if j < k then j else j + 1], a) || Covers(s[k], a);
      }
    }
  }

  /** Merging an item into the one after it, empty or not, keeps order, coverage and bounds when the
      two touch. */
  lemma MergedUpKeeps(s: seq<UMap>, k: nat, b: nat)
    requires Orderly(s) && k + 1 < |s| && s[k].length > 0 && Touches(s[k], s[k + 1])
    ensures Orderly(MergedUp(s, k)) && SameCover(s, MergedUp(s, k))
    ensures MergedUp(s, k)[k].faddr == s[k].faddr && End(MergedUp(s, k)[k]) == End(s[k + 1])
    ensures Below(s, b) ==> Below(MergedUp(s, k), b)
  {
    MergedUpOrder(s, k);
    MergedUpCover(s, k);
    hide MergedUp, Orderly, SameCover;
    MergedUpShape(s, k);
    assert Below(s, b) ==> End(s[k + 1]) <= b;
  }

  // ----- which merges the run makes, and whether they touch -----

  /** From item i on, item u is a short one at the start of the device area that the run reaches. */
  predicate Opens(s: seq<UMap>, i: nat, u: nat, dev: nat, dataEnd: nat)
    requires i <= u < |s|
  {
    AtDev(s[u], dev) && (u > i ==> s[u - 1].faddr < dataEnd)
  }

  /** The items u to j all end within 32 bytes of the start of the device area. */
  ghost predicate Crowded(s: seq<UMap>, u: nat, j: nat, dev: nat)
    requires u <= j < |s|
  {
    forall m: nat :: u <= m <= j ==> End(s[m]) < dev + 32
  }

  /** From such an item on, each item that crowds the start of the device area touches the next. */
  ghost predicate UpTouch(s: seq<UMap>, i: nat, dev: nat, dataEnd: nat) {
    forall u: nat, j: nat :: (i <= u <= j && j + 1 < |s| && Opens(s, i, u, dev, dataEnd) && Crowded(s, u, j, dev)) ==>
      Touches(s[j], s[j + 1])
  }

  /** A short item that is merged into the one before. */
  predicate GoesDown(x: UMap, dev: nat, dataEnd: nat) {
    Short(x) && x.faddr != dev && x.faddr < dataEnd
  }

  /** Any such item that the run reaches touches the item before it, empty ones not counted. */
  ghost predicate DownTouch(s: seq<UMap>, i: nat, dev: nat, dataEnd: nat) {
    forall p: nat, k: nat :: (p < k < |s| && i <= k && Follows(s, p, k) && GoesDown(s[k], dev, dataEnd)) ==>
      Touches(s[p], s[k])
  }

  /** Every merge from item i on joins touching items. */
  ghost predicate Joins(s: seq<UMap>, i: nat, dev: nat, dataEnd: nat) {
    UpTouch(s, i, dev, dataEnd) && DownTouch(s, i, dev, dataEnd)
  }

  /** Where the run stands at item k of an orderly map: p is the last item that is not empty, unless
      item k is the merged start of the device area. */
  ghost predicate Ready(s: seq<UMap>, k: nat, p: int, dev: nat) {
    && Orderly(s) && -1 <= p < k <= |s|
    && (forall j: nat :: p < j < k ==> s[j].length == 0 || (p < 0 && k < |s| && s[k].faddr == dev && s[k].length > 0))
    && (p >= 0 ==> s[p].length > 0)
  }

  lemma OneAtDev(s: seq<UMap>, k: nat, u: nat, dev: nat)
    requires Orderly(s) && k <= u < |s| && s[k].faddr == dev && s[k].length > 0 && AtDev(s[u], dev)
    ensures u == k
  {
    assert forall j: nat {:trigger s[j]} :: k < j < |s| ==> Precedes(s[k], s[j]);
  }

  /** `UpTouch` for a map whose item k is the one at the start of the device area. */
  ghost predicate CrowdTouches(s: seq<UMap>, k: nat, dev: nat) {
    forall j: nat :: (k <= j && j + 1 < |s| && Crowded(s, k, j, dev)) ==> Touches(s[j], s[j + 1])
  }

  lemma UpTouchAt(s: seq<UMap>, k: nat, dev: nat, dataEnd: nat)
    requires Orderly(s) && k < |s| && s[k].faddr == dev && s[k].length > 0
    ensures UpTouch(s, k, dev, dataEnd) <==> CrowdTouches(s, k, dev)
  {
    if CrowdTouches(s, k, dev) {
      forall u: nat, j: nat | k <= u <= j && j + 1 < |s| && Opens(s, k, u, dev, dataEnd) && Crowded(s, u, j, dev)
        ensures Touches(s[j], s[j + 1]) {
        OneAtDev(s, k, u, dev);
      }
    }
    if UpTouch(s, k, dev, dataEnd) {
      forall j: nat | k <= j && j + 1 < |s| && Crowded(s, k, j, dev) ensures Touches(s[j], s[j + 1]) {
        assert End(s[k]) < dev + 32;
        assert Opens(s, k, k, dev, dataEnd);
      }
    }
  }

  lemma CrowdTouchesUp(s: seq<UMap>, t: seq<UMap>, k: nat, dev: nat)
    requires k + 1 < |s| && End(s[k]) < dev + 32 && Touches(s[k], s[k + 1]) && k + 1 <= |t| == |s| - 1
    requires End(t[k]) == End(s[k + 1]) && forall j: nat {:trigger t[j]} :: k < j < |t| ==> t[j] == s[j + 1]
    ensures CrowdTouches(s, k, dev) <==> CrowdTouches(t, k, dev)
  {
    assert forall j: nat {:trigger s[j]} :: k + 1 < j < |s| ==> s[j] == t[j - 1];
    if CrowdTouches(t, k, dev) {
      forall j: nat | k <= j && j + 1 < |s| && Crowded(s, k, j, dev) ensures Touches(s[j], s[j + 1]) {
        if j > k {
          assert End(s[k + 1]) < dev + 32;
          assert Crowded(t, k, j - 1, dev);
          assert Touches(t[j - 1], t[j - 1 + 1]);
        }
      }
    }
    if CrowdTouches(s, k, dev) {
      forall j: nat | k <= j && j + 1 < |t| && Crowded(t, k, j, dev) ensures Touches(t[j], t[j + 1]) {
        assert End(t[k]) < dev + 32;
        assert Crowded(s, k, j + 1, dev);
        assert Touches(s[j + 1], s[j + 1 + 1]);
      }
    }
  }

  lemma UpTouchUp(s: seq<UMap>, k: nat, dev: nat, dataEnd: nat)
    requires Orderly(s) && k + 1 < |s| && AtDev(s[k], dev) && Touches(s[k], s[k + 1])
    ensures UpTouch(s, k, dev, dataEnd) <==> UpTouch(MergedUp(s, k), k, dev, dataEnd)
  {
    hide MergedUp, Orderly, SameCover, UpTouch, CrowdTouches;
    MergedUpKeeps(s, k, 0);
    MergedUpShape(s, k);
    UpTouchAt(s, k, dev, dataEnd);
    UpTouchAt(MergedUp(s, k), k, dev, dataEnd);
    CrowdTouchesUp(s, MergedUp(s, k), k, dev);
  }

  lemma DownTouchUpBack(s: seq<UMap>, t: seq<UMap>, k: nat, dev: nat, dataEnd: nat)
    requires k + 1 < |s| && AtDev(s[k], dev) && Touches(s[k], s[k + 1]) && k + 1 <= |t| == |s| - 1
    requires t[k].length > 0 && t[k].faddr == dev && End(t[k]) == End(s[k + 1])
    requires forall j: nat {:trigger t[j]} :: k < j < |t| ==> t[j] == s[j + 1]
    requires DownTouch(t, k, dev, dataEnd)
    ensures DownTouch(s, k, dev, dataEnd)
  {
    forall p: nat, q: nat | p < q < |s| && k <= q && Follows(s, p, q) && GoesDown(s[q], dev, dataEnd)
      ensures Touches(s[p], s[q]) {
      assert q > k && p >= k;
      if q > k + 1 {
        var p1: nat := if p == k then k else p - 1;
        assert forall m: nat {:trigger t[m]} :: p1 < m < q - 1 ==> t[m] == s[m + 1];
        assert Follows(t, p1, q - 1);
        assert Touches(t[p1], t[q - 1]);
      }
    }
  }

  lemma DownTouchUpOn(s: seq<UMap>, t: seq<UMap>, k: nat, dev: nat, dataEnd: nat)
    requires k + 1 < |s| && AtDev(s[k], dev) && Touches(s[k], s[k + 1]) && k + 1 <= |t| == |s| - 1
    requires t[k].length > 0 && t[k].faddr == dev && End(t[k]) == End(s[k + 1])
    requires forall j: nat {:trigger t[j]} :: k < j < |t| ==> t[j] == s[j + 1]
    requires DownTouch(s, k, dev, dataEnd)
    ensures DownTouch(t, k, dev, dataEnd)
  {
    forall p: nat, q: nat | p < q < |t| && k <= q && Follows(t, p, q) && GoesDown(t[q], dev, dataEnd)
      ensures Touches(t[p], t[q]) {
      assert q > k && p >= k;
      var p1: nat := if p == k && s[k + 1].length == 0 then k else p + 1;
      assert forall m: nat {:trigger s[m]} :: p + 1 < m < q + 1 ==> s[m] == t[m - 1];
      assert Follows(s, p1, q + 1);
      assert Touches(s[p1], s[q + 1]);
    }
  }

  lemma JoinsUp(s: seq<UMap>, k: nat, dev: nat, dataEnd: nat)
    requires Orderly(s) && k + 1 < |s| && AtDev(s[k], dev) && Touches(s[k], s[k + 1])
    ensures Joins(s, k, dev, dataEnd) <==> Joins(MergedUp(s, k), k, dev, dataEnd)
  {
    hide MergedUp, Orderly, SameCover, UpTouch, DownTouch;
    var t := MergedUp(s, k);
    MergedUpKeeps(s, k, 0);
    MergedUpShape(s, k);
    UpTouchUp(s, k, dev, dataEnd);
    if DownTouch(s, k, dev, dataEnd) {
      DownTouchUpOn(s, t, k, dev, dataEnd);
    }
    if DownTouch(t, k, dev, dataEnd) {
      DownTouchUpBack(s, t, k, dev, dataEnd);
    }
  }

  lemma DownTouchDownBack(s: seq<UMap>, t: seq<UMap>, p: nat, k: nat, dev: nat, dataEnd: nat)
    requires p < k < |s| && Follows(s, p, k) && s[k].length > 0 && Touches(s[p], s[k]) && |t| == |s| - 1
    requires t[p] == s[p].(length := s[p].length + s[k].length)
    requires forall j: nat {:trigger t[j]} :: j < |t| && j != p ==> t[j] == s[if j < k then j else j + 1]
    requires DownTouch(t, k, dev, dataEnd)
    ensures DownTouch(s, k, dev, dataEnd)
  {
    forall i: nat, j: nat | i < j < |s| && k <= j && Follows(s, i, j) && GoesDown(s[j], dev, dataEnd)
      ensures Touches(s[i], s[j]) {
      if j == k {
        assert i == p;
      } else {
        assert i >= k;
        var i1: nat := if i == k then p else i - 1;
        assert forall m: nat {:trigger t[m]} :: k <= m < j - 1 ==> t[m] == s[m + 1];
        assert Follows(t, i1, j - 1);
        assert Touches(t[i1], t[j - 1]);
      }
    }
  }

  lemma DownTouchDownOn(s: seq<UMap>, t: seq<UMap>, p: nat, k: nat, dev: nat, dataEnd: nat)
    requires p < k < |s| && Follows(s, p, k) && s[k].length > 0 && Touches(s[p], s[k]) && |t| == |s| - 1
    requires t[p] == s[p].(length := s[p].length + s[k].length)
    requires forall j: nat {:trigger t[j]} :: j < |t| && j != p ==> t[j] == s[if j < k then j else j + 1]
    requires DownTouch(s, k, dev, dataEnd)
    ensures DownTouch(t, k, dev, dataEnd)
  {
    forall i: nat, j: nat | i < j < |t| && k <= j && Follows(t, i, j) && GoesDown(t[j], dev, dataEnd)
      ensures Touches(t[i], t[j]) {
      assert i >= p;
      assert i == p || i >= k;
      var i1: nat := if i == p then k else i + 1;
      assert forall m: nat {:trigger s[m]} :: k < m < j + 1 ==> s[m] == t[m - 1];
      assert Follows(s, i1, j + 1);
      assert Touches(s[i1], s[j + 1]);
    }
  }

  /** The condition on what happens at the start of the device area looks ahead only. */
  lemma UpTouchShift(s: seq<UMap>, t: seq<UMap>, i: nat, j: nat, dev: nat, dataEnd: nat)
    requires i <= |s| && j <= |t| && |s| - i == |t| - j
    requires forall m: nat {:trigger t[m]} :: j <= m < |t| ==> t[m] == s[m - j + i]
    requires UpTouch(s, i, dev, dataEnd)
    ensures UpTouch(t, j, dev, dataEnd)
  {
    forall u: nat, v: nat | j <= u <= v && v + 1 < |t| && Opens(t, j, u, dev, dataEnd) && Crowded(t, u, v, dev)
      ensures Touches(t[v], t[v + 1]) {
      assert Opens(s, i, u - j + i, dev, dataEnd);
      assert forall m: nat {:trigger s[m]} :: i <= m < |s| ==> s[m] == t[m - i + j];
      assert Crowded(s, u - j + i, v - j + i, dev);
      assert Touches(s[v - j + i], s[v - j + i + 1]);
    }
  }

  lemma UpTouchOn(s: seq<UMap>, k: nat, dev: nat, dataEnd: nat)
    requires k < |s| && !AtDev(s[k], dev) && s[k].faddr < dataEnd
    ensures UpTouch(s, k, dev, dataEnd) <==> UpTouch(s, k + 1, dev, dataEnd)
  {
    if UpTouch(s, k + 1, dev, dataEnd) {
      forall u: nat, v: nat | k <= u <= v && v + 1 < |s| && Opens(s, k, u, dev, dataEnd) && Crowded(s, u, v, dev)
        ensures Touches(s[v], s[v + 1]) {
        assert Opens(s, k + 1, u, dev, dataEnd);
      }
    }
    if UpTouch(s, k, dev, dataEnd) {
      forall u: nat, v: nat | k + 1 <= u <= v && v + 1 < |s| && Opens(s, k + 1, u, dev, dataEnd) && Crowded(s, u, v, dev)
        ensures Touches(s[v], s[v + 1]) {
        assert Opens(s, k, u, dev, dataEnd);
      }
    }
  }

  lemma UpTouchDown(s: seq<UMap>, t: seq<UMap>, k: nat, dev: nat, dataEnd: nat)
    requires k < |s| && |t| == |s| - 1 && s[k].faddr != dev && s[k].faddr < dataEnd
    requires forall j: nat {:trigger t[j]} :: k <= j < |t| ==> t[j] == s[j + 1]
    ensures UpTouch(s, k, dev, dataEnd) <==> UpTouch(t, k, dev, dataEnd)
  {
    hide UpTouch;
    UpTouchOn(s, k, dev, dataEnd);
    if UpTouch(s, k + 1, dev, dataEnd) {
      UpTouchShift(s, t, k + 1, k, dev, dataEnd);
    }
    if UpTouch(t, k, dev, dataEnd) {
      assert forall j: nat {:trigger s[j]} :: k < j < |s| ==> s[j] == t[j - 1];
      UpTouchShift(t, s, k, k + 1, dev, dataEnd);
    }
  }

  lemma JoinsDown(s: seq<UMap>, p: nat, k: nat, dev: nat, dataEnd: nat)
    requires p < k < |s| && Follows(s, p, k) && s[k].faddr != dev && s[k].faddr < dataEnd && Touches(s[p], s[k])
    requires s[k].length > 0
    ensures Joins(s, k, dev, dataEnd) <==> Joins(MergedDown(s, p, k), k, dev, dataEnd)
  {
    hide MergedDown, UpTouch, DownTouch;
    var t := MergedDown(s, p, k);
    MergedDownShape(s, p, k);
    UpTouchDown(s, t, k, dev, dataEnd);
    if DownTouch(s, k, dev, dataEnd) {
      DownTouchDownOn(s, t, p, k, dev, dataEnd);
    }
    if DownTouch(t, k, dev, dataEnd) {
      DownTouchDownBack(s, t, p, k, dev, dataEnd);
    }
  }

  lemma JoinsOn(s: seq<UMap>, k: nat, p: int, dev: nat, dataEnd: nat)
    requires Ready(s, k, p, dev) && k < |s| && !AtDev(s[k], dev) && s[k].faddr < dataEnd && !(p >= 0 && Short(s[k]))
    ensures Joins(s, k, dev, dataEnd) <==> Joins(s, k + 1, dev, dataEnd)
  {
    UpTouchOn(s, k, dev, dataEnd);
    if DownTouch(s, k + 1, dev, dataEnd) {
      forall i: nat, j: nat | i < j < |s| && k <= j && Follows(s, i, j) && GoesDown(s[j], dev, dataEnd)
        ensures Touches(s[i], s[j]) {
        assert j > k;
      }
    }
  }

  /** Past the end of the data area nothing is merged. */
  lemma JoinsEnd(s: seq<UMap>, k: nat, dev: nat, dataEnd: nat)
    requires Orderly(s) && k <= |s|
    requires k < |s| ==> !AtDev(s[k], dev) && s[k].faddr >= dataEnd
    ensures Joins(s, k, dev, dataEnd)
  {
    forall j: nat | k < j < |s| ensures s[j].faddr >= dataEnd {
      assert Precedes(s[k], s[j]);
    }
  }

  // ----- when a merge joins items that do not touch -----

  function Range(from: nat, n: nat): set<nat> {
    if n == 0 then {} else Range(from, n - 1) + {from + n - 1}
  }

  /** The addresses covered, as a set. */
  function Cells(s: seq<UMap>): set<nat> {
    if s == [] then {} else Range(s[0].faddr, s[0].length) + Cells(s[1..])
  }

  lemma {:induction false} RangeSize(from: nat, n: nat)
    ensures |Range(from, n)| == n && forall a: nat :: a in Range(from, n) <==> from <= a < from + n
  {
    if n > 0 {
      RangeSize(from, n - 1);
    }
  }

  lemma {:induction false} CellsAre(s: seq<UMap>, a: nat)
    ensures a in Cells(s) <==> Covered(s, a)
  {
    if s != [] {
      RangeSize(s[0].faddr, s[0].length);
      CellsAre(s[1..], a);
      if Covered(s, a) {
        var k :| 0 <= k < |s| && Covers(s[k], a);
        assert k > 0 ==> Covers(s[1..][k - 1], a);
      }
      if Covered(s[1..], a) {
        var k :| 0 <= k < |s[1..]| && Covers(s[1..][k], a);
        assert Covers(s[k + 1], a);
      }
    }
  }

  lemma UnionSize(a: set<nat>, b: set<nat>)
    ensures |a + b| + |a * b| == |a| + |b|
  {
    assert a + b == a + (b - a);
    assert b == (b - a) + a * b;
  }

  /** Covered addresses are never more than the total length, and as many in an orderly map. */
  lemma {:induction false} CellsSize(s: seq<UMap>)
    ensures |Cells(s)| <= TotalLength(s)
    ensures Orderly(s) ==> |Cells(s)| == TotalLength(s)
  {
    if s != [] {
      CellsSize(s[1..]);
      RangeSize(s[0].faddr, s[0].length);
      UnionSize(Range(s[0].faddr, s[0].length), Cells(s[1..]));
      if Orderly(s) {
        assert forall j: nat {:trigger s[1..][j]} :: j < |s[1..]| ==> s[1..][j] == s[j + 1];
        forall a: nat | a in Range(s[0].faddr, s[0].length) ensures a !in Cells(s[1..]) {
          CellsAre(s[1..], a);
        }
        assert Range(s[0].faddr, s[0].length) * Cells(s[1..]) == {};
      }
    }
  }

  /** Two items that share an address cost one. */
  lemma {:induction false} SharedSize(s: seq<UMap>, i: nat, j: nat, a: nat)
    requires i < j < |s| && Covers(s[i], a) && Covers(s[j], a)
    ensures |Cells(s)| < TotalLength(s)
  {
    RangeSize(s[0].faddr, s[0].length);
    UnionSize(Range(s[0].faddr, s[0].length), Cells(s[1..]));
    if i == 0 {
      CellsSize(s[1..]);
      assert s[1..][j - 1] == s[j];
      CellsAre(s[1..], a);
      assert a in Range(s[0].faddr, s[0].length) * Cells(s[1..]);
    } else {
      SharedSize(s[1..], i - 1, j - 1, a);
    }
  }

  lemma SameCells(s: seq<UMap>, t: seq<UMap>)
    requires SameCover(s, t)
    ensures Cells(s) == Cells(t)
  {
    forall a: nat ensures a in Cells(s) <==> a in Cells(t) {
      CellsAre(s, a);
      CellsAre(t, a);
      assert Covered(s, a) <==> Covered(t, a);
    }
  }

  /** Items the run has passed stay where they are and never shrink. */
  lemma {:induction false} MergedGrows(s: seq<UMap>, k: nat, p: int, dev: nat, dataEnd: nat)
    requires -1 <= p < k <= |s|
    ensures var t := Merged(s, k, p, dev, dataEnd).items;
      && k <= |t|
      && (forall j: nat {:trigger t[j]} :: j < k ==> t[j].faddr == s[j].faddr && t[j].length >= s[j].length)
    decreases |s| - k
  {
    hide MergedUp, MergedDown;
    if k < |s| {
      if AtDev(s[k], dev) {
        if k + 1 < |s| {
          MergedUpShape(s, k);
          MergedGrows(MergedUp(s, k), k, -1, dev, dataEnd);
        }
      } else if s[k].faddr >= dataEnd {
      } else if p >= 0 && Short(s[k]) {
        MergedDownShape(s, p, k);
        MergedGrows(MergedDown(s, p, k), k, p, dev, dataEnd);
      } else {
        MergedGrows(s, k + 1, if s[k].length > 0 then k else p, dev, dataEnd);
      }
    }
  }

  /** The start of the device area, once given away, is not covered again by items above it. */
  lemma {:induction false} StaysBare(s: seq<UMap>, k: nat, p: int, dev: nat, dataEnd: nat)
    requires -1 <= p < k <= |s| && !Covered(s, dev)
    requires p >= 0 ==> s[p].faddr > dev
    requires forall j: nat {:trigger s[j]} :: k <= j < |s| ==> s[j].faddr > dev
    ensures !Covered(Merged(s, k, p, dev, dataEnd).items, dev)
    decreases |s| - k
  {
    hide MergedUp, MergedDown;
    if k < |s| && s[k].faddr < dataEnd {
      if p >= 0 && Short(s[k]) {
        MergedDownShape(s, p, k);
        var t := MergedDown(s, p, k);
        forall j | 0 <= j < |t| ensures !Covers(t[j], dev) {
          assert !Covers(s[if j < k then j else j + 1], dev);
        }
        StaysBare(t, k, p, dev, dataEnd);
      } else {
        StaysBare(s, k + 1, if s[k].length > 0 then k else p, dev, dataEnd);
      }
    }
  }

  /** A short item merged down over a gap covers the first address of the gap. */
  lemma GapDownShows(s: seq<UMap>, p: nat, k: nat, dev: nat, dataEnd: nat)
    requires Orderly(s) && p < k < |s| && Follows(s, p, k) && s[k].length > 0 && !Touches(s[p], s[k])
    ensures !SameCover(s, Merged(MergedDown(s, p, k), k, p, dev, dataEnd).items)
  {
    var t := MergedDown(s, p, k);
    var a := End(s[p]);
    forall j | 0 <= j < |s| ensures !Covers(s[j], a) {
      assert Precedes(s[p], s[k]);
      if j < p {
        assert Precedes(s[j], s[p]);
      } else if j > k {
        assert Precedes(s[k], s[j]);
      }
    }
    MergedDownShape(s, p, k);
    MergedGrows(t, k, p, dev, dataEnd);
    var u := Merged(t, k, p, dev, dataEnd).items;
    assert Covers(u[p], a);
    assert Covered(u, a) && !Covered(s, a);
  }

  /** A short item merged up over a gap gives its first address away. */
  lemma GapUpShows(s: seq<UMap>, k: nat, dev: nat, dataEnd: nat)
    requires Orderly(s) && k + 1 < |s| && AtDev(s[k], dev) && End(s[k]) < s[k + 1].faddr
    ensures !SameCover(s, Merged(MergedUp(s, k), k, -1, dev, dataEnd).items)
  {
    var t := MergedUp(s, k);
    MergedUpShape(s, k);
    forall j | 0 <= j < |t| ensures !Covers(t[j], dev) && (j >= k ==> t[j].faddr > dev) {
      if j < k {
        assert Precedes(s[j], s[k]);
      } else if j > k {
        assert Precedes(s[k + 1], s[j + 1]);
      }
    }
    StaysBare(t, k, -1, dev, dataEnd);
    assert Covers(s[k], dev);
    assert Covered(s, dev) && !Covered(Merged(t, k, -1, dev, dataEnd).items, dev);
  }

  /** The first item after a merge that leaves the start of the device area is in the result. */
  lemma FirstStays(s: seq<UMap>, k: nat, dev: nat, dataEnd: nat)
    requires k < |s| && s[k].faddr != dev
    ensures var t := Merged(s, k, -1, dev, dataEnd).items;
      && k < |t|
      && (forall j: nat {:trigger t[j]} :: j <= k ==> t[j].faddr == s[j].faddr && t[j].length >= s[j].length)
  {
    if s[k].faddr < dataEnd {
      MergedGrows(s, k + 1, if s[k].length > 0 then k else -1, dev, dataEnd);
    }
  }

  lemma StretchedStart(b: nat, n: nat, dev: nat)
    requires dev <= b < dev + n <= 0xFFFF_FFE0 && n < 32
    ensures Minus32(b, n) < dev || Minus32(b, n) >= 0xFFFF_FFE0
  {
  }

  /** Of two maps that cover the same addresses the orderly one is as long as the set it covers. */
  lemma NoSharing(s: seq<UMap>, t: seq<UMap>, i: nat, j: nat, a: nat)
    requires Orderly(s) && TotalLength(s) == TotalLength(t)
    requires i < j < |t| && Covers(t[i], a) && Covers(t[j], a)
    ensures !SameCover(s, t)
  {
    SharedSize(t, i, j, a);
    CellsSize(s);
    if SameCover(s, t) {
      SameCells(s, t);
    }
  }

  lemma CoveredBelow(s: seq<UMap>, k: nat, a: nat) returns (j: nat)
    requires Orderly(s) && Below(s, 0xFFFF_FFE0) && k < |s| && Covered(s, a)
    requires a < s[k].faddr || a >= 0xFFFF_FFE0
    ensures j < k && Covers(s[j], a)
  {
    j :| 0 <= j < |s| && Covers(s[j], a);
    assert End(s[j]) <= 0xFFFF_FFE0;
    assert forall i: nat {:trigger s[i]} :: k < i < |s| ==> Precedes(s[k], s[i]);
  }

  /** A short item merged up into an empty one that lies inside it takes an address that belongs to
      another item or to none. */
  lemma InsideShows(s: seq<UMap>, k: nat, dev: nat, dataEnd: nat)
    requires Orderly(s) && Below(s, 0xFFFF_FFE0)
    requires k + 1 < |s| && AtDev(s[k], dev) && s[k + 1].faddr < End(s[k])
    ensures !SameCover(s, Merged(MergedUp(s, k), k, -1, dev, dataEnd).items)
  {
    hide MergedUp, Merged, Minus32, Orderly, TotalLength;
    var t := MergedUp(s, k);
    MergedUpShape(s, k);
    var r := Merged(t, k, -1, dev, dataEnd).items;
    var a := Minus32(s[k + 1].faddr, s[k].length);
    assert Precedes(s[k], s[k + 1]) by { OrderAt(s, k, k + 1); }
    assert End(s[k]) <= 0xFFFF_FFE0;
    StretchedStart(s[k + 1].faddr, s[k].length, dev);
    FirstStays(t, k, dev, dataEnd);
    assert Covers(r[k], a);
    assert Covered(r, a);
    if Covered(s, a) {
      var j := CoveredBelow(s, k, a);
      assert Covers(r[j], a);
      MergedUpLength(s, k);
      MergedLength(t, k, -1, dev, dataEnd);
      NoSharing(s, r, j, k, a);
    }
  }

  lemma OrderAt(s: seq<UMap>, i: nat, j: nat)
    requires Orderly(s) && i < j < |s|
    ensures Precedes(s[i], s[j])
  {
  }

  /** Merging an item up that does not touch its successor changes the addresses covered. */
  lemma NoTouchUpShows(s: seq<UMap>, k: nat, dev: nat, dataEnd: nat)
    requires Orderly(s) && Below(s, 0xFFFF_FFE0)
    requires k + 1 < |s| && AtDev(s[k], dev) && !Touches(s[k], s[k + 1])
    ensures !SameCover(s, Merged(MergedUp(s, k), k, -1, dev, dataEnd).items)
  {
    if End(s[k]) < s[k + 1].faddr {
      GapUpShows(s, k, dev, dataEnd);
    } else {
      InsideShows(s, k, dev, dataEnd);
    }
  }

  // ----- the whole run -----

  /** From a map in order the run keeps the addresses covered exactly when every merge it makes
      joins touching items. */
  lemma {:induction false} KeepsCoverExactly(s: seq<UMap>, k: nat, p: int, dev: nat, dataEnd: nat)
    requires Ready(s, k, p, dev) && Below(s, 0xFFFF_FFE0)
    ensures SameCover(s, Merged(s, k, p, dev, dataEnd).items) <==> Joins(s, k, dev, dataEnd)
    decreases |s| - k
  {
    hide MergedUp, MergedDown, SameCover, Joins, Below, Orderly;
    if k == |s| {
      JoinsEnd(s, k, dev, dataEnd);
      CoverRefl(s);
    } else if AtDev(s[k], dev) {
      if k + 1 == |s| {
        LastJoins(s, dev, dataEnd);
        CoverRefl(s);
      } else if Touches(s[k], s[k + 1]) {
        var t := MergedUp(s, k);
        MergedUpShape(s, k);
        MergedUpKeeps(s, k, 0xFFFF_FFE0);
        JoinsUp(s, k, dev, dataEnd);
        KeepsCoverExactly(t, k, -1, dev, dataEnd);
        CoverComposes(s, t, Merged(t, k, -1, dev, dataEnd).items);
      } else {
        NoTouchUpShows(s, k, dev, dataEnd);
        NoTouchUpFails(s, k, dev, dataEnd);
      }
    } else if s[k].faddr >= dataEnd {
      JoinsEnd(s, k, dev, dataEnd);
      CoverRefl(s);
    } else if p >= 0 && Short(s[k]) {
      if Touches(s[p], s[k]) {
        var t := MergedDown(s, p, k);
        MergedDownShape(s, p, k);
        MergedDownKeeps(s, p, k, 0xFFFF_FFE0);
        JoinsDown(s, p, k, dev, dataEnd);
        KeepsCoverExactly(t, k, p, dev, dataEnd);
        CoverComposes(s, t, Merged(t, k, p, dev, dataEnd).items);
      } else {
        GapDownShows(s, p, k, dev, dataEnd);
        NoTouchDownFails(s, p, k, dev, dataEnd);
      }
    } else {
      JoinsOn(s, k, p, dev, dataEnd);
      KeepsCoverExactly(s, k + 1, if s[k].length > 0 then k else p, dev, dataEnd);
    }
  }

  lemma CoverRefl(s: seq<UMap>)
    ensures SameCover(s, s)
  {
  }

  lemma LastJoins(s: seq<UMap>, dev: nat, dataEnd: nat)
    requires s != [] && AtDev(s[|s| - 1], dev)
    ensures Joins(s, |s| - 1, dev, dataEnd)
  {
  }

  lemma NoTouchUpFails(s: seq<UMap>, k: nat, dev: nat, dataEnd: nat)
    requires k + 1 < |s| && AtDev(s[k], dev) && !Touches(s[k], s[k + 1])
    ensures !Joins(s, k, dev, dataEnd)
  {
    assert Opens(s, k, k, dev, dataEnd) && Crowded(s, k, k, dev);
  }

  lemma NoTouchDownFails(s: seq<UMap>, p: nat, k: nat, dev: nat, dataEnd: nat)
    requires p < k < |s| && Follows(s, p, k) && GoesDown(s[k], dev, dataEnd) && !Touches(s[p], s[k])
    ensures !Joins(s, k, dev, dataEnd)
  {
  }

  /** What the run leaves when its merges join touching items: a map in order, no higher than
      before, in which a short item below the end of the data area is not at the start of the device
      area and has only empty items before it. */
  ghost predicate Tidy(s: seq<UMap>, k: nat, dev: nat, dataEnd: nat)
    requires k <= |s|
  {
    forall j: nat :: (j < k && 0 < s[j].length < 32 && s[j].faddr < dataEnd) ==> s[j].faddr != dev && EmptyBefore(s, j)
  }

  ghost predicate EmptyBefore(s: seq<UMap>, j: nat)
    requires j <= |s|
  {
    forall i: nat :: i < j ==> s[i].length == 0
  }

  lemma TidyDown(s: seq<UMap>, p: nat, k: nat, dev: nat, dataEnd: nat)
    requires p < k < |s| && Tidy(s, k, dev, dataEnd) && s[p].length > 0
    ensures Tidy(MergedDown(s, p, k), k, dev, dataEnd)
  {
    hide MergedDown;
    MergedDownShape(s, p, k);
    var t := MergedDown(s, p, k);
    forall j: nat | j < k && Short(t[j]) && t[j].faddr < dataEnd ensures t[j].faddr != dev && EmptyBefore(t, j) {
      assert Short(s[j]) && EmptyBefore(s, j);
    }
  }

  lemma TidyUp(s: seq<UMap>, k: nat, dev: nat, dataEnd: nat)
    requires k + 1 < |s| && Tidy(s, k, dev, dataEnd)
    ensures Tidy(MergedUp(s, k), k, dev, dataEnd)
  {
    hide MergedUp;
    MergedUpShape(s, k);
    var t := MergedUp(s, k);
    forall j: nat | j < k && Short(t[j]) && t[j].faddr < dataEnd ensures t[j].faddr != dev && EmptyBefore(t, j) {
      assert Short(s[j]) && EmptyBefore(s, j);
    }
  }

  lemma TidyOn(s: seq<UMap>, k: nat, p: int, dev: nat, dataEnd: nat)
    requires Ready(s, k, p, dev) && k < |s| && Tidy(s, k, dev, dataEnd)
    requires !AtDev(s[k], dev) && !(p >= 0 && Short(s[k]))
    ensures Tidy(s, k + 1, dev, dataEnd)
  {
  }

  lemma TidyEnd(s: seq<UMap>, k: nat, dev: nat, dataEnd: nat)
    requires Orderly(s) && k <= |s| && Tidy(s, k, dev, dataEnd) && (k < |s| ==> s[k].faddr >= dataEnd)
    ensures Tidy(s, |s|, dev, dataEnd)
  {
    forall j: nat | k <= j < |s| ensures s[j].faddr >= dataEnd {
      if j > k {
        OrderAt(s, k, j);
      }
    }
  }

  lemma {:induction false} JoiningTidies(s: seq<UMap>, k: nat, p: int, dev: nat, dataEnd: nat, b: nat)
    requires Ready(s, k, p, dev) && Joins(s, k, dev, dataEnd) && Tidy(s, k, dev, dataEnd) && Below(s, b)
    ensures var r := Merged(s, k, p, dev, dataEnd);
      Orderly(r.items) && Below(r.items, b) && (r.ok ==> Tidy(r.items, |r.items|, dev, dataEnd))
    decreases |s| - k
  {
    hide MergedUp, MergedDown, SameCover, Joins, Below, Orderly, Tidy;
    if k == |s| {
    } else if AtDev(s[k], dev) {
      if k + 1 < |s| {
        if !Touches(s[k], s[k + 1]) {
          NoTouchUpFails(s, k, dev, dataEnd);
        }
        MergedUpShape(s, k);
        MergedUpKeeps(s, k, b);
        JoinsUp(s, k, dev, dataEnd);
        TidyUp(s, k, dev, dataEnd);
        JoiningTidies(MergedUp(s, k), k, -1, dev, dataEnd, b);
      }
    } else if s[k].faddr >= dataEnd {
      TidyEnd(s, k, dev, dataEnd);
    } else if p >= 0 && Short(s[k]) {
      if !Touches(s[p], s[k]) {
        NoTouchDownFails(s, p, k, dev, dataEnd);
      }
      MergedDownShape(s, p, k);
      MergedDownKeeps(s, p, k, b);
      JoinsDown(s, p, k, dev, dataEnd);
      TidyDown(s, p, k, dev, dataEnd);
      JoiningTidies(MergedDown(s, p, k), k, p, dev, dataEnd, b);
    } else {
      JoinsOn(s, k, p, dev, dataEnd);
      TidyOn(s, k, p, dev, dataEnd);
      JoiningTidies(s, k + 1, if s[k].length > 0 then k else p, dev, dataEnd, b);
    }
  }

  // ----- when the run goes wrong -----

  /** From item u to the end of the map each item touches the next and ends within 32 bytes of the
      start of the device area. */
  ghost predicate Packed(s: seq<UMap>, u: nat, dev: nat)
    requires u < |s|
  {
    Crowded(s, u, |s| - 1, dev) && forall m: nat :: (u <= m && m + 1 < |s|) ==> Touches(s[m], s[m + 1])
  }

  /** The run comes to a short item at the start of the device area that is packed to the end. */
  ghost predicate Stuck(s: seq<UMap>, i: nat, dev: nat, dataEnd: nat) {
    exists u: nat :: i <= u < |s| && Opens(s, i, u, dev, dataEnd) && Packed(s, u, dev)
  }

  lemma StuckOn(s: seq<UMap>, k: nat, dev: nat, dataEnd: nat)
    requires k < |s| && !AtDev(s[k], dev) && s[k].faddr < dataEnd
    ensures Stuck(s, k, dev, dataEnd) <==> Stuck(s, k + 1, dev, dataEnd)
  {
    if Stuck(s, k, dev, dataEnd) {
      var u: nat :| k <= u < |s| && Opens(s, k, u, dev, dataEnd) && Packed(s, u, dev);
      assert Opens(s, k + 1, u, dev, dataEnd);
    }
    if Stuck(s, k + 1, dev, dataEnd) {
      var u: nat :| k + 1 <= u < |s| && Opens(s, k + 1, u, dev, dataEnd) && Packed(s, u, dev);
      assert Opens(s, k, u, dev, dataEnd);
    }
  }

  lemma StuckAt(s: seq<UMap>, k: nat, dev: nat, dataEnd: nat)
    requires Orderly(s) && k < |s| && s[k].faddr == dev && s[k].length > 0
    ensures Stuck(s, k, dev, dataEnd) <==> Packed(s, k, dev)
  {
    if Stuck(s, k, dev, dataEnd) {
      var u: nat :| k <= u < |s| && Opens(s, k, u, dev, dataEnd) && Packed(s, u, dev);
      OneAtDev(s, k, u, dev);
    }
    if Packed(s, k, dev) {
      assert End(s[k]) < dev + 32;
      assert Opens(s, k, k, dev, dataEnd);
    }
  }

  lemma PackedUp(s: seq<UMap>, t: seq<UMap>, k: nat, dev: nat)
    requires k + 1 < |s| && End(s[k]) < dev + 32 && Touches(s[k], s[k + 1]) && k + 1 <= |t| == |s| - 1
    requires End(t[k]) == End(s[k + 1]) && forall j: nat {:trigger t[j]} :: k < j < |t| ==> t[j] == s[j + 1]
    ensures Packed(s, k, dev) <==> Packed(t, k, dev)
  {
    assert forall j: nat {:trigger s[j]} :: k + 1 < j < |s| ==> s[j] == t[j - 1];
    if Packed(s, k, dev) {
      assert End(s[k + 1]) < dev + 32;
      forall m: nat | k <= m && m + 1 < |t| ensures Touches(t[m], t[m + 1]) {
        assert Touches(s[m + 1], s[m + 1 + 1]);
      }
    }
    if Packed(t, k, dev) {
      assert End(t[k]) < dev + 32;
      forall m: nat | k <= m && m + 1 < |s| ensures Touches(s[m], s[m + 1]) {
        if m > k {
          assert Touches(t[m - 1], t[m - 1 + 1]);
        }
      }
    }
  }

  lemma {:induction false} NeverOpens(s: seq<UMap>, k: nat, p: int, dev: nat, dataEnd: nat)
    requires -1 <= p < k <= |s|
    requires forall j: nat {:trigger s[j]} :: k <= j < |s| ==> !AtDev(s[j], dev)
    ensures Merged(s, k, p, dev, dataEnd).ok
    decreases |s| - k
  {
    hide MergedDown;
    if k < |s| && s[k].faddr < dataEnd {
      if p >= 0 && Short(s[k]) {
        MergedDownShape(s, p, k);
        NeverOpens(MergedDown(s, p, k), k, p, dev, dataEnd);
      } else {
        NeverOpens(s, k + 1, if s[k].length > 0 then k else p, dev, dataEnd);
      }
    }
  }

  lemma MergeDown(s: seq<UMap>, k: nat, p: int, dev: nat, dataEnd: nat)
    requires 0 <= p < k < |s| && !AtDev(s[k], dev) && s[k].faddr < dataEnd && Short(s[k])
    ensures Merged(s, k, p, dev, dataEnd) == Merged(MergedDown(s, p, k), k, p, dev, dataEnd)
  {
  }

  lemma MergeNone(s: seq<UMap>, k: nat, p: int, dev: nat, dataEnd: nat)
    requires -1 <= p < k < |s| && !AtDev(s[k], dev) && s[k].faddr < dataEnd && !(p >= 0 && Short(s[k]))
    ensures Merged(s, k, p, dev, dataEnd) == Merged(s, k + 1, if s[k].length > 0 then k else p, dev, dataEnd)
  {
  }

  lemma MergeEnds(s: seq<UMap>, k: nat, p: int, dev: nat, dataEnd: nat)
    requires -1 <= p < k <= |s|
    requires k < |s| ==> if AtDev(s[k], dev) then k + 1 == |s| else s[k].faddr >= dataEnd
    ensures Merged(s, k, p, dev, dataEnd) == Outcome(k == |s| || !AtDev(s[k], dev), s)
  {
  }

  /** An item is merged down or passed: the run goes on with the items after it. */
  lemma PassItem(s: seq<UMap>, k: nat, p: int, dev: nat, dataEnd: nat) returns (t: seq<UMap>, j: nat, q: int)
    requires -1 <= p < k < |s| && !AtDev(s[k], dev) && s[k].faddr < dataEnd
    ensures -1 <= q < j <= |t| && |t| - j == |s| - k - 1
    ensures Merged(s, k, p, dev, dataEnd) == Merged(t, j, q, dev, dataEnd)
    ensures forall m: nat {:trigger t[m]} :: j <= m < |t| ==> t[m] == s[m - j + k + 1]
  {
    hide Merged, MergedDown;
    if p >= 0 && Short(s[k]) {
      MergedDownShape(s, p, k);
      MergeDown(s, k, p, dev, dataEnd);
      t, j, q := MergedDown(s, p, k), k, p;
    } else {
      MergeNone(s, k, p, dev, dataEnd);
      t, j, q := s, k + 1, if s[k].length > 0 then k else p;
    }
  }

  lemma MergeUp(s: seq<UMap>, k: nat, p: int, dev: nat, dataEnd: nat)
    requires -1 <= p < k && k + 1 < |s| && AtDev(s[k], dev)
    ensures Merged(s, k, p, dev, dataEnd) == Merged(MergedUp(s, k), k, -1, dev, dataEnd)
  {
  }

  /** Whether the run goes wrong depends on the items ahead only. */
  lemma {:induction false} AheadDecides(s: seq<UMap>, k: nat, p: int, t: seq<UMap>, j: nat, q: int, dev: nat, dataEnd: nat)
    requires -1 <= p < k <= |s| && -1 <= q < j <= |t| && |s| - k == |t| - j
    requires forall m: nat {:trigger t[m]} :: j <= m < |t| ==> t[m] == s[m - j + k]
    ensures Merged(s, k, p, dev, dataEnd).ok == Merged(t, j, q, dev, dataEnd).ok
    decreases |s| - k
  {
    if k < |s| {
      assert t[j] == s[k];
      if AtDev(s[k], dev) {
        if k + 1 < |s| {
          hide MergedUp, Merged;
          assert t[j + 1] == s[k + 1];
          MergedUpShape(s, k);
          MergedUpShape(t, j);
          MergeUp(s, k, p, dev, dataEnd);
          MergeUp(t, j, q, dev, dataEnd);
          AheadDecides(MergedUp(s, k), k, -1, MergedUp(t, j), j, -1, dev, dataEnd);
        }
      } else if s[k].faddr < dataEnd {
        hide Merged;
        var s1, k1, p1 := PassItem(s, k, p, dev, dataEnd);
        var t1, j1, q1 := PassItem(t, j, q, dev, dataEnd);
        AheadDecides(s1, k1, p1, t1, j1, q1, dev, dataEnd);
      }
    }
  }

  lemma PassDecides(s: seq<UMap>, k: nat, p: int, dev: nat, dataEnd: nat)
    requires -1 <= p < k < |s| && !AtDev(s[k], dev) && s[k].faddr < dataEnd
    ensures Merged(s, k, p, dev, dataEnd).ok == Merged(s, k + 1, p, dev, dataEnd).ok
  {
    hide Merged;
    var t, j, q := PassItem(s, k, p, dev, dataEnd);
    AheadDecides(s, k + 1, p, t, j, q, dev, dataEnd);
  }

  /** From a map in order the run goes wrong exactly when it comes to a short item at the start of
      the device area that is packed to the end of the map. */
  lemma {:induction false} GoesWrongExactly(s: seq<UMap>, k: nat, p: int, dev: nat, dataEnd: nat)
    requires Orderly(s) && Below(s, 0xFFFF_FFE0) && -1 <= p < k <= |s|
    ensures !Merged(s, k, p, dev, dataEnd).ok <==> Stuck(s, k, dev, dataEnd)
    decreases |s| - k
  {
    hide Merged, MergedUp, SameCover, Below, Orderly, Stuck, Packed;
    if k == |s| {
      MergeEnds(s, k, p, dev, dataEnd);
      NotStuck(s, k, dev, dataEnd);
    } else if AtDev(s[k], dev) {
      StuckAt(s, k, dev, dataEnd);
      if k + 1 == |s| {
        MergeEnds(s, k, p, dev, dataEnd);
        LastPacked(s, dev);
      } else {
        MergedUpShape(s, k);
        MergeUp(s, k, p, dev, dataEnd);
        var t := MergedUp(s, k);
        if Touches(s[k], s[k + 1]) {
          MergedUpKeeps(s, k, 0xFFFF_FFE0);
          PackedUp(s, t, k, dev);
          StuckAt(t, k, dev, dataEnd);
          GoesWrongExactly(t, k, -1, dev, dataEnd);
        } else {
          LeavesDev(s, k, dev);
          NeverOpens(t, k, -1, dev, dataEnd);
          NotPacked(s, k, dev);
        }
      }
    } else if s[k].faddr >= dataEnd {
      MergeEnds(s, k, p, dev, dataEnd);
      NotStuck(s, k, dev, dataEnd);
    } else {
      StuckOn(s, k, dev, dataEnd);
      PassDecides(s, k, p, dev, dataEnd);
      GoesWrongExactly(s, k + 1, p, dev, dataEnd);
    }
  }

  lemma NotStuck(s: seq<UMap>, k: nat, dev: nat, dataEnd: nat)
    requires Orderly(s) && k <= |s|
    requires k < |s| ==> !AtDev(s[k], dev) && s[k].faddr >= dataEnd
    ensures !Stuck(s, k, dev, dataEnd)
  {
    forall u: nat | k <= u < |s| ensures !Opens(s, k, u, dev, dataEnd) {
      if k < u - 1 {
        OrderAt(s, k, u - 1);
      }
    }
  }

  lemma LastPacked(s: seq<UMap>, dev: nat)
    requires s != [] && AtDev(s[|s| - 1], dev)
    ensures Packed(s, |s| - 1, dev)
  {
  }

  lemma NotPacked(s: seq<UMap>, k: nat, dev: nat)
    requires k + 1 < |s| && !Touches(s[k], s[k + 1])
    ensures !Packed(s, k, dev)
  {
  }

  /** After a merge across a gap nothing short is left at the start of the device area. */
  lemma LeavesDev(s: seq<UMap>, k: nat, dev: nat)
    requires Orderly(s) && Below(s, 0xFFFF_FFE0)
    requires k + 1 < |s| && AtDev(s[k], dev) && !Touches(s[k], s[k + 1])
    ensures var t := MergedUp(s, k); forall j: nat {:trigger t[j]} :: k <= j < |t| ==> !AtDev(t[j], dev)
  {
    hide MergedUp;
    MergedUpShape(s, k);
    var t := MergedUp(s, k);
    OrderAt(s, k, k + 1);
    assert End(s[k]) <= 0xFFFF_FFE0;
    forall j: nat | k <= j < |t| ensures !AtDev(t[j], dev) {
      if j > k {
        OrderAt(s, k, j + 1);
      } else if s[k + 1].faddr < End(s[k]) {
        StretchedStart(s[k + 1].faddr, s[k].length, dev);
      }
    }
  }

  /** What a whole run does, from its first item. */
  lemma MergedPromises(s: seq<UMap>, dev: nat, dataEnd: nat)
    ensures var r := Merged(s, 0, -1, dev, dataEnd);
      && TotalLength(r.items) == TotalLength(s) && OwnersKept(s, r.items)
      && (Orderly(s) && Below(s, 0xFFFF_FFE0) ==>
            && (SameCover(s, r.items) <==> Joins(s, 0, dev, dataEnd))
            && (!r.ok <==> Stuck(s, 0, dev, dataEnd)))
      && (Orderly(s) && Joins(s, 0, dev, dataEnd) ==>
            && Orderly(r.items) && (forall b: nat :: Below(s, b) ==> Below(r.items, b))
            && (r.ok ==> Tidy(r.items, |r.items|, dev, dataEnd)))
  {
    hide Merged, SameCover, Joins, Stuck, Below, Orderly, TotalLength, Tidy, OwnersKept;
    MergedLength(s, 0, -1, dev, dataEnd);
    MergedOwners(s, 0, -1, dev, dataEnd);
    if Orderly(s) && Below(s, 0xFFFF_FFE0) {
      KeepsCoverExactly(s, 0, -1, dev, dataEnd);
      GoesWrongExactly(s, 0, -1, dev, dataEnd);
    }
    if Orderly(s) && Joins(s, 0, dev, dataEnd) {
      TidyAtFirst(s, dev, dataEnd);
      forall b: nat | Below(s, b)
        ensures Below(Merged(s, 0, -1, dev, dataEnd).items, b) {
        JoiningTidies(s, 0, -1, dev, dataEnd, b);
      }
      var b := SomeBound(s);
      JoiningTidies(s, 0, -1, dev, dataEnd, b);
    }
  }

  lemma TidyAtFirst(s: seq<UMap>, dev: nat, dataEnd: nat)
    ensures Tidy(s, 0, dev, dataEnd)
  {
  }

  lemma {:induction false} SomeBound(s: seq<UMap>) returns (b: nat)
    ensures Below(s, b)
    decreases |s|
  {
    b := 0;
    if s != [] {
      var c := SomeBound(s[..|s| - 1]);
      b := c + End(s[|s| - 1]);
      assert forall k: nat {:trigger s[k]} :: k < |s| - 1 ==> s[k] == s[..|s| - 1][k];
    }
  }

  /** `map_shortitems`: the total length never changes, and items absorb short ones only.  From a map in order, none of it in the last
      bytes that 32 bits can address, the run goes wrong exactly when it is `Stuck`, and the
      addresses covered stay the same exactly when every merge joins touching items; the map then
      stays in order and no short item is left that has an item before it to go to. */
  method MapShortItems(umlist: UMapList, dev: nat, dataEnd: nat) returns (ok: bool)
    modifies umlist
    ensures Outcome(ok, umlist.items) == Merged(old(umlist.items), 0, -1, dev, dataEnd)
    ensures TotalLength(umlist.items) == TotalLength(old(umlist.items))
    ensures OwnersKept(old(umlist.items), umlist.items)
    ensures Orderly(old(umlist.items)) && Below(old(umlist.items), 0xFFFF_FFE0) ==>
      && (SameCover(old(umlist.items), umlist.items) <==> Joins(old(umlist.items), 0, dev, dataEnd))
      && (!ok <==> Stuck(old(umlist.items), 0, dev, dataEnd))
    ensures Orderly(old(umlist.items)) && Joins(old(umlist.items), 0, dev, dataEnd) ==>
      && Orderly(umlist.items) && (forall b: nat :: Below(old(umlist.items), b) ==> Below(umlist.items, b))
      && (ok ==> Tidy(umlist.items, |umlist.items|, dev, dataEnd))
  {
    hide SameCover, Joins, Stuck, Below, Orderly, TotalLength, Tidy, MergedUp, MergedDown, OwnersKept;
    MergedPromises(umlist.items, dev, dataEnd);
    var k, p := 0, -1;
    while k < |umlist.items|
      invariant -1 <= p < k <= |umlist.items|
      invariant Merged(umlist.items, k, p, dev, dataEnd) == Merged(old(umlist.items), 0, -1, dev, dataEnd)
      decreases |umlist.items| - k
    {
      var x := umlist.items[k];
      if x.faddr == dev && Short(x) {
        if k + 1 == |umlist.items| {
          return false;
        }
        MergedUpShape(umlist.items, k);
        umlist.items := MergedUp(umlist.items, k);
        p := -1;
        continue;
      }
      if x.faddr >= dataEnd {
        break;
      }
      if p >= 0 && Short(x) {
        MergedDownShape(umlist.items, p, k);
        umlist.items := MergedDown(umlist.items, p, k);
      } else {
        if x.length > 0 {
          p := k;
        }
        k := k + 1;
      }
    }
    ok := true;
  }

  /** Order and coverage can be lost: an empty item right after a short one at the start of the
      device area is stretched over the end of the item below.  The map is sorted and disjoint and has
      no empty fragment, which is all that the steps before see to. */
  lemma EmptyNextOverlaps(s: seq<UMap>, dataEnd: nat)
    requires |s| == 3 && s[0].faddr == 0 && s[0].length == 1024
    requires s[1].faddr == 1024 && s[1].length == 16 && s[1].layer < s[2].layer
    requires s[2].faddr == 1024 && s[2].length == 0 && !s[2].frag
    requires dataEnd > 0
    ensures Ordered(s) && Orderly(s) && forall x :: x in s ==> !EmptyFragment(x)
    ensures var r := Merged(s, 0, -1, 1024, dataEnd); r.ok && !Disjoint(r.items) && !SameCover(s, r.items)
  {
    hide MergedUp;
    var t := MergedUp(s, 1);
    MergedUpShape(s, 1);
    MergeNone(s, 0, -1, 1024, dataEnd);
    MergeUp(s, 1, 0, 1024, dataEnd);
    assert Merged(t, 1, -1, 1024, dataEnd) == Outcome(true, t);
    assert !Apart(t[0], t[1]);
    assert Covers(s[1], 1024);
    assert Covered(s, 1024) && !Covered(t, 1024);
  }
}
