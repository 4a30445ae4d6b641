/** The scan of `fix_overlap` (ASQENG/MAPINFO.C): which overlaps it reaches, why it may stop
    early, and why starting over comes to an end. */
module MapFix {
  import opened MapMarks
  import opened MapOverlap
  import opened UMaps

  /** Nothing before index i overlaps anything. */
  ghost predicate DoneBefore(s: seq<UMap>, i: nat) {
    forall j, k :: 0 <= j < k < |s| && j < i ==> Apart(s[j], s[k])
  }

  /** Position p is out of order, and nothing from i up to p can hide that: each of these
      items is empty, ends before its successor starts, or starts at or after p. */
  ghost predicate OutOfOrderAt(s: seq<UMap>, i: nat, p: nat) {
    i <= p < |s| - 1 && s[p].length > 0 && s[p].faddr > s[p + 1].faddr
    && forall k :: i <= k < p ==> Harmless(s, p, k)
  }

  ghost predicate Harmless(s: seq<UMap>, p: nat, k: nat)
    requires k < p < |s|
  {
    s[k].length == 0 || End(s[k]) <= s[k + 1].faddr || s[p].faddr <= s[k].faddr
  }

  /** A pass that reaches index i in this state is bound to sort and start over. */
  ghost predicate Doomed(s: seq<UMap>, i: nat) {
    exists p :: OutOfOrderAt(s, i, p)
  }

  /** What holds each time the outer loop comes to index i. */
  ghost predicate PassState(s: seq<UMap>, i: nat) {
    Doomed(s, i) || (DoneBefore(s, i) && Ascending(s, i))
  }

  /** Every item of t lies inside the item of s at the same index. */
  ghost predicate ShrinksTo(s: seq<UMap>, t: seq<UMap>) {
    |s| == |t|
    && forall k :: 0 <= k < |s| ==> s[k].faddr <= t[k].faddr && End(t[k]) <= End(s[k])
  }

  ghost predicate SamePlaces(s: seq<UMap>, t: seq<UMap>) {
    |s| == |t|
    && forall k :: 0 <= k < |s| ==> s[k].faddr == t[k].faddr && s[k].length == t[k].length
  }

  /** The inner loop at index j, comparing item i with its successors, in a list `s0` that was
      ascending from i.  Inspected items are emptied in place, pushed to the end of item i, or
      apart from item i in a way that leaves no gap in the order. */
  ghost predicate ScanState(s0: seq<UMap>, s: seq<UMap>, i: nat, j: nat)
    requires i < j <= |s0| && |s| == |s0|
  {
    && End(s[i]) <= End(s0[i])
    && (End(s[i]) == End(s0[i]) || (j < |s0| ==> End(s[i]) <= s0[j].faddr))
    && (forall k :: j <= k < |s| ==> s[k] == s0[k])
    && forall k :: i < k < j ==> Inspected(s0, s, i, j, k)
  }

  ghost predicate Inspected(s0: seq<UMap>, s: seq<UMap>, i: nat, j: nat, k: nat)
    requires i < k < j <= |s0| && |s| == |s0|
  {
    || (s[k].length == 0 && s[k].faddr == s0[k].faddr)
    || (s[k].length > 0 && s[k].faddr == End(s0[i]))
    || (s[k].length > 0 && s[k].faddr == s0[k].faddr && End(s[k]) == End(s0[k])
        && ((End(s[k]) <= s[i].faddr && (k + 1 < |s0| ==> End(s[k]) <= s0[k + 1].faddr))
            || (k == j - 1 && (End(s[i]) <= s[k].faddr || End(s[k]) == s[i].faddr))))
  }

  /** The same loop in a list that is out of order at p. */
  ghost predicate DoomedScan(s0: seq<UMap>, s: seq<UMap>, i: nat, j: nat, p: nat)
    requires i < p < |s0| - 1 && j <= |s0| && |s| == |s0|
  {
    && j <= p + 1
    && s0[p].faddr <= s[i].faddr
    && (forall k :: j <= k < |s| ==> s[k] == s0[k])
    && forall k :: i < k < j ==>
      s[k].length == 0 || s0[p].faddr <= s[k].faddr
      || (s[k].faddr == s0[k].faddr && s[k].length == s0[k].length)
  }

  lemma AscendingScanEnds(s0: seq<UMap>, s: seq<UMap>, i: nat, j: nat)
    requires i < j <= |s0| && |s| == |s0|
    requires Ascending(s0, i) && DoneBefore(s0, i) && ShrinksTo(s0, s)
    requires ScanState(s0, s, i, j)
    requires j < |s0| ==> s[i].faddr <= s0[j].faddr
    requires j < |s0| ==> End(s[i]) <= s0[j].faddr
    ensures PassState(s, i + 1)
  {
    forall a, b | 0 <= a < b < |s| && a < i + 1 ensures Apart(s[a], s[b]) {
      if a == i && b < j {
        assert Inspected(s0, s, i, j, b);
      } else if a < i {
        assert Apart(s0[a], s0[b]);
      }
    }
    if forall k :: i + 1 < k < |s| ==> s[k - 1].faddr <= s[k].faddr {
      AscendingFromNeighbours(s, i + 1);
    } else {
      var p := FirstDrop(s, i + 1);
      if p < j {
        assert Inspected(s0, s, i, j, p);
      }
      assert s[p].faddr == End(s0[i]);
      forall k | i + 1 <= k < p ensures Harmless(s, p, k) {
        assert Inspected(s0, s, i, j, k);
      }
      assert OutOfOrderAt(s, i + 1, p);
    }
  }

  lemma {:induction false} FirstDrop(s: seq<UMap>, i: nat) returns (p: nat)
    requires exists k :: i < k < |s| && s[k - 1].faddr > s[k].faddr
    ensures i <= p < |s| - 1 && s[p].faddr > s[p + 1].faddr
    decreases |s| - i
  {
    if s[i].faddr > s[i + 1].faddr {
      p := i;
    } else {
      assert forall k :: i < k < |s| && s[k - 1].faddr > s[k].faddr ==> k != i + 1;
      p := FirstDrop(s, i + 1);
    }
  }

  lemma DoomedScanEnds(s0: seq<UMap>, s: seq<UMap>, i: nat, j: nat, p: nat)
    requires OutOfOrderAt(s0, i, p) && i < p && i < j <= |s0| && |s| == |s0|
    requires ShrinksTo(s0, s) && DoomedScan(s0, s, i, j, p) && j <= p
    ensures PassState(s, i + 1)
  {
    forall k | i + 1 <= k < p ensures Harmless(s, p, k) {
      assert Harmless(s0, p, k);
    }
    assert OutOfOrderAt(s, i + 1, p);
  }

  /** The item that gives way when items i and j meet, and the one it gives way to. */
  function Upper(s: seq<UMap>, i: nat, j: nat): nat
    requires i < |s| && j < |s|
  {
    if s[i].layer >= s[j].layer then i else j
  }

  function Lower(s: seq<UMap>, i: nat, j: nat): nat
    requires i < |s| && j < |s|
  {
    if s[i].layer >= s[j].layer then j else i
  }

  /** How a cut without a split moves items i and j, when item j starts inside item i: the
      later item is emptied or starts at the end of the earlier one, or the earlier one is
      emptied, starts at the end of the later one, or ends at its start. */
  ghost predicate CutEffect(s: seq<UMap>, t: seq<UMap>, i: nat, j: nat)
    requires i < j < |s|
  {
    && |t| == |s|
    && (forall k :: 0 <= k < |s| && k != i && k != j ==> t[k] == s[k])
    && ((t[i].faddr == s[i].faddr && t[i].length == s[i].length
         && ((t[j].length == 0 && t[j].faddr == s[j].faddr)
             || (t[j].length > 0 && t[j].faddr == End(s[i]) && End(t[j]) == End(s[j]))))
        || (t[j].faddr == s[j].faddr && t[j].length == s[j].length
            && ((t[i].length == 0 && t[i].faddr == s[i].faddr == s[j].faddr && End(s[i]) <= End(s[j]))
                || (t[i].length > 0 && s[i].faddr == s[j].faddr && t[i].faddr == End(s[j]) && End(t[i]) == End(s[i]))
                || (t[i].length > 0 && t[i].faddr == s[i].faddr && End(t[i]) == s[j].faddr && End(s[i]) <= End(s[j])))))
  }

  lemma CutHasEffect(s: seq<UMap>, i: nat, j: nat)
    requires i < j < |s| && s[i].faddr <= s[j].faddr < End(s[i])
    requires Trim(s[Upper(s, i, j)], s[Lower(s, i, j)]).One?
    ensures CutEffect(s, CutList(s, Upper(s, i, j), Lower(s, i, j)), i, j)
  {
  }

  lemma ShrinksFurther(s0: seq<UMap>, s: seq<UMap>, t: seq<UMap>, i: nat, j: nat)
    requires i < j < |s| && s[i].faddr <= s[j].faddr < End(s[i])
    requires ShrinksTo(s0, s) && CutEffect(s, t, i, j)
    ensures ShrinksTo(s0, t)
  {
  }

  lemma AscendingScanStep(s0: seq<UMap>, s: seq<UMap>, t: seq<UMap>, i: nat, j: nat)
    requires i < j < |s0| && |s| == |s0|
    requires Ascending(s0, i) && ScanState(s0, s, i, j)
    requires s[i].faddr <= s[j].faddr < End(s[i]) && CutEffect(s, t, i, j)
    ensures ScanState(s0, t, i, j + 1)
  {
    assert End(s[i]) == End(s0[i]);
    assert s[j] == s0[j];
    forall k {:trigger t[k]} | i < k < j + 1 ensures Inspected(s0, t, i, j + 1, k) {
      if k < j {
        assert Inspected(s0, s, i, j, k);
        assert s0[k + 1].faddr <= s0[j].faddr;
      }
    }
  }

  lemma DoomedScanStep(s0: seq<UMap>, s: seq<UMap>, t: seq<UMap>, i: nat, j: nat, p: nat)
    requires i < j < |s0| && |s| == |s0|
    requires OutOfOrderAt(s0, i, p) && i < p && DoomedScan(s0, s, i, j, p)
    requires s[i].faddr <= s[j].faddr < End(s[i]) && CutEffect(s, t, i, j)
    ensures DoomedScan(s0, t, i, j + 1, p)
  {
    assert j < p + 1;
  }

  /** What a run of cuts and sorts has kept of the list it began with. */
  ghost predicate Repaints(s0: seq<UMap>, s: seq<UMap>) {
    && SameSkyline(s0, s) && PiecesOf(s, s0) && TotalWeight(s) <= TotalWeight(s0)
    && Intact(s, s0) && Stays(s0, s)
  }

  lemma RepaintsReflexive(s: seq<UMap>)
    ensures Repaints(s, s)
  {
    hide Intact, Stays;
    PiecesReflexive(s);
    MarksReflexive(s);
  }

  lemma RepaintsCompose(s: seq<UMap>, t: seq<UMap>, u: seq<UMap>)
    requires Repaints(s, t) && Repaints(t, u)
    ensures Repaints(s, u)
  {
    hide PiecesOf, Intact, Stays, TotalWeight;
    PiecesCompose(u, t, s);
    IntactComposes(u, t, s);
    StaysCompose(s, t, u);
  }

  lemma SortStep(s0: seq<UMap>, s: seq<UMap>, t: seq<UMap>)
    requires multiset(s) == multiset(t) && Repaints(s0, s)
    ensures Repaints(s0, t) && TotalWeight(t) == TotalWeight(s)
  {
    hide SameSkyline, PiecesOf, Intact, Stays, TotalWeight;
    PermutedKeeps(s, t);
    PermutedKeeps(t, s);
    PermutedIntact(s, t);
    PermutedStays(s, t);
    RepaintsCompose(s0, s, t);
  }

  /** The inner loop's invariant on positions, in a pass that began item i with the list s0. */
  ghost predicate ScanMode(s0: seq<UMap>, s: seq<UMap>, i: nat, j: nat)
    requires i < j <= |s0| == |s|
  {
    || (Ascending(s0, i) && DoneBefore(s0, i) && ScanState(s0, s, i, j))
    || (exists p :: OutOfOrderAt(s0, i, p) && i < p && DoomedScan(s0, s, i, j, p))
    || (Doomed(s0, i + 1) && End(s0[i]) <= s0[i + 1].faddr && j == i + 1 && s == s0)
  }

  lemma ScanBegins(s0: seq<UMap>, i: nat)
    requires i + 1 < |s0| && s0[i].length > 0 && s0[i].faddr <= s0[i + 1].faddr && PassState(s0, i)
    ensures ScanMode(s0, s0, i, i + 1)
  {
    if Doomed(s0, i) {
      var p :| OutOfOrderAt(s0, i, p);
      assert Harmless(s0, p, i);
      if End(s0[i]) <= s0[i + 1].faddr {
        assert OutOfOrderAt(s0, i + 1, p);
      } else {
        assert DoomedScan(s0, s0, i, i + 1, p);
      }
    }
  }

  lemma ScanContinues(s0: seq<UMap>, s: seq<UMap>, t: seq<UMap>, i: nat, j: nat)
    requires i < j < |s0| == |s| && ScanMode(s0, s, i, j)
    requires s[i].faddr <= s[j].faddr < End(s[i]) && CutEffect(s, t, i, j)
    ensures ScanMode(s0, t, i, j + 1)
  {
    if Ascending(s0, i) && DoneBefore(s0, i) && ScanState(s0, s, i, j) {
      AscendingScanStep(s0, s, t, i, j);
    } else {
      var p :| OutOfOrderAt(s0, i, p) && i < p && DoomedScan(s0, s, i, j, p);
      DoomedScanStep(s0, s, t, i, j, p);
    }
  }

  lemma ScanEnds(s0: seq<UMap>, s: seq<UMap>, i: nat, j: nat)
    requires i < j <= |s0| == |s| && ScanMode(s0, s, i, j) && ShrinksTo(s0, s)
    requires j < |s0| ==> s[i].faddr <= s[j].faddr && End(s[i]) <= s[j].faddr
    ensures PassState(s, i + 1)
  {
    if Ascending(s0, i) && DoneBefore(s0, i) && ScanState(s0, s, i, j) {
      AscendingScanEnds(s0, s, i, j);
    } else if exists p :: OutOfOrderAt(s0, i, p) && i < p && DoomedScan(s0, s, i, j, p) {
      var p :| OutOfOrderAt(s0, i, p) && i < p && DoomedScan(s0, s, i, j, p);
      DoomedScanEnds(s0, s, i, j, p);
    }
  }

  /** The inner loop's whole invariant. */
  ghost predicate Scanning(s0: seq<UMap>, s: seq<UMap>, i: nat, j: nat)
    requires i < j <= |s0|
  {
    && Repaints(s0, s) && ShrinksTo(s0, s)
    && (TotalWeight(s) < TotalWeight(s0) || SamePlaces(s0, s))
    && ScanMode(s0, s, i, j)
  }

  lemma ScanningBegins(s0: seq<UMap>, i: nat)
    requires i + 1 < |s0| && s0[i].length > 0 && s0[i].faddr <= s0[i + 1].faddr && PassState(s0, i)
    ensures Scanning(s0, s0, i, i + 1)
  {
    ScanBegins(s0, i);
    RepaintsReflexive(s0);
  }

  /** One cut without a split, as the scan sees it. */
  ghost predicate CutsOnce(s: seq<UMap>, t: seq<UMap>, i: nat, j: nat)
    requires i < j < |s|
  {
    CutEffect(s, t, i, j) && Repaints(s, t) && (TotalWeight(t) < TotalWeight(s) || SamePlaces(s, t))
  }

  lemma CutPlaces(s: seq<UMap>, up: nat, low: nat)
    requires up < |s| && low < |s| && up != low && Meets(s[up], s[low])
    ensures var r := Trim(s[up], s[low]);
      r.One? && r.first.faddr == s[low].faddr && r.first.length == s[low].length ==> SamePlaces(s, CutList(s, up, low))
  {
  }

  lemma CutOutcome(s: seq<UMap>, i: nat, j: nat)
    requires i < j < |s| && s[i].faddr <= s[j].faddr < End(s[i])
    ensures var up, low := Upper(s, i, j), Lower(s, i, j);
      if Trim(s[up], s[low]).One? then CutsOnce(s, CutList(s, up, low), i, j)
      else Repaints(s, CutList(s, up, low)) && TotalWeight(CutList(s, up, low)) < TotalWeight(s)
  {
    hide CutEffect, CutList, SameSkyline, PiecesOf, TotalWeight, SamePlaces, Intact, Stays;
    var up, low := Upper(s, i, j), Lower(s, i, j);
    CutKeepsSkyline(s, up, low);
    CutIntact(s, up, low);
    CutStays(s, up, low);
    CutLowersWeight(s, up, low);
    CutPlaces(s, up, low);
    if Trim(s[up], s[low]).One? {
      CutHasEffect(s, i, j);
    }
  }

  lemma ScanCuts(s0: seq<UMap>, s: seq<UMap>, t: seq<UMap>, i: nat, j: nat)
    requires i < j < |s0| && Scanning(s0, s, i, j)
    requires s[i].faddr <= s[j].faddr < End(s[i]) && CutsOnce(s, t, i, j)
    ensures Scanning(s0, t, i, j + 1)
  {
    RepaintsCompose(s0, s, t);
    ShrinksFurther(s0, s, t, i, j);
    ScanContinues(s0, s, t, i, j);
  }

  /** The map list and its in-place operations. */
  class UMapList {
    var items: seq<UMap>

    constructor (items: seq<UMap>)
      ensures this.items == items
    {
      this.items := items;
    }

    /** `glist_sort(umlist, umcmp)`: some rearrangement ordered by the comparison. */
    method GlistSort()
      modifies this
      ensures multiset(items) == multiset(old(items)) && Ordered(items)
    {
      SortOrders(items);
      items := Sort(items);
    }

    /** Cut the lower item by the upper one; true when this split an item and re-sorted. */
    method ItemOverlap(up: nat, low: nat) returns (rtn: bool)
      requires up < |items| && low < |items| && up != low && Meets(items[up], items[low])
      modifies this
      ensures rtn == Trim(old(items)[up], old(items)[low]).Two?
      ensures !rtn ==> items == CutList(old(items), up, low)
      ensures rtn ==> multiset(items) == multiset(CutList(old(items), up, low)) && Ordered(items)
    {
      rtn := false;
      var end1 := End(items[up]);
      var end2 := End(items[low]);
      items := items[up := items[up].(over := true)];
      items := items[low := items[low].(frag := true)];
      var upper, lower := items[up], items[low];
      if upper.faddr <= lower.faddr {
        if end1 >= end2 {
          items := items[low := lower.(length := 0)];
        } else {
          var delta := end1 - lower.faddr;
          items := items[low := lower.(faddr := lower.faddr + delta, length := lower.length - delta)];
        }
      } else if end1 >= end2 {
        var delta := end2 - upper.faddr;
        items := items[low := lower.(length := lower.length - delta)];
      } else {
        items := items[low := lower.(length := upper.faddr - lower.faddr)];
        items := items + [lower.(faddr := end1, length := end2 - end1)];
        assert items == CutList(old(items), up, low);
        GlistSort();
        rtn := true;
      }
    }

    /** Let item i and the later item j settle their overlap. */
    method ResolvePair(i: nat, j: nat) returns (rtn: bool)
      requires i < j < |items| && items[i].faddr <= items[j].faddr < End(items[i])
      modifies this
      ensures rtn ==> Repaints(old(items), items) && TotalWeight(items) < TotalWeight(old(items)) && Ordered(items)
      ensures !rtn ==> CutsOnce(old(items), items, i, j)
    {
      ghost var s := items;
      CutOutcome(s, i, j);
      if items[i].layer >= items[j].layer {
        rtn := ItemOverlap(i, j);
      } else {
        rtn := ItemOverlap(j, i);
      }
      if rtn {
        SortStep(s, CutList(s, Upper(s, i, j), Lower(s, i, j)), items);
      }
    }

    /** The inner loop for the item at index i; true when it sorted and must start over. */
    method ScanOverlaps(i: nat) returns (restart: bool)
      requires i + 1 < |items| && items[i].length > 0 && items[i].faddr <= items[i + 1].faddr
      requires PassState(items, i)
      modifies this
      ensures Repaints(old(items), items)
      ensures restart ==> Ordered(items)
      ensures restart && Ascending(old(items), 0) ==> TotalWeight(items) < TotalWeight(old(items))
      ensures !restart ==> |items| == |old(items)| && PassState(items, i + 1)
      ensures !restart ==> TotalWeight(items) < TotalWeight(old(items)) || SamePlaces(old(items), items)
    {
      hide ScanMode, SameSkyline, PiecesOf, Intact, Stays, PassState, TotalWeight;
      ghost var s0 := items;
      ScanningBegins(s0, i);
      var j := i + 1;
      while j < |items|
        invariant i < j <= |items| == |s0|
        invariant Scanning(s0, items, i, j)
      {
        ghost var s := items;
        if items[i].faddr > items[j].faddr {
          GlistSort();
          SortStep(s0, s, items);
          return true;
        }
        if End(items[i]) <= items[j].faddr {
          break;
        }
        restart := ResolvePair(i, j);
        if restart {
          RepaintsCompose(s0, s, items);
          return;
        }
        ScanCuts(s0, s, items, i, j);
        j := j + 1;
      }
      ScanEnds(s0, items, i, j);
      return false;
    }

    /** From `top` to either the end of the list or the `goto top`. */
    method OverlapPass() returns (restart: bool)
      requires Ascending(items, 0)
      modifies this
      ensures Repaints(old(items), items)
      ensures restart ==> Ordered(items) && TotalWeight(items) < TotalWeight(old(items))
      ensures !restart ==> Disjoint(items)
    {
      hide SameSkyline, PiecesOf, Intact, Stays, TotalWeight;
      ghost var s0 := items;
      RepaintsReflexive(s0);
      var i := 0;
      while i < |items|
        invariant i <= |items| == |s0|
        invariant PassState(items, i) && Repaints(s0, items)
        invariant TotalWeight(items) < TotalWeight(s0) || SamePlaces(s0, items)
      {
        ghost var s := items;
        if items[i].length == 0 {
          SkipKeepsState(items, i);
          i := i + 1;
          continue;
        }
        if i + 1 == |items| {
          break;
        }
        if items[i].faddr > items[i + 1].faddr {
          GlistSort();
          SortStep(s0, s, items);
          return true;
        }
        restart := ScanOverlaps(i);
        RepaintsCompose(s0, s, items);
        if restart {
          return;
        }
        i := i + 1;
      }
      return false;
    }

    /** Resolve all overlaps in a sorted map. */
    method FixOverlap()
      requires Ordered(items)
      modifies this
      ensures Disjoint(items)
      ensures SameSkyline(old(items), items) && PiecesOf(items, old(items))
      ensures Intact(items, old(items)) && Stays(old(items), items)
    {
      hide SameSkyline, PiecesOf, Intact, Stays, TotalWeight;
      RepaintsReflexive(items);
      OrderedIsAscending(items);
      ghost var s0 := items;
      var top := true;
      while top
        invariant Repaints(s0, items)
        invariant if top then Ascending(items, 0) else Disjoint(items)
        decreases TotalWeight(items), if top then 1 else 0
      {
        ghost var s := items;
        top := OverlapPass();
        RepaintsCompose(s0, s, items);
        if top {
          OrderedIsAscending(items);
        }
      }
    }
  }

  /** An empty item is passed over. */
  lemma SkipKeepsState(s: seq<UMap>, i: nat)
    requires i < |s| && s[i].length == 0 && PassState(s, i)
    ensures PassState(s, i + 1)
  {
    if Doomed(s, i) {
      var p :| OutOfOrderAt(s, i, p);
      assert OutOfOrderAt(s, i + 1, p);
    }
  }

  /** The painter's result: an address is covered afterwards exactly when it was covered before,
      and then by one item only, which is a piece of an input item and carries the highest layer
      among all input items that covered the address. */
  lemma TopLayerOwns(s0: seq<UMap>, s: seq<UMap>, a: nat)
    requires Disjoint(s) && SameSkyline(s0, s) && PiecesOf(s, s0)
    ensures (exists y :: y in s0 && Covers(y, a)) <==> (exists k :: 0 <= k < |s| && Covers(s[k], a))
    ensures forall j, k :: 0 <= j < |s| && 0 <= k < |s| && Covers(s[j], a) && Covers(s[k], a) ==> j == k
    ensures forall k :: 0 <= k < |s| && Covers(s[k], a) ==>
      && (exists y :: y in s0 && PartOf(s[k], y) && Covers(y, a))
      && (forall y :: y in s0 && Covers(y, a) ==> y.layer <= s[k].layer)
  {
    forall j, k | 0 <= j < k < |s| ensures !(Covers(s[j], a) && Covers(s[k], a)) {
      assert Apart(s[j], s[k]);
    }
    forall y | y in s0 && Covers(y, a)
      ensures exists k :: 0 <= k < |s| && Covers(s[k], a) && y.layer <= s[k].layer
    {
      assert Reaches(s0, a, y.layer);
      assert Reaches(s, a, y.layer);
    }
    forall k | 0 <= k < |s| && Covers(s[k], a)
      ensures exists y :: y in s0 && PartOf(s[k], y) && Covers(y, a)
    {
      assert s[k] in s;
      var y :| y in s0 && PartOf(s[k], y);
      assert Covers(y, a);
    }
  }
}
