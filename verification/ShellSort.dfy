/** The directory sort (BATPROC/DIRCMDS.C, `ssort`): insertion sorts over ever smaller gaps. */
module ShellSort {

  /** A comparison function: not positive when its arguments may stand in this order. */
  type Comparator<!T> = (T, T) -> int

  predicate Le<T>(cmp: Comparator<T>, a: T, b: T) {
    cmp(a, b) <= 0
  }

  ghost predicate TotalPreorder<T(!new)>(cmp: Comparator<T>) {
    && (forall a, b :: Le(cmp, a, b) || Le(cmp, b, a))
    && (forall a, b, c :: Le(cmp, a, b) && Le(cmp, b, c) ==> Le(cmp, a, c))
  }

  /** Items h apart are in order. */
  ghost predicate GapSorted<T(!new)>(s: seq<T>, h: nat, cmp: Comparator<T>) {
    forall i, j :: 0 <= i < j < |s| && j == i + h ==> Le(cmp, s[i], s[j])
  }

  /** How many of the items at j, j + k, j + 2k, ... come no later than v. */
  function CountFrom<T>(s: seq<T>, j: nat, k: nat, cmp: Comparator<T>, v: T): nat
    requires k > 0
    decreases |s| - j
  {
    if j >= |s| then 0 else (if Le(cmp, s[j], v) then 1 else 0) + CountFrom(s, j + k, k, cmp, v)
  }

  /** Each class of items k apart is the same in s and t, up to rearrangement. */
  ghost predicate SameClasses<T(!new)>(s: seq<T>, t: seq<T>, k: nat, cmp: Comparator<T>)
    requires k > 0
  {
    |s| == |t| && forall r: nat, v :: r < k ==> CountFrom(s, r, k, cmp, v) == CountFrom(t, r, k, cmp, v)
  }

  // ----- exchanging two items of a class -----

  function Swapped<T>(s: seq<T>, p: nat, q: nat): (t: seq<T>)
    requires p < |s| && q < |s|
    ensures |t| == |s| && multiset(t) == multiset(s)
  {
    s[p := s[q]][q := s[p]]
  }

  lemma {:induction false} CountSwapped<T>(s: seq<T>, p: nat, k: nat, j: nat, cmp: Comparator<T>, v: T)
    requires k > 0 && p + k < |s|
    ensures j < p + k || p + k < j ==> CountFrom(Swapped(s, p, p + k), j, k, cmp, v) == CountFrom(s, j, k, cmp, v)
    decreases |s| - j
  {
    if j < |s| {
      CountSwapped(s, p, k, j + k, cmp, v);
      if j == p {
        CountSwapped(s, p, k, j + k + k, cmp, v);
      }
    }
  }

  lemma SwapKeepsClasses<T(!new)>(s0: seq<T>, s: seq<T>, p: nat, k: nat, cmp: Comparator<T>)
    requires k > 0 && p + k < |s| && SameClasses(s0, s, k, cmp)
    ensures SameClasses(s0, Swapped(s, p, p + k), k, cmp)
  {
    forall r: nat, v | r < k
      ensures CountFrom(s0, r, k, cmp, v) == CountFrom(Swapped(s, p, p + k), r, k, cmp, v)
    {
      CountSwapped(s, p, k, r, cmp, v);
    }
  }

  // ----- a smaller gap keeps the order of a larger one -----

  /** The m-th position after j, in steps of k. */
  function Pos(j: nat, k: nat, m: nat): (p: nat)
    ensures j <= p
    decreases m
  {
    if m == 0 then j else Pos(j + k, k, m - 1)
  }

  lemma {:induction false} PosShift(j: nat, h: nat, k: nat, m: nat)
    ensures Pos(j + h, k, m) == Pos(j, k, m) + h
    decreases m
  {
    if m > 0 {
      PosShift(j + k, h, k, m - 1);
    }
  }

  lemma {:induction false} PosAdd(j: nat, k: nat, m: nat, n: nat)
    ensures Pos(Pos(j, k, m), k, n) == Pos(j, k, m + n)
    decreases m
  {
    if m > 0 {
      PosAdd(j + k, k, m - 1, n);
    }
  }

  /** The class of a position, and its place in the class. */
  lemma {:induction false} ClassOf(i: nat, k: nat) returns (r: nat, m: nat)
    requires k > 0
    ensures r < k && Pos(r, k, m) == i
  {
    if i < k {
      r, m := i, 0;
    } else {
      var m1;
      r, m1 := ClassOf(i - k, k);
      PosAdd(r, k, m1, 1);
      assert Pos(i - k, k, 1) == i;
      m := m1 + 1;
    }
  }

  /** At most m of the first m items of a class are counted. */
  lemma {:induction false} CountSkip<T>(s: seq<T>, j: nat, k: nat, m: nat, cmp: Comparator<T>, v: T)
    requires k > 0
    ensures CountFrom(s, j, k, cmp, v) <= m + CountFrom(s, Pos(j, k, m), k, cmp, v)
    decreases m
  {
    if m > 0 {
      CountSkip(s, j + k, k, m - 1, cmp, v);
    }
  }

  /** In an h-sorted sequence each counted item has a counted partner h before it. */
  lemma {:induction false} CountPartners<T(!new)>(s: seq<T>, j: nat, h: nat, k: nat, cmp: Comparator<T>, v: T)
    requires k > 0 && TotalPreorder(cmp) && GapSorted(s, h, cmp)
    ensures CountFrom(s, j + h, k, cmp, v) <= CountFrom(s, j, k, cmp, v)
    decreases |s| - j
  {
    if j + h < |s| && h > 0 {
      assert Le(cmp, s[j], s[j + h]);
      CountPartners(s, j + k, h, k, cmp, v);
    }
  }

  /** In a k-sorted sequence nothing is counted from an item that is not. */
  lemma {:induction false} CountNone<T(!new)>(s: seq<T>, j: nat, k: nat, cmp: Comparator<T>, v: T)
    requires k > 0 && TotalPreorder(cmp) && GapSorted(s, k, cmp) && j < |s| && !Le(cmp, s[j], v)
    ensures CountFrom(s, j, k, cmp, v) == 0
    decreases |s| - j
  {
    if j + k < |s| {
      assert Le(cmp, s[j], s[j + k]);
      CountNone(s, j + k, k, cmp, v);
    }
  }

  /** In a k-sorted sequence everything up to an item that is counted is counted. */
  lemma {:induction false} CountAll<T(!new)>(s: seq<T>, j: nat, k: nat, m: nat, cmp: Comparator<T>, v: T)
    requires k > 0 && TotalPreorder(cmp) && GapSorted(s, k, cmp)
    requires Pos(j, k, m) < |s| && Le(cmp, s[Pos(j, k, m)], v)
    ensures j < |s| && Le(cmp, s[j], v) && CountFrom(s, j, k, cmp, v) >= m + 1
    decreases m
  {
    if m > 0 {
      CountAll(s, j + k, k, m - 1, cmp, v);
      assert Le(cmp, s[j], s[j + k]);
    }
  }

  /** Sorting each class of a smaller gap leaves items that were in order h apart in order. */
  lemma KeepsLargerGap<T(!new)>(s: seq<T>, t: seq<T>, h: nat, k: nat, cmp: Comparator<T>)
    requires k > 0 && TotalPreorder(cmp)
    requires GapSorted(s, h, cmp) && GapSorted(t, k, cmp) && SameClasses(s, t, k, cmp)
    ensures GapSorted(t, h, cmp)
  {
    forall i, j | 0 <= i < j < |t| && j == i + h ensures Le(cmp, t[i], t[j]) {
      if !Le(cmp, t[i], t[j]) {
        InOrderApart(s, t, h, k, cmp, i);
        assert false;
      }
    }
  }

  lemma InOrderApart<T(!new)>(s: seq<T>, t: seq<T>, h: nat, k: nat, cmp: Comparator<T>, i: nat)
    requires k > 0 && TotalPreorder(cmp)
    requires GapSorted(s, h, cmp) && GapSorted(t, k, cmp) && SameClasses(s, t, k, cmp)
    requires i + h < |t|
    ensures Le(cmp, t[i], t[i + h])
  {
    if !Le(cmp, t[i], t[i + h]) {
      var v := t[i + h];
      var r, q := ClassOf(i, k);
      var y, n := ClassOf(r + h, k);
      // the class of i + h: all of its first n + q + 1 items are counted
      PosShift(r, h, k, q);
      PosAdd(y, k, n, q);
      CountAll(t, y, k, n + q, cmp, v);
      // the class of i: only items before i are
      CountSkip(t, r, k, q, cmp, v);
      CountNone(t, i, k, cmp, v);
      // before the sort, each counted item of the one had a partner in the other
      CountSkip(s, y, k, n, cmp, v);
      CountPartners(s, r, h, k, cmp, v);
      assert false;
    }
  }

  // ----- the sort in place -----

  /** Order up to position i, except for the pair that starts at j. */
  ghost predicate Sifting<T(!new)>(s: seq<T>, gap: nat, i: nat, j: int, cmp: Comparator<T>) {
    && (forall p, q :: 0 <= p < q <= i && q < |s| && q == p + gap && p != j ==> Le(cmp, s[p], s[q]))
    && (0 <= j && j + 2 * gap <= i && j + 2 * gap < |s| ==> Le(cmp, s[j], s[j + 2 * gap]))
  }

  lemma SiftStep<T(!new)>(s: seq<T>, gap: nat, i: nat, j: nat, cmp: Comparator<T>)
    requires 0 < gap && j + gap <= i < |s| && TotalPreorder(cmp)
    requires Sifting(s, gap, i, j, cmp) && !Le(cmp, s[j], s[j + gap])
    ensures Sifting(Swapped(s, j, j + gap), gap, i, j - gap, cmp)
  {
    var t := Swapped(s, j, j + gap);
    forall p, q | 0 <= p < q <= i && q == p + gap && p != j - gap ensures Le(cmp, t[p], t[q]) {
      assert p != j ==> Le(cmp, s[p], s[q]);
    }
    if j >= gap {
      assert Le(cmp, s[j - gap], s[j]);
    }
  }

  /** A sift that has come to rest has left everything in order. */
  lemma SiftEnds<T(!new)>(s: seq<T>, gap: nat, i: nat, j: int, cmp: Comparator<T>)
    requires 0 < gap && i < |s| && Sifting(s, gap, i, j, cmp) && 0 <= j + gap <= i
    requires j >= 0 ==> Le(cmp, s[j], s[j + gap])
    ensures Sifting(s, gap, i, -1, cmp)
  {
  }

  method GapPass<T(!new)>(a: array<T>, gap: nat, cmp: Comparator<T>)
    requires gap > 0
    modifies a
    ensures multiset(a[..]) == multiset(old(a[..]))
    ensures TotalPreorder(cmp) ==> GapSorted(a[..], gap, cmp) && SameClasses(old(a[..]), a[..], gap, cmp)
  {
    ghost var s0 := a[..];
    var i := gap;
    while i < a.Length
      invariant multiset(a[..]) == multiset(s0)
      invariant SameClasses(s0, a[..], gap, cmp)
      invariant gap <= i
      invariant TotalPreorder(cmp) ==> Sifting(a[..], gap, i - 1, -1, cmp)
    {
      SiftDown(a, gap, i, cmp, s0);
      i := i + 1;
    }
  }

  /** Move the item at i down its class to its place. */
  method SiftDown<T(!new)>(a: array<T>, gap: nat, i: nat, cmp: Comparator<T>, ghost s0: seq<T>)
    requires 0 < gap <= i < a.Length && SameClasses(s0, a[..], gap, cmp)
    requires TotalPreorder(cmp) ==> Sifting(a[..], gap, i - 1, -1, cmp)
    modifies a
    ensures multiset(a[..]) == multiset(old(a[..]))
    ensures SameClasses(s0, a[..], gap, cmp)
    ensures TotalPreorder(cmp) ==> Sifting(a[..], gap, i, -1, cmp)
  {
    var j: int := i - gap;
    while j >= 0
      invariant 0 <= j + gap <= i
      invariant multiset(a[..]) == multiset(old(a[..]))
      invariant SameClasses(s0, a[..], gap, cmp)
      invariant TotalPreorder(cmp) ==> Sifting(a[..], gap, i, j, cmp)
    {
      if cmp(a[j], a[j + gap]) <= 0 {
        break;
      }
      ghost var s := a[..];
      SwapKeepsClasses(s0, s, j, gap, cmp);
      if TotalPreorder(cmp) {
        SiftStep(s, gap, i, j, cmp);
      }
      a[j], a[j + gap] := a[j + gap], a[j];
      assert a[..] == Swapped(s, j, j + gap);
      j := j - gap;
    }
    if TotalPreorder(cmp) {
      SiftEnds(a[..], gap, i, j, cmp);
    }
  }

  /** The whole sort: for any comparison a rearrangement; for a total preorder, sorted. */
  method SSort<T(!new)>(a: array<T>, cmp: Comparator<T>)
    modifies a
    ensures multiset(a[..]) == multiset(old(a[..]))
    ensures TotalPreorder(cmp) ==> forall i, j :: 0 <= i <= j < a.Length ==> Le(cmp, a[i], a[j])
  {
    var gap: nat := a.Length / 2;
    ghost var done: set<nat> := {};
    while gap > 0
      invariant multiset(a[..]) == multiset(old(a[..]))
      invariant TotalPreorder(cmp) ==> forall h :: h in done ==> GapSorted(a[..], h, cmp)
      invariant gap == 0 && a.Length >= 2 ==> 1 in done
      invariant gap <= a.Length / 2 && (done == {} ==> gap == a.Length / 2)
    {
      ghost var s := a[..];
      GapPass(a, gap, cmp);
      if TotalPreorder(cmp) {
        forall h | h in done ensures GapSorted(a[..], h, cmp) {
          KeepsLargerGap(s, a[..], h, gap, cmp);
        }
      }
      done := done + {gap};
      gap := gap / 2;
    }
    if TotalPreorder(cmp) {
      forall i, j | 0 <= i <= j < a.Length ensures Le(cmp, a[i], a[j]) {
        if i < j {
          assert 1 in done;
          ClosesGaps(a[..], i, j, cmp);
        }
      }
    }
  }

  lemma {:induction false} ClosesGaps<T(!new)>(s: seq<T>, i: nat, j: nat, cmp: Comparator<T>)
    requires TotalPreorder(cmp) && GapSorted(s, 1, cmp) && i <= j < |s|
    ensures Le(cmp, s[i], s[j])
    decreases j
  {
    if i < j {
      ClosesGaps(s, i, j - 1, cmp);
    }
  }
}
