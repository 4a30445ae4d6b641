/** Which patterns `wild_cmp` (BATPROC/MISC.C) gets right for every name: exactly the faithful ones.
    For any other pattern a name is built that matches the glob and is not accepted. */
module WildExact {
  import opened CText
  import opened WildCmp

  /** f holds s from j on. */
  ghost predicate Holds(f: string, j: nat, s: string) {
    j + |s| <= |f| && f[j..j + |s|] == s
  }

  lemma HoldsCat(f: string, j: nat, a: string, b: string)
    ensures Holds(f, j, a + b) <==> Holds(f, j, a) && Holds(f, j + |a|, b)
  {
    if j + |a| + |b| <= |f| {
      assert f[j..j + |a + b|] == f[j..j + |a|] + f[j + |a|..j + |a| + |b|];
      if f[j..j + |a + b|] == a + b {
        assert (a + b)[..|a|] == a && (a + b)[|a|..] == b;
      }
    }
  }

  lemma HoldsAt(f: string, j: nat, s: string, t: nat)
    requires Holds(f, j, s) && t < |s|
    ensures j + t < |f| && f[j + t] == s[t]
  {
    assert f[j..j + |s|][t] == f[j + t];
  }

  // ----- a name for a stretch of the pattern -----

  /** What a '*' is given: a character only where a dot follows, so that the name does not start
      with one. */
  function ForStar(w: string, r: nat): string {
    if r < |w| && w[r] == '.' then "z" else ""
  }

  /** The name for the pattern from i to e. */
  function Fill(w: string, i: nat, e: nat): string
    requires e <= |w|
    decreases e - i
  {
    if i >= e then ""
    else if w[i] == '*' then ForStar(w, AfterRun(w, i)) + Fill(w, AfterRun(w, i), e)
    else if w[i] == '?' then "z" + Fill(w, i + 1, e)
    else [w[i]] + Fill(w, i + 1, e)
  }

  /** e is the end of the pattern, or a '*' no earlier '*' from i on reaches over. */
  ghost predicate Cut(w: string, i: nat, e: nat) {
    e <= |w| && (e < |w| ==> w[e] == '*')
    && forall p :: i <= p < e && w[p] == '*' ==> Clears(w, p, e)
  }

  predicate Clears(w: string, p: nat, e: nat)
    requires p < |w|
  {
    AfterRun(w, p) <= e && (e < |w| ==> AfterRun(w, p) < e)
  }

  lemma {:induction false} FillNoNul(w: string, i: nat, e: nat)
    requires e <= |w| && NUL !in w
    ensures NUL !in Fill(w, i, e)
    decreases e - i
  {
    if i < e {
      assert w[i] in w;
      FillNoNul(w, if w[i] == '*' then AfterRun(w, i) else i + 1, e);
    }
  }

  /** The name does not start with a dot. */
  lemma FillStarts(w: string, i: nat, e: nat)
    requires e <= |w| && i < e && w[i] != '.' && Cut(w, i, e) && (w[i] == '*' ==> AfterRun(w, i) < e)
    ensures Fill(w, i, e) != "" && Fill(w, i, e)[0] != '.'
  {
    if w[i] == '*' {
      var r := AfterRun(w, i);
      assert Fill(w, r, e) == [w[r]] + Fill(w, r + 1, e);
    }
  }

  /** The name of a stretch, behind its first part. */
  lemma StarHolds(w: string, i: nat, e: nat, f: string, j: nat)
    requires e <= |w| && i < e && w[i] == '*' && Holds(f, j, Fill(w, i, e))
    ensures var r := AfterRun(w, i); var z := ForStar(w, r);
      && |Fill(w, i, e)| == |z| + |Fill(w, r, e)| && Holds(f, j + |z|, Fill(w, r, e)) && j + |z| <= |f|
      && (z != "" ==> j < |f| && f[j] == 'z')
  {
    var r := AfterRun(w, i);
    var z := ForStar(w, r);
    HoldsCat(f, j, z, Fill(w, r, e));
    if z != "" {
      HoldsAt(f, j, z, 0);
    }
  }

  lemma CharHolds(w: string, i: nat, e: nat, f: string, j: nat)
    requires e <= |w| && i < e && w[i] != '*' && Holds(f, j, Fill(w, i, e))
    ensures |Fill(w, i, e)| == 1 + |Fill(w, i + 1, e)| && Holds(f, j + 1, Fill(w, i + 1, e)) && j < |f|
    ensures f[j] == if w[i] == '?' then 'z' else w[i]
  {
    var c := if w[i] == '?' then "z" else [w[i]];
    HoldsCat(f, j, c, Fill(w, i + 1, e));
    HoldsAt(f, j, c, 0);
  }

  // ----- the glob accepts the name -----

  lemma {:induction false} FillGlob(w: string, i: nat, e: nat, f: string, j: nat)
    requires Cut(w, i, e) && i <= e && Holds(f, j, Fill(w, i, e)) && Glob(w, e, f, j + |Fill(w, i, e)|)
    ensures Glob(w, i, f, j)
    decreases e - i
  {
    hide Holds;
    if i < e {
      if w[i] == '*' {
        var r := AfterRun(w, i);
        StarHolds(w, i, e, f, j);
        assert Clears(w, i, e);
        FillGlob(w, r, e, f, j + |ForStar(w, r)|);
        assert j + |ForStar(w, r)| <= BaseEnd(f, j);
      } else {
        CharHolds(w, i, e, f, j);
        FillGlob(w, i + 1, e, f, j + 1);
      }
    }
  }

  // ----- and so does the C code, up to the trap -----

  lemma {:induction false} MatchesLiteral(w: string, r: nat, n: nat, f: string, s: nat)
    requires Literal(w, r, n, f, s)
    ensures Matches(w, r, f, s) == Matches(w, r + n, f, s + n)
    decreases n
  {
    if n > 0 {
      assert Agrees(w, r, f, s, 0);
      LiteralTail(w, r, n, f, s);
      MatchesLiteral(w, r + 1, n - 1, f, s + 1);
    }
  }

  /** Where the literal from r on stands in the name, the search stops. */
  lemma SearchStops(w: string, r: nat, f: string, s: nat)
    requires r <= |w| && s <= |f| && !Fails(w, r, f, s)
    ensures var (t, n) := Search(w, r, f, s, 0); t == s && Matches(w, r, f, s) == Matches(w, r + n, f, s + n)
  {
    var (t, n) := Search(w, r, f, s, 0);
    assert t > s ==> Fails(w, r, f, s);
    MatchesLiteral(w, r, n, f, s);
  }

  /** The pattern text up to its next wildcard stands in its own name. */
  lemma {:induction false} FillNeverFails(w: string, r: nat, e: nat, f: string, s: nat, m: nat)
    requires e <= |w| && r <= e && Holds(f, s, Fill(w, r, e)) && (e < |w| ==> IsWild(w[e]))
    requires e == |w| ==> s + |Fill(w, r, e)| == |f|
    ensures !FailsAt(w, r, f, s, m)
    decreases e - r
  {
    assert m > 0 && Literal(w, r, m, f, s) ==> Agrees(w, r, f, s, 0);
    if FailsAt(w, r, f, s, m) && r < e && !IsWild(w[r]) {
      CharHolds(w, r, e, f, s);
      FillNeverFails(w, r + 1, e, f, s + 1, if m == 0 then 0 else m - 1);
      if m > 0 {
        LiteralTail(w, r, m, f, s);
        assert FailsAt(w, r + 1, f, s + 1, m - 1);
      }
    }
  }

  /** A single 'z' before a dot is passed over. */
  lemma SkipZ(w: string, r: nat, f: string, j: nat)
    requires r < |w| && w[r] == '.' && j + 1 < |f| && f[j] == 'z' && f[j + 1] == '.'
    ensures Search(w, r, f, j, 0) == (j + 1, 0)
  {
    assert BaseEnd(f, j + 1) == j + 1;
    assert BaseEnd(f, j) == j + 1;
  }

  /** A '*' takes what it was given. */
  lemma StarPasses(w: string, i: nat, e: nat, f: string, j: nat)
    requires Cut(w, i, e) && i < e < |w| && w[i] == '*' && Holds(f, j, Fill(w, i, e))
    ensures var r := AfterRun(w, i); Matches(w, i, f, j) == Matches(w, r, f, j + |ForStar(w, r)|)
  {
    hide Fill, Fails, Holds, Search, BaseEnd;
    var r := AfterRun(w, i);
    assert Clears(w, i, e);
    StarHolds(w, i, e, f, j);
    if ForStar(w, r) == "" {
      NeverFails(w, r, e, f, j);
      SearchStops(w, r, f, j);
    } else {
      DotAhead(w, r, e, f, j + 1);
      SkipZ(w, r, f, j);
    }
  }

  lemma NeverFails(w: string, r: nat, e: nat, f: string, s: nat)
    requires r <= e < |w| && IsWild(w[e]) && Holds(f, s, Fill(w, r, e))
    ensures !Fails(w, r, f, s)
  {
    forall m ensures !FailsAt(w, r, f, s, m) {
      FillNeverFails(w, r, e, f, s, m);
    }
  }

  lemma DotAhead(w: string, r: nat, e: nat, f: string, s: nat)
    requires r < e < |w| && w[r] == '.' && Holds(f, s, Fill(w, r, e))
    ensures s < |f| && f[s] == '.'
  {
    CharHolds(w, r, e, f, s);
  }

  lemma {:induction false} FillPasses(w: string, i: nat, e: nat, f: string, j: nat)
    requires Cut(w, i, e) && i <= e < |w| && Holds(f, j, Fill(w, i, e))
    ensures Matches(w, i, f, j) == Matches(w, e, f, j + |Fill(w, i, e)|)
    decreases e - i
  {
    hide Holds, Fails, Search;
    if i < e {
      if w[i] == '*' {
        assert Clears(w, i, e);
        StarHolds(w, i, e, f, j);
        StarPasses(w, i, e, f, j);
        FillPasses(w, AfterRun(w, i), e, f, j + |ForStar(w, AfterRun(w, i))|);
      } else {
        CharHolds(w, i, e, f, j);
        FillPasses(w, i + 1, e, f, j + 1);
      }
    }
  }

  // ----- the trap -----

  /** Where there is no '*', a name for the stretch is simply compared. */
  lemma {:induction false} PlainPasses(w: string, r: nat, g: nat, f: string, j: nat)
    requires r <= g <= |w| && Holds(f, j, Fill(w, r, g)) && forall t :: r <= t < g ==> w[t] != '*'
    ensures Matches(w, r, f, j) == Matches(w, g, f, j + |Fill(w, r, g)|)
    decreases g - r
  {
    if r < g {
      CharHolds(w, r, g, f, j);
      PlainPasses(w, r + 1, g, f, j + 1);
    }
  }

  lemma {:induction false} PlainNoDot(w: string, r: nat, g: nat)
    requires r <= g <= |w| && forall t :: r <= t < g ==> w[t] != '*' && w[t] != '.'
    ensures '.' !in Fill(w, r, g) && |Fill(w, r, g)| == g - r
    decreases g - r
  {
    if r < g {
      PlainNoDot(w, r + 1, g);
    }
  }

  lemma {:induction false} PlainPrefix(w: string, r: nat, q: nat, g: nat, f: string, j: nat)
    requires r <= q <= g <= |w| && forall t :: r <= t < g ==> w[t] != '*'
    requires Holds(f, j, Fill(w, r, g))
    ensures Holds(f, j, Fill(w, r, q))
    decreases q - r
  {
    if r < q {
      CharHolds(w, r, g, f, j);
      PlainPrefix(w, r + 1, q, g, f, j + 1);
      var c := if w[r] == '?' then "z" else [w[r]];
      assert f[j..j + 1] == c;
      HoldsCat(f, j, c, Fill(w, r + 1, q));
    } else {
      assert f[j..j] == "";
    }
  }

  lemma {:induction false} NoDotRuns(f: string, j: nat, k: nat)
    requires j <= k <= |f| && forall t :: j <= t < k ==> f[t] != '.'
    ensures k <= BaseEnd(f, j)
    decreases k - j
  {
    if j < k {
      NoDotRuns(f, j + 1, k);
    }
  }

  /** The parts of the pattern around a trap: its '*' at e, the literal from r to q, the '?' from q
      to g, and something other than a '*' after them. */
  ghost predicate Trapped(w: string, e: nat, r: nat, q: nat, g: nat) {
    && e < r < q < g <= |w| && w[e] == '*' && r == AfterRun(w, e) && IsWild(w[q])
    && (forall t :: r <= t < g ==> w[t] != '*' && w[t] != '.')
    && (g < |w| ==> !IsWild(w[g]))
    && Cut(w, 0, e)
  }

  /** A character that does not continue the pattern. */
  function Other(w: string, g: nat): char {
    if g < |w| && Same(w[g], 'y') then 'x' else 'y'
  }

  /** A name in which the leftmost place of the literal is the wrong one. */
  function Missed(w: string, e: nat, r: nat, g: nat): string
    requires e <= |w| && r <= |w| && g <= |w|
  {
    Fill(w, 0, e) + (Fill(w, r, g) + ([Other(w, g)] + Fill(w, r, |w|)))
  }

  lemma MissedParts(w: string, e: nat, r: nat, q: nat, g: nat)
    requires Trapped(w, e, r, q, g)
    ensures var f := Missed(w, e, r, g);
      var j := |Fill(w, 0, e)|;
      var k := j + (g - r);
      && Holds(f, 0, Fill(w, 0, e)) && Holds(f, j, Fill(w, r, g)) && k < |f| && f[k] == Other(w, g)
      && Holds(f, k + 1, Fill(w, r, |w|)) && |f| == k + 1 + |Fill(w, r, |w|)|
  {
    var f := Missed(w, e, r, g);
    var p, m, u, t := Fill(w, 0, e), Fill(w, r, g), [Other(w, g)], Fill(w, r, |w|);
    PlainNoDot(w, r, g);
    assert f[0..0 + |f|] == f;
    HoldsCat(f, 0, p, m + (u + t));
    HoldsCat(f, |p|, m, u + t);
    HoldsCat(f, |p| + |m|, u, t);
    HoldsAt(f, |p| + |m|, u, 0);
  }

  /** The glob gives the '*' all up to the second place of the literal. */
  lemma MissedIsGlob(w: string, e: nat, r: nat, q: nat, g: nat)
    requires Trapped(w, e, r, q, g)
    ensures Glob(w, 0, Missed(w, e, r, g), 0)
  {
    hide Fill, Missed, Holds;
    var f := Missed(w, e, r, g);
    var j := |Fill(w, 0, e)|;
    var k := j + (g - r);
    MissedParts(w, e, r, q, g);
    FillGlob(w, r, |w|, f, k + 1);
    PlainNoDot(w, r, g);
    forall t | j <= t < k + 1 ensures f[t] != '.' {
      if t < k {
        HoldsAt(f, j, Fill(w, r, g), t - j);
      }
    }
    NoDotRuns(f, j, k + 1);
    assert Glob(w, e, f, j);
    FillGlob(w, 0, e, f, 0);
  }

  /** `wild_cmp` stops at the first, and cannot go on. */
  lemma MissedIsMissed(w: string, e: nat, r: nat, q: nat, g: nat)
    requires Trapped(w, e, r, q, g)
    ensures !Matches(w, 0, Missed(w, e, r, g), 0)
  {
    hide Fill, Missed, Holds, Search, Fails;
    var f := Missed(w, e, r, g);
    var j := |Fill(w, 0, e)|;
    MissedParts(w, e, r, q, g);
    PlainNoDot(w, r, g);
    FillPasses(w, 0, e, f, 0);
    PlainPrefix(w, r, q, g, f, j);
    NeverFails(w, r, q, f, j);
    SearchStops(w, r, f, j);
    PlainPasses(w, r, g, f, j);
  }

  lemma MissedStarts(w: string, e: nat, r: nat, q: nat, g: nat)
    requires Trapped(w, e, r, q, g) && w[0] != '.' && NUL !in w
    ensures var f := Missed(w, e, r, g); NUL !in f && SkipDots(f, 0) == 0
  {
    var f := Missed(w, e, r, g);
    FillNoNul(w, 0, e);
    FillNoNul(w, r, g);
    FillNoNul(w, r, |w|);
    if e > 0 {
      assert w[0] == '*' ==> Clears(w, 0, e);
      FillStarts(w, 0, e);
    } else {
      assert Fill(w, r, g) == [w[r]] + Fill(w, r + 1, g);
    }
  }

  /** The first trap of a pattern. */
  lemma {:induction false} FirstTrap(w: string, i: nat, q: nat) returns (e: nat, q': nat)
    requires Trap(w, i, q)
    ensures Trap(w, e, q') && forall p: nat, t: nat :: p < e ==> !Trap(w, p, t)
    decreases i
  {
    if exists p: nat, t: nat :: p < i && Trap(w, p, t) {
      var p: nat, t: nat :| p < i && Trap(w, p, t);
      e, q' := FirstTrap(w, p, t);
    } else {
      e, q' := i, q;
    }
  }

  /** A '*' whose run of wildcards includes that of a trap is in the same trap. */
  lemma ReachingOver(w: string, p: nat, e: nat, q: nat)
    requires Trap(w, e, q) && p < e && w[p] == '*' && AfterRun(w, p) > e
    ensures Trap(w, p, q)
  {
    RunIsWild(w, p, e);
  }

  lemma FirstTrapCuts(w: string, e: nat, q: nat)
    requires Trap(w, e, q) && forall p: nat, t: nat :: p < e ==> !Trap(w, p, t)
    ensures Trapped(w, e, AfterRun(w, e), q, AfterRun(w, q))
  {
    forall p | 0 <= p < e && w[p] == '*' ensures Clears(w, p, e) {
      if AfterRun(w, p) > e {
        ReachingOver(w, p, e, q);
        assert false;
      }
    }
  }

  /** `wild_cmp` accepts, for every name, all that the glob accepts exactly when the pattern is
      faithful: starts with a dot, or has no '?' that follows a '*' across a dot-free literal and
      starts wildcards without a '*'. */
  lemma ExactlyFaithful(w: string)
    requires NUL !in w
    ensures (forall f :: NUL !in f && Glob(w, 0, f, SkipDots(f, 0)) ==> Matches(w, 0, f, SkipDots(f, 0))) <==> Faithful(w)
  {
    if Faithful(w) {
      forall f | NUL !in f && Glob(w, 0, f, SkipDots(f, 0)) ensures Matches(w, 0, f, SkipDots(f, 0)) {
        FaithfulMatches(w, f);
      }
    } else {
      var i, q :| Trap(w, i, q);
      var e, q' := FirstTrap(w, i, q);
      FirstTrapCuts(w, e, q');
      var r, g := AfterRun(w, e), AfterRun(w, q');
      MissedStarts(w, e, r, q', g);
      MissedIsGlob(w, e, r, q', g);
      MissedIsMissed(w, e, r, q', g);
      var f := Missed(w, e, r, g);
      assert NUL !in f && Glob(w, 0, f, SkipDots(f, 0)) && !Matches(w, 0, f, SkipDots(f, 0));
    }
  }
}
