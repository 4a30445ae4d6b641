/** Extended wildcards in file names (BATPROC/MISC.C, `wild_cmp`).  Strings are read by index;
    past the end stands the terminating NUL. */
module WildCmp {
  import opened CText

  predicate Same(a: char, b: char) {
    ToUpper(a) == ToUpper(b)
  }

  predicate IsWild(c: char) {
    c == '*' || c == '?'
  }

  /** Where the dot-free run that starts at j ends. */
  function BaseEnd(f: string, j: nat): (b: nat)
    requires j <= |f|
    ensures j <= b <= |f| && (b < |f| ==> f[b] == '.')
    ensures forall t :: j <= t < b ==> f[t] != '.'
    decreases |f| - j
  {
    if j == |f| || f[j] == '.' then j else BaseEnd(f, j + 1)
  }

  /** Where the run of wildcards that starts at i ends. */
  function AfterRun(w: string, i: nat): (r: nat)
    requires i <= |w|
    ensures i <= r <= |w| && (r < |w| ==> !IsWild(w[r]))
    ensures i < |w| && IsWild(w[i]) ==> i < r
    decreases |w| - i
  {
    if i == |w| || !IsWild(w[i]) then i else AfterRun(w, i + 1)
  }

  /** The name from j matches the pattern from i: '*', with the wildcards right after it, stands
      for any dot-free run; '?' for one character other than a dot, or for nothing at the end; a
      dot may stand for the end; letters match in either case. */
  ghost predicate Glob(w: string, i: nat, f: string, j: nat)
    requires i <= |w| && j <= |f|
    decreases |w| - i
  {
    if i == |w| then j == |f|
    else if w[i] == '*' then exists k :: j <= k <= BaseEnd(f, j) && Glob(w, AfterRun(w, i), f, k)
    else if w[i] == '?' then
      if j == |f| then Glob(w, i + 1, f, j) else f[j] != '.' && Glob(w, i + 1, f, j + 1)
    else if j < |f| then Same(w[i], f[j]) && Glob(w, i + 1, f, j + 1)
    else w[i] == '.' && Glob(w, i + 1, f, j)
  }

  // ----- the search after a '*' -----

  /** The n pattern characters from r are no wildcards and match the name from s. */
  ghost predicate Literal(w: string, r: nat, n: nat, f: string, s: nat) {
    r + n <= |w| && s + n <= |f|
    && forall t :: 0 <= t < n ==> Agrees(w, r, f, s, t)
  }

  predicate Agrees(w: string, r: nat, f: string, s: nat, t: nat)
    requires r + t < |w| && s + t < |f|
  {
    !IsWild(w[r + t]) && Same(w[r + t], f[s + t])
  }

  /** Trying the literal at s fails inside the dot-free run. */
  ghost predicate FailsAt(w: string, r: nat, f: string, s: nat, m: nat) {
    Literal(w, r, m, f, s) && s + m < |f| && f[s + m] != '.'
    && (r + m == |w| || (!IsWild(w[r + m]) && !Same(w[r + m], f[s + m])))
  }

  ghost predicate Fails(w: string, r: nat, f: string, s: nat) {
    exists m :: FailsAt(w, r, f, s, m)
  }

  /** The inner loop: the leftmost start, from s on, where the pattern from r does not fail, and
      how many characters matched when the run or the literal ended. */
  function Search(w: string, r: nat, f: string, s: nat, n: nat): (res: (nat, nat))
    requires s <= |f| && r <= |w| && s + n <= BaseEnd(f, s)
    requires Literal(w, r, n, f, s)
    ensures s <= res.0 && res.0 + res.1 <= BaseEnd(f, s) && Literal(w, r, res.1, f, res.0)
    ensures res.0 + res.1 == BaseEnd(f, s) || (r + res.1 < |w| && IsWild(w[r + res.1]))
    ensures forall t :: s <= t < res.0 ==> Fails(w, r, f, t)
    decreases |f| - s, |f| - s - n
  {
    var b := BaseEnd(f, s);
    if s + n == b || (r + n < |w| && IsWild(w[r + n])) then (s, n)
    else if r + n < |w| && Same(w[r + n], f[s + n]) then Search(w, r, f, s, n + 1)
    else
      assert FailsAt(w, r, f, s, n);
      Search(w, r, f, s + 1, 0)
  }

  /** `wild_cmp` from position i of the pattern and j of the name. */
  function Matches(w: string, i: nat, f: string, j: nat): bool
    requires i <= |w| && j <= |f|
    decreases |w| - i
  {
    if i == |w| then j == |f|
    else if w[i] == '*' then
      var r := AfterRun(w, i);
      var (s, n) := Search(w, r, f, j, 0);
      Matches(w, r + n, f, s + n)
    else if w[i] == '?' then
      if j == |f| then Matches(w, i + 1, f, j) else f[j] != '.' && Matches(w, i + 1, f, j + 1)
    else if j < |f| && Same(w[i], f[j]) then Matches(w, i + 1, f, j + 1)
    else j == |f| && w[i] == '.' && Matches(w, i + 1, f, j)
  }

  // ----- soundness -----

  lemma LiteralTail(w: string, r: nat, n: nat, f: string, s: nat)
    requires n > 0 && Literal(w, r, n, f, s)
    ensures Literal(w, r + 1, n - 1, f, s + 1)
  {
    forall t {:trigger Agrees(w, r + 1, f, s + 1, t)} | 0 <= t < n - 1 ensures Agrees(w, r + 1, f, s + 1, t) {
      assert Agrees(w, r, f, s, t + 1);
    }
  }

  lemma {:induction false} GlobLiteral(w: string, r: nat, n: nat, f: string, s: nat)
    requires Literal(w, r, n, f, s)
    ensures Glob(w, r, f, s) <==> Glob(w, r + n, f, s + n)
    decreases n
  {
    if n > 0 {
      assert Agrees(w, r, f, s, 0);
      LiteralTail(w, r, n, f, s);
      GlobLiteral(w, r + 1, n - 1, f, s + 1);
    }
  }

  /** Whatever `wild_cmp` accepts, the glob accepts. */
  lemma {:induction false} MatchesIsGlob(w: string, i: nat, f: string, j: nat)
    requires i <= |w| && j <= |f| && Matches(w, i, f, j)
    ensures Glob(w, i, f, j)
    decreases |w| - i
  {
    if i < |w| {
      if w[i] == '*' {
        var r := AfterRun(w, i);
        var (s, n) := Search(w, r, f, j, 0);
        MatchesIsGlob(w, r + n, f, s + n);
        GlobLiteral(w, r, n, f, s);
      } else if w[i] == '?' {
        MatchesIsGlob(w, i + 1, f, if j == |f| then j else j + 1);
      } else if j < |f| {
        MatchesIsGlob(w, i + 1, f, j + 1);
      } else {
        MatchesIsGlob(w, i + 1, f, j);
      }
    }
  }

  // ----- what the comparison of characters means -----

  /** A run of wildcards is all stars and question marks, and ends before something else. */
  lemma AfterRunIs(w: string, i: nat)
    requires i <= |w|
    ensures var r := AfterRun(w, i);
      && (forall t :: i <= t < r ==> w[t] == '*' || w[t] == '?')
      && (r < |w| ==> w[r] != '*' && w[r] != '?')
    decreases |w| - i
  {
    if i < |w| && IsWild(w[i]) {
      AfterRunIs(w, i + 1);
    }
  }

  lemma {:induction false} BaseEndUpper(f: string, j: nat)
    requires j <= |f|
    ensures BaseEnd(Upper(f), j) == BaseEnd(f, j)
    decreases |f| - j
  {
    if j < |f| && f[j] != '.' {
      BaseEndUpper(f, j + 1);
    }
  }

  lemma {:induction false} AfterRunUpper(w: string, i: nat)
    requires i <= |w|
    ensures AfterRun(Upper(w), i) == AfterRun(w, i)
    decreases |w| - i
  {
    if i < |w| && IsWild(w[i]) {
      AfterRunUpper(w, i + 1);
    }
  }

  lemma LiteralUpper(w: string, r: nat, n: nat, f: string, s: nat)
    requires Literal(w, r, n, f, s)
    ensures Literal(Upper(w), r, n, Upper(f), s)
  {
    forall t | 0 <= t < n ensures Agrees(Upper(w), r, Upper(f), s, t) {
      assert Agrees(w, r, f, s, t);
      ToUpperTwice(w[r + t]);
      ToUpperTwice(f[s + t]);
    }
  }

  lemma CharUpper(a: char, b: char)
    ensures Same(ToUpper(a), ToUpper(b)) == Same(a, b) && IsWild(ToUpper(a)) == IsWild(a)
    ensures (ToUpper(a) == '*' <==> a == '*') && (ToUpper(a) == '?' <==> a == '?')
    ensures (ToUpper(a) == '.' <==> a == '.') && (ToUpper(b) == '.' <==> b == '.')
  {
    ToUpperTwice(a);
    ToUpperTwice(b);
  }

  lemma LiteralMore(w: string, r: nat, n: nat, f: string, s: nat)
    requires Literal(w, r, n, f, s) && r + n < |w| && s + n < |f| && !IsWild(w[r + n]) && Same(w[r + n], f[s + n])
    ensures Literal(w, r, n + 1, f, s)
  {
    assert Agrees(w, r, f, s, n);
  }

  lemma LiteralNone(w: string, r: nat, f: string, s: nat)
    requires r <= |w| && s <= |f|
    ensures Literal(w, r, 0, f, s)
  {
  }

  lemma {:induction false} SearchUpper(w: string, r: nat, f: string, s: nat, n: nat)
    requires s <= |f| && r <= |w| && s + n <= BaseEnd(f, s) && Literal(w, r, n, f, s)
    ensures BaseEnd(Upper(f), s) == BaseEnd(f, s) && Literal(Upper(w), r, n, Upper(f), s)
    ensures Search(Upper(w), r, Upper(f), s, n) == Search(w, r, f, s, n)
    decreases |f| - s, |f| - s - n
  {
    hide BaseEnd, Literal, Same, IsWild, Fails;
    BaseEndUpper(f, s);
    LiteralUpper(w, r, n, f, s);
    var b := BaseEnd(f, s);
    if s + n < b {
      if r + n < |w| {
        CharUpper(w[r + n], f[s + n]);
      }
      if r + n < |w| && IsWild(w[r + n]) {
      } else if r + n < |w| && Same(w[r + n], f[s + n]) {
        LiteralMore(w, r, n, f, s);
        SearchUpper(w, r, f, s, n + 1);
      } else {
        LiteralNone(w, r, f, s + 1);
        BaseGrows(f, s);
        SearchUpper(w, r, f, s + 1, 0);
      }
    }
  }

  lemma BaseGrows(f: string, s: nat)
    requires s < |f|
    ensures s + 1 <= BaseEnd(f, s + 1)
  {
  }

  lemma MatchesStar(w: string, i: nat, f: string, j: nat)
    requires i < |w| && j <= |f| && w[i] == '*'
    ensures var r := AfterRun(w, i);
      var (s, n) := Search(w, r, f, j, 0);
      Matches(w, i, f, j) == Matches(w, r + n, f, s + n)
  {
  }

  lemma MatchesChar(w: string, i: nat, f: string, j: nat)
    requires i < |w| && j <= |f| && w[i] != '*'
    ensures j < |f| ==>
      (Matches(w, i, f, j) <==>
        (if w[i] == '?' then f[j] != '.' else Same(w[i], f[j])) && Matches(w, i + 1, f, j + 1))
    ensures j == |f| ==> (Matches(w, i, f, j) <==> w[i] in {'?', '.'} && Matches(w, i + 1, f, j))
  {
  }

  /** Where pattern and name go on after a '*'. */
  ghost function PastStar(w: string, i: nat, f: string, j: nat): (p: (nat, nat))
    requires i < |w| && j <= |f| && w[i] == '*'
    ensures i < p.0 <= |w| && p.1 <= |f|
  {
    var r := AfterRun(w, i);
    var (s, n) := Search(w, r, f, j, 0);
    (r + n, s + n)
  }

  lemma StarUpper(w: string, i: nat, f: string, j: nat)
    requires i < |w| && j <= |f| && w[i] == '*'
    ensures var r := AfterRun(w, i);
      && AfterRun(Upper(w), i) == r
      && Search(Upper(w), r, Upper(f), j, 0) == Search(w, r, f, j, 0)
  {
    hide Search, AfterRun, BaseEnd, Literal;
    AfterRunUpper(w, i);
    LiteralNone(w, AfterRun(w, i), f, j);
    SearchUpper(w, AfterRun(w, i), f, j, 0);
  }

  /** Folding the case of pattern and name changes nothing from here on. */
  ghost predicate AnyCase(w: string, i: nat, f: string, j: nat)
    requires i <= |w| && j <= |f|
  {
    Matches(Upper(w), i, Upper(f), j) == Matches(w, i, f, j)
  }

  lemma CaseAtStar(w: string, i: nat, f: string, j: nat)
    requires i < |w| && j <= |f| && w[i] == '*'
    requires var (q, k) := PastStar(w, i, f, j); AnyCase(w, q, f, k)
    ensures AnyCase(w, i, f, j)
  {
    hide Matches, Search, AfterRun, BaseEnd, Literal;
    CharUpper(w[i], w[i]);
    StarUpper(w, i, f, j);
    MatchesStar(w, i, f, j);
    MatchesStar(Upper(w), i, Upper(f), j);
  }

  lemma CaseAtChar(w: string, i: nat, f: string, j: nat)
    requires i < |w| && j <= |f| && w[i] != '*' && AnyCase(w, i + 1, f, if j < |f| then j + 1 else j)
    ensures AnyCase(w, i, f, j)
  {
    hide Matches, Same, IsWild, Upper;
    MatchesChar(w, i, f, j);
    CharUpper(w[i], if j < |f| then f[j] else '.');
    MatchesChar(Upper(w), i, Upper(f), j);
  }

  /** Case does not matter, in the pattern or in the name. */
  lemma {:induction false} CaseDoesNotMatter(w: string, i: nat, f: string, j: nat)
    requires i <= |w| && j <= |f|
    ensures Matches(Upper(w), i, Upper(f), j) == Matches(w, i, f, j)
    decreases |w| - i
  {
    if i < |w| {
      hide Matches, PastStar, Upper;
      if w[i] == '*' {
        var (q, k) := PastStar(w, i, f, j);
        CaseDoesNotMatter(w, q, f, k);
        CaseAtStar(w, i, f, j);
      } else {
        CaseDoesNotMatter(w, i + 1, f, if j < |f| then j + 1 else j);
        CaseAtChar(w, i, f, j);
      }
    }
  }

  /** A pattern without wildcards and dots accepts its own name, in any case, and nothing else. */
  lemma {:induction false} PlainIsEquality(w: string, i: nat, f: string, j: nat)
    requires i <= |w| && j <= |f| && forall c :: c in w ==> c != '*' && c != '?' && c != '.'
    ensures Matches(w, i, f, j) <==> Upper(w[i..]) == Upper(f[j..])
    decreases |w| - i
  {
    if i < |w| {
      assert w[i] in w;
      if j < |f| {
        PlainIsEquality(w, i + 1, f, j + 1);
        UpperFirst(w, i);
        UpperFirst(f, j);
      }
    }
  }

  lemma UpperFirst(s: string, k: nat)
    requires k < |s|
    ensures Upper(s[k..]) == [ToUpper(s[k])] + Upper(s[k + 1..])
    ensures Upper(s[k..])[1..] == Upper(s[k + 1..])
  {
    assert s[k..][1..] == s[k + 1..];
  }

  // ----- what single wildcards mean -----

  lemma {:induction false} BaseEndAll(f: string, j: nat)
    requires j <= |f|
    ensures BaseEnd(f, j) == |f| <==> '.' !in f[j..]
    decreases |f| - j
  {
    if j < |f| {
      assert f[j..] == [f[j]] + f[j + 1..];
      BaseEndAll(f, j + 1);
    }
  }

  /** Question marks accept the names that are no longer than they are many and have no dot. */
  lemma {:induction false} QuestionsAccept(w: string, i: nat, f: string, j: nat)
    requires i <= |w| && j <= |f| && forall t :: i <= t < |w| ==> w[t] == '?'
    ensures Matches(w, i, f, j) <==> |f| - j <= |w| - i && '.' !in f[j..]
    decreases |w| - i
  {
    if j < |f| {
      assert f[j..] == [f[j]] + f[j + 1..];
    }
    if i < |w| {
      QuestionsAccept(w, i + 1, f, if j < |f| then j + 1 else j);
    }
  }

  /** A last '*' accepts what has no dot. */
  lemma StarAccepts(w: string, f: string, j: nat)
    requires w != "" && w[|w| - 1] == '*' && j <= |f|
    ensures Matches(w, |w| - 1, f, j) <==> '.' !in f[j..]
  {
    BaseEndAll(f, j);
  }

  /** A '*' before a dot runs up to the next dot, or to the end. */
  lemma {:induction false} SearchDot(w: string, r: nat, f: string, s: nat)
    requires s <= |f| && r < |w| && w[r] == '.'
    ensures Search(w, r, f, s, 0) == (BaseEnd(f, s), 0)
    decreases |f| - s
  {
    if s < BaseEnd(f, s) {
      SearchDot(w, r, f, s + 1);
    }
  }

  /** "*.*" accepts the names with one dot or none. */
  lemma StarDotStar(f: string)
    ensures Matches("*.*", 0, f, 0) <==> forall a, b :: 0 <= a < b < |f| ==> f[a] != '.' || f[b] != '.'
  {
    var w, b := "*.*", BaseEnd(f, 0);
    SearchDot(w, 1, f, 0);
    assert AfterRun(w, 0) == 1 && Matches(w, 0, f, 0) == Matches(w, 1, f, b);
    if b < |f| {
      StarAccepts(w, f, b + 1);
      forall c | b < c < |f| ensures f[c] == f[b + 1..][c - b - 1] {
      }
    } else {
      StarAccepts(w, f, b);
    }
  }

  // ----- completeness -----

  /** A '?' that follows a '*' across a literal with no dot in it. */
  ghost predicate LateQuestion(w: string, i: nat, q: nat) {
    i < q < |w| && w[i] == '*' && w[q] == '?' && AfterRun(w, i) < q
    && forall t :: AfterRun(w, i) <= t < q ==> !IsWild(w[t]) && w[t] != '.'
  }

  /** A late '?' with no '*' among the wildcards it starts. */
  ghost predicate Trap(w: string, i: nat, q: nat) {
    LateQuestion(w, i, q) && forall t :: q <= t < AfterRun(w, q) ==> w[t] == '?'
  }

  ghost predicate NoTrap(w: string) {
    forall i, q :: !Trap(w, i, q)
  }

  /** The patterns on which `wild_cmp` accepts all that the glob accepts.  Names are compared without
      their leading dots, so a pattern that starts with a dot has little to match. */
  ghost predicate Faithful(w: string) {
    NoTrap(w) || (w != "" && w[0] == '.')
  }

  /** Where trying the literal fails, the glob does not match. */
  lemma FailsIsNoGlob(w: string, r: nat, f: string, s: nat)
    requires r <= |w| && s <= |f| && Fails(w, r, f, s)
    ensures !Glob(w, r, f, s)
  {
    var m :| FailsAt(w, r, f, s, m);
    GlobLiteral(w, r, m, f, s);
  }

  /** A glob match at k consumes, character by character, any pattern text known to be free of
      wildcards and dots. */
  lemma {:induction false} GlobConsumes(w: string, r: nat, n: nat, f: string, k: nat)
    requires r + n <= |w| && k <= |f| && Glob(w, r, f, k)
    requires forall t :: r <= t < r + n ==> !IsWild(w[t]) && w[t] != '.'
    ensures k + n <= BaseEnd(f, k) && Glob(w, r + n, f, k + n)
    decreases n
  {
    if n > 0 {
      GlobConsumes(w, r + 1, n - 1, f, k + 1);
    }
  }

  /** The run a '*' stands for may start earlier. */
  lemma StarReachesBack(w: string, i: nat, f: string, j: nat, k: nat)
    requires i < |w| && w[i] == '*' && j <= k <= |f| && k <= BaseEnd(f, j) && Glob(w, i, f, k)
    ensures Glob(w, i, f, j)
  {
    SameBase(f, j, k);
  }

  lemma {:induction false} SameBase(f: string, j: nat, k: nat)
    requires j <= k <= |f| && k <= BaseEnd(f, j)
    ensures BaseEnd(f, k) == BaseEnd(f, j)
    decreases k - j
  {
    if j < k {
      SameBase(f, j + 1, k);
    }
  }

  lemma LiteralHasNoDot(w: string, r: nat, n: nat, f: string, s: nat)
    requires Literal(w, r, n, f, s) && s + n <= BaseEnd(f, s)
    ensures forall t :: r <= t < r + n ==> !IsWild(w[t]) && w[t] != '.'
  {
    forall t | r <= t < r + n ensures !IsWild(w[t]) && w[t] != '.' {
      assert Agrees(w, r, f, s, t - r);
    }
  }

  /** The same when some '?' stand before that '*'. */
  lemma {:induction false} QuestionsReachBack(w: string, q: nat, e: nat, f: string, j: nat, k: nat)
    requires q <= e < |w| && w[e] == '*' && forall t :: q <= t < e ==> w[t] == '?'
    requires j <= k <= |f| && k <= BaseEnd(f, j) && Glob(w, q, f, k)
    ensures Glob(w, q, f, j)
    decreases e - q
  {
    SameBase(f, j, k);
    if q == e {
      StarReachesBack(w, e, f, j, k);
    } else if j < |f| && j < k {
      SameBase(f, j, j + 1);
      QuestionsReachBack(w, q + 1, e, f, j + 1, if k == |f| then k else k + 1);
    }
  }

  lemma {:induction false} RunIsWild(w: string, i: nat, t: nat)
    requires i <= |w| && i <= t < AfterRun(w, i)
    ensures IsWild(w[t]) && AfterRun(w, t) == AfterRun(w, i)
    decreases t - i
  {
    if i < t {
      RunIsWild(w, i + 1, t);
    }
  }

  lemma {:induction false} FirstStar(w: string, q: nat, b: nat) returns (e: nat)
    requires q < b <= |w| && exists t :: q <= t < b && w[t] == '*'
    ensures q <= e < b && w[e] == '*' && forall t :: q <= t < e ==> w[t] != '*'
    decreases b - q
  {
    if w[q] == '*' {
      e := q;
    } else {
      e := FirstStar(w, q + 1, b);
    }
  }

  /** A literal found early, before wildcards with a '*' among them, leaves that '*' the longer run. */
  lemma FoundBeforeRun(w: string, r: nat, n: nat, f: string, s: nat, k: nat)
    requires Literal(w, r, n, f, s) && s + n <= BaseEnd(f, s) && s <= k <= BaseEnd(f, s)
    requires r + n < |w| && Glob(w, r, f, k)
    requires exists t :: r + n <= t < AfterRun(w, r + n) && w[t] == '*'
    ensures Glob(w, r + n, f, s + n)
  {
    var q := r + n;
    var e := FirstStar(w, q, AfterRun(w, q));
    forall t | q <= t < e ensures w[t] == '?' {
      RunIsWild(w, q, t);
    }
    LiteralHasNoDot(w, r, n, f, s);
    GlobConsumes(w, r, n, f, k);
    SameBase(f, s, k);
    SameBase(f, s, s + n);
    QuestionsReachBack(w, q, e, f, s + n, k + n);
  }

  /** A literal that matches up to the end of the run can match there in one way only. */
  lemma FoundAtEnd(w: string, r: nat, n: nat, f: string, s: nat, k: nat)
    requires Literal(w, r, n, f, s) && s + n == BaseEnd(f, s) && s <= k <= BaseEnd(f, s)
    requires Glob(w, r, f, k)
    ensures k == s
  {
    LiteralHasNoDot(w, r, n, f, s);
    if s < k {
      // the name runs out of its run before the literal does, at a character that is no dot
      GlobConsumes(w, r, BaseEnd(f, s) - k, f, k);
      assert false;
    }
  }

  /** The leftmost start is as good as any other. */
  lemma LeftmostWillDo(w: string, i: nat, f: string, j: nat, k: nat)
    requires i < |w| && w[i] == '*' && NoTrap(w)
    requires j <= |f| && j <= k <= BaseEnd(f, j) && Glob(w, AfterRun(w, i), f, k)
    ensures var r := AfterRun(w, i); var (s, n) := Search(w, r, f, j, 0); Glob(w, r + n, f, s + n)
  {
    var r := AfterRun(w, i);
    var (s, n) := Search(w, r, f, j, 0);
    if k < s {
      FailsIsNoGlob(w, r, f, k);
      assert false;
    } else {
      SameBase(f, j, s);
      LiteralHasNoDot(w, r, n, f, s);
      if r + n < |w| && IsWild(w[r + n]) {
        if w[r + n] == '*' {
          assert w[r + n] == '*' && r + n < AfterRun(w, r + n);
        } else {
          assert !Trap(w, i, r + n);
          assert exists t :: r + n <= t < AfterRun(w, r + n) && w[t] != '?';
          var t :| r + n <= t < AfterRun(w, r + n) && w[t] != '?';
          RunIsWild(w, r + n, t);
        }
        FoundBeforeRun(w, r, n, f, s, k);
      } else {
        FoundAtEnd(w, r, n, f, s, k);
        GlobLiteral(w, r, n, f, s);
      }
    }
  }

  /** On patterns without such a '?', `wild_cmp` accepts all that the glob accepts. */
  lemma {:induction false} GlobIsMatches(w: string, i: nat, f: string, j: nat)
    requires i <= |w| && j <= |f| && NoTrap(w) && Glob(w, i, f, j)
    ensures Matches(w, i, f, j)
    decreases |w| - i
  {
    if i < |w| {
      if w[i] == '*' {
        var r := AfterRun(w, i);
        var k :| j <= k <= BaseEnd(f, j) && Glob(w, r, f, k);
        var (s, n) := Search(w, r, f, j, 0);
        LeftmostWillDo(w, i, f, j, k);
        GlobIsMatches(w, r + n, f, s + n);
      } else if w[i] == '?' {
        GlobIsMatches(w, i + 1, f, if j == |f| then j else j + 1);
      } else if j < |f| {
        GlobIsMatches(w, i + 1, f, j + 1);
      } else {
        GlobIsMatches(w, i + 1, f, j);
      }
    }
  }

  /** At the end of the name a '*' and a '?' stand for nothing, and so does a dot. */
  lemma {:induction false} EndMatches(w: string, i: nat, f: string)
    requires i <= |w| && Glob(w, i, f, |f|)
    ensures Matches(w, i, f, |f|)
    decreases |w| - i
  {
    if i < |w| {
      EndMatches(w, if w[i] == '*' then AfterRun(w, i) else i + 1, f);
    }
  }

  /** On a faithful pattern all that the glob accepts is accepted. */
  lemma FaithfulMatches(w: string, f: string)
    requires Faithful(w) && Glob(w, 0, f, SkipDots(f, 0))
    ensures Matches(w, 0, f, SkipDots(f, 0))
  {
    var start := SkipDots(f, 0);
    if NoTrap(w) {
      GlobIsMatches(w, 0, f, start);
    } else {
      DotsSkipped(f, 0);
      assert start == |f|;
      EndMatches(w, 0, f);
    }
  }

  lemma {:induction false} DotsSkipped(f: string, j: nat)
    requires j <= |f|
    ensures var s := SkipDots(f, j); (s < |f| ==> f[s] != '.') && forall t :: j <= t < s ==> f[t] == '.'
    decreases |f| - j
  {
    if j < |f| && f[j] == '.' {
      DotsSkipped(f, j + 1);
    }
  }

  /** With a late '?' a match can be missed: the leftmost A is taken and not given back. */
  lemma LateQuestionMisses()
    ensures Glob("*A?", 0, "AXAY", 0) && !Matches("*A?", 0, "AXAY", 0)
  {
    var w, f := "*A?", "AXAY";
    assert AfterRun(w, 0) == 1;
    assert BaseEnd(f, 4) == 4 && BaseEnd(f, 3) == 4 && BaseEnd(f, 2) == 4 && BaseEnd(f, 1) == 4 && BaseEnd(f, 0) == 4;
    assert Glob(w, 3, f, 4);
    assert Glob(w, 2, f, 3);
    assert Glob(w, 1, f, 2);
    assert Agrees(w, 1, f, 0, 0);
    assert Search(w, 1, f, 0, 1) == (0, 1);
    assert Search(w, 1, f, 0, 0) == (0, 1);
    assert !Matches(w, 3, f, 2);
    assert !Matches(w, 2, f, 1);
  }

  // ----- the C loop -----

  function CharAt(s: string, i: nat): char {
    if i < |s| then s[i] else NUL
  }

  /** Where the name starts after its leading dots. */
  function SkipDots(f: string, j: nat): (r: nat)
    requires j <= |f|
    ensures j <= r <= |f|
    decreases |f| - j
  {
    if j < |f| && f[j] == '.' then SkipDots(f, j + 1) else j
  }

  /** A '*' and the wildcards after it, and the search for what follows them. */
  method SkipStar(w: string, f: string, i0: nat, j0: nat) returns (i: nat, j: nat)
    requires NUL !in f && i0 < |w| && w[i0] == '*' && j0 <= |f|
    ensures var r := AfterRun(w, i0); var (s, n) := Search(w, r, f, j0, 0); i == r + n && j == s + n
  {
    i := i0 + 1;
    while i < |w| && IsWild(w[i])
      invariant i0 < i <= |w| && AfterRun(w, i) == AfterRun(w, i0)
    {
      i := i + 1;
    }
    i, j := FindLiteral(w, f, i, j0);
  }

  lemma SearchBegins(w: string, r: nat, f: string, s: nat)
    requires r <= |w| && s <= |f|
    ensures Literal(w, r, 0, f, s)
  {
  }

  lemma SearchEnds(w: string, r: nat, f: string, s: nat, n: nat)
    requires s <= |f| && r <= |w| && s + n <= BaseEnd(f, s) && Literal(w, r, n, f, s)
    requires s + n == BaseEnd(f, s) || (r + n < |w| && IsWild(w[r + n]))
    ensures Search(w, r, f, s, n) == (s, n)
  {
  }

  /** One comparison of the search. */
  lemma SearchStep(w: string, r: nat, f: string, s: nat, n: nat)
    requires NUL !in f && s <= |f| && s + n < BaseEnd(f, s) && Literal(w, r, n, f, s)
    requires r + n >= |w| || !IsWild(w[r + n])
    ensures if Same(CharAt(w, r + n), f[s + n])
      then Literal(w, r, n + 1, f, s) && Search(w, r, f, s, n) == Search(w, r, f, s, n + 1)
      else Literal(w, r, 0, f, s + 1) && Search(w, r, f, s, n) == Search(w, r, f, s + 1, 0)
  {
    assert f[s + n] in f;
  }

  /** Advance through the name until the pattern after a '*' is found, or the run ends.  Pattern
      and name step back together when a character differs. */
  method FindLiteral(w: string, f: string, r: nat, j0: nat) returns (i: nat, j: nat)
    requires NUL !in f && r <= |w| && j0 <= |f|
    ensures var (s, n) := Search(w, r, f, j0, 0); i == r + n && j == s + n
  {
    hide Literal, Search, Same;
    i, j := r, j0;
    var n: nat := 0;
    ghost var s := j0;
    SearchBegins(w, r, f, s);
    while j < |f| && f[j] != '.' && !(i < |w| && IsWild(w[i]))
      invariant s <= |f| && j == s + n <= BaseEnd(f, s) && i == r + n <= |w|
      invariant Literal(w, r, n, f, s)
      invariant Search(w, r, f, s, n) == Search(w, r, f, j0, 0)
      decreases |f| - s, |f| - j
    {
      SameBase(f, s, j);
      SearchStep(w, r, f, s, n);
      if !Same(CharAt(w, i), f[j]) {
        j := j - n;
        i := i - n;
        n := 0;
        s := s + 1;
      } else {
        i := i + 1;
        n := n + 1;
      }
      j := j + 1;
    }
    SameBase(f, s, j);
    SearchEnds(w, r, f, s, n);
  }

  /** What acceptance means. */
  lemma AcceptedIsGlob(w: string, f: string)
    requires NUL !in w && NUL !in f
    ensures Matches(w, 0, f, SkipDots(f, 0)) ==> Glob(w, 0, f, SkipDots(f, 0))
    ensures Faithful(w) ==> (Matches(w, 0, f, SkipDots(f, 0)) <==> Glob(w, 0, f, SkipDots(f, 0)))
  {
    hide Matches, Glob, Faithful;
    if Matches(w, 0, f, SkipDots(f, 0)) {
      MatchesIsGlob(w, 0, f, SkipDots(f, 0));
    } else if Faithful(w) && Glob(w, 0, f, SkipDots(f, 0)) {
      FaithfulMatches(w, f);
    }
  }

  /** The main loop: it stops where the characters are equal exactly when the name is accepted. */
  method Walk(w: string, f: string, start: nat) returns (i: nat, j: nat)
    requires NUL !in w && NUL !in f && start <= |f|
    ensures i <= |w| && j <= |f|
    ensures CharAt(w, i) == CharAt(f, j) <==> Matches(w, 0, f, start)
  {
    i, j := 0, start;
    while i < |w|
      invariant i <= |w| && j <= |f|
      invariant Matches(w, i, f, j) == Matches(w, 0, f, start)
      decreases |w| - i
    {
      if w[i] == '*' {
        i, j := SkipStar(w, f, i, j);
      } else if w[i] == '?' {
        if j < |f| && f[j] == '.' { break; }
        i := i + 1;
        if j < |f| { j := j + 1; }
      } else if j < |f| && Same(w[i], f[j]) {
        i := i + 1;
        j := j + 1;
      } else if w[i] == '.' && j == |f| {
        i := i + 1;
      } else {
        break;
      }
    }
  }

  /** The difference of the characters at which the comparison stops: zero is a match. */
  method WildCompare(w: string, f: string) returns (rval: int)
    requires NUL !in w && NUL !in f
    ensures rval == 0 <==> Matches(w, 0, f, SkipDots(f, 0))
    ensures rval == 0 ==> Glob(w, 0, f, SkipDots(f, 0))
    ensures Faithful(w) ==> (rval == 0 <==> Glob(w, 0, f, SkipDots(f, 0)))
    ensures rval == 0 <==> Matches(Upper(w), 0, Upper(f), SkipDots(f, 0))
  {
    hide Matches, Glob, Faithful;
    var j: nat := 0;
    while j < |f| && f[j] == '.'
      invariant j <= |f| && SkipDots(f, j) == SkipDots(f, 0)
    {
      j := j + 1;
    }
    AcceptedIsGlob(w, f);
    CaseDoesNotMatter(w, 0, f, j);
    var i;
    i, j := Walk(w, f, j);
    rval := CharAt(w, i) as int - CharAt(f, j) as int;
  }
}
