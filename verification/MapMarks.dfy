/** The marks that overlap resolution leaves on the items (ASQENG/MAPINFO.C), and the items it leaves
    alone. */
module MapMarks {
  import opened MapOverlap
  import opened Seqs
  import opened UMaps

  /** An item without a fragment mark is an item of s, save for its overlap mark. */
  ghost predicate Intact(t: seq<UMap>, s: seq<UMap>) {
    forall x :: x in t && !x.frag ==> exists y :: y in s && x == y.(over := x.over)
  }

  /** x meets y from a higher layer, or from the same layer and starting no later. */
  predicate Beats(x: UMap, y: UMap) {
    Meets(x, y) && (x.layer > y.layer || (x.layer == y.layer && x.faddr <= y.faddr))
  }

  /** No other item beats item k. */
  ghost predicate Unbeaten(s: seq<UMap>, k: nat)
    requires k < |s|
  {
    forall j :: 0 <= j < |s| && j != k ==> !Beats(s[j], s[k])
  }

  ghost predicate StandsAt(t: seq<UMap>, x: UMap, m: nat) {
    m < |t| && t[m] == x.(over := t[m].over) && Unbeaten(t, m)
  }

  /** Items that no other beats stay as they are, empty ones too. */
  ghost predicate Stays(s: seq<UMap>, t: seq<UMap>) {
    forall k: nat :: k < |s| && Unbeaten(s, k) ==> exists m: nat :: StandsAt(t, s[k], m)
  }

  lemma MarksReflexive(s: seq<UMap>)
    ensures Intact(s, s) && Stays(s, s)
  {
    forall x | x in s && !x.frag ensures exists y :: y in s && x == y.(over := x.over) {
      assert x == x.(over := x.over);
    }
    forall k: nat | k < |s| && Unbeaten(s, k) ensures exists m: nat :: StandsAt(s, s[k], m) {
      assert StandsAt(s, s[k], k);
    }
  }

  lemma IntactComposes(u: seq<UMap>, t: seq<UMap>, s: seq<UMap>)
    requires Intact(u, t) && Intact(t, s)
    ensures Intact(u, s)
  {
    forall x | x in u && !x.frag ensures exists y :: y in s && x == y.(over := x.over) {
      var y :| y in t && x == y.(over := x.over);
      var z :| z in s && y == z.(over := y.over);
      assert x == z.(over := x.over);
    }
  }

  lemma StaysCompose(s: seq<UMap>, t: seq<UMap>, u: seq<UMap>)
    requires Stays(s, t) && Stays(t, u)
    ensures Stays(s, u)
  {
    forall k: nat | k < |s| && Unbeaten(s, k) ensures exists m: nat :: StandsAt(u, s[k], m) {
      var m: nat :| StandsAt(t, s[k], m);
      var n: nat :| StandsAt(u, t[m], n);
      assert StandsAt(u, s[k], n);
    }
  }

  lemma PermutedIntact(s: seq<UMap>, t: seq<UMap>)
    requires multiset(s) == multiset(t)
    ensures Intact(t, s)
  {
    forall x | x in t && !x.frag ensures exists y :: y in s && x == y.(over := x.over) {
      assert x in multiset(s);
      assert x == x.(over := x.over);
    }
  }

  lemma PermutedStays(s: seq<UMap>, t: seq<UMap>)
    requires multiset(s) == multiset(t)
    ensures Stays(s, t)
  {
    forall k: nat | k < |s| && Unbeaten(s, k) ensures exists m: nat :: StandsAt(t, s[k], m) {
      assert s[k] in multiset(t);
      var m: nat :| m < |t| && t[m] == s[k];
      forall j | 0 <= j < |t| && j != m ensures !Beats(t[j], t[m]) {
        var i := OtherPlace(s, t, k, m, j);
      }
      assert StandsAt(t, s[k], m);
    }
  }

  /** In a rearrangement, what stands beside the one item stands beside it in the other. */
  lemma OtherPlace(s: seq<UMap>, t: seq<UMap>, k: nat, m: nat, j: nat) returns (i: nat)
    requires multiset(s) == multiset(t) && k < |s| && m < |t| && t[m] == s[k] && j < |t| && j != m
    ensures i < |s| && i != k && s[i] == t[j]
  {
    var a, b := Without(s, k), Without(t, m);
    assert t[j] == b[if j < m then j else j - 1];
    assert t[j] in multiset(b) && t[j] in multiset(a);
    var n: nat :| n < |a| && a[n] == t[j];
    i := if n < k then n else n + 1;
  }

  // ----- one cut -----

  /** The upper item is marked as overlapping and the pieces of the lower one as fragments; a piece
      differs from it otherwise in place and size only, and no other item changes. */
  lemma CutMarks(s: seq<UMap>, up: nat, low: nat)
    requires up < |s| && low < |s| && up != low && Meets(s[up], s[low])
    ensures var t := CutList(s, up, low);
      && t[up] == s[up].(over := true)
      && (forall k: nat {:trigger t[k]} :: k < |s| && k != up && k != low ==> t[k] == s[k])
      && (forall k: nat {:trigger t[k]} :: k < |t| && (k == low || k >= |s|) ==>
            t[k] == s[low].(faddr := t[k].faddr, length := t[k].length, frag := true))
  {
  }

  lemma CutIntact(s: seq<UMap>, up: nat, low: nat)
    requires up < |s| && low < |s| && up != low && Meets(s[up], s[low])
    ensures Intact(CutList(s, up, low), s)
  {
    hide CutList;
    CutMarks(s, up, low);
    var t := CutList(s, up, low);
    forall x | x in t && !x.frag ensures exists y :: y in s && x == y.(over := x.over) {
      var k: nat :| k < |t| && t[k] == x;
      assert k < |s| && k != low;
      assert x == s[k].(over := x.over);
    }
  }

  /** A piece of an item beats nothing that the item does not beat. */
  lemma PieceBeats(upper: UMap, lower: UMap, p: UMap, y: UMap)
    requires Meets(upper, lower) && p in Pieces(Trim(upper, lower)) && !Beats(lower, y)
    ensures !Beats(p, y)
  {
  }

  lemma CutPieces(s: seq<UMap>, up: nat, low: nat, j: nat)
    requires up < |s| && low < |s| && up != low && Meets(s[up], s[low])
    requires j < |CutList(s, up, low)| && (j == low || j >= |s|)
    ensures CutList(s, up, low)[j] in Pieces(Trim(s[up], s[low]))
  {
  }

  lemma CutStays(s: seq<UMap>, up: nat, low: nat)
    requires up < |s| && low < |s| && up != low && Beats(s[up], s[low])
    ensures Stays(s, CutList(s, up, low))
  {
    hide CutList, Trim;
    CutMarks(s, up, low);
    var t := CutList(s, up, low);
    assert |t| >= |s| by { CutGrows(s, up, low); }
    forall k: nat | k < |s| && Unbeaten(s, k) ensures exists m: nat :: StandsAt(t, s[k], m) {
      assert k != low;
      forall j | 0 <= j < |t| && j != k ensures !Beats(t[j], t[k]) {
        if j == low || j >= |s| {
          CutPieces(s, up, low, j);
          assert !Beats(s[low], s[k]);
          PieceBeats(s[up], s[low], t[j], s[k]);
        }
      }
      assert StandsAt(t, s[k], k);
    }
  }

  lemma CutGrows(s: seq<UMap>, up: nat, low: nat)
    requires up < |s| && low < |s| && up != low && Meets(s[up], s[low])
    ensures |CutList(s, up, low)| >= |s|
  {
  }
}
