/** `fix_overlap` and `item_overlap` (ASQENG/MAPINFO.C). */
module MapOverlap {
  import opened Seqs
  import opened UMaps

  // ----- one pair of items -----

  /** What is left of the lower item: its first (or only) piece, and a second piece when the
      upper item covers its middle. */
  datatype Remains = One(first: UMap) | Two(first: UMap, second: UMap)

  function Pieces(r: Remains): seq<UMap> {
    match r
    case One(x) => [x]
    case Two(x, y) => [x, y]
  }

  /** The pair is compared only when the later item starts inside the earlier one. */
  predicate Meets(u: UMap, l: UMap) {
    u.faddr <= l.faddr < End(u) || l.faddr <= u.faddr < End(l)
  }

  function Trim(upper: UMap, lower: UMap): Remains
    requires Meets(upper, lower)
  {
    var l := lower.(frag := true);
    if upper.faddr <= lower.faddr then
      if End(upper) >= End(lower) then One(l.(length := 0))
      else One(l.(faddr := End(upper), length := End(lower) - End(upper)))
    else if End(upper) >= End(lower) then One(l.(length := upper.faddr - lower.faddr))
    else Two(l.(length := upper.faddr - lower.faddr),
             l.(faddr := End(upper), length := End(lower) - End(upper)))
  }

  /** `item_overlap` is set difference: the pieces cover exactly the addresses of the lower
      item that the upper item does not, they belong to the lower item's owner, and they are
      apart from the upper item and from each other. */
  lemma TrimIsDifference(upper: UMap, lower: UMap)
    requires Meets(upper, lower)
    ensures var ps := Pieces(Trim(upper, lower));
      && (forall a: nat :: (exists p :: p in ps && Covers(p, a)) <==> Covers(lower, a) && !Covers(upper, a))
      && (forall p :: p in ps ==> PartOf(p, lower) && (upper.length > 0 ==> Apart(p, upper)))
      && Disjoint(ps)
  {
    var t := Trim(upper, lower);
    var ps := Pieces(t);
    assert t.first in ps;
    assert t.Two? ==> t.second in ps;
    forall a: nat ensures (exists p :: p in ps && Covers(p, a)) <==> Covers(lower, a) && !Covers(upper, a) {
      if Covers(lower, a) && !Covers(upper, a) {
        assert Covers(t.first, a) || (t.Two? && Covers(t.second, a));
      }
    }
  }

  // ----- a measure of what can still be cut -----

  function Weight(x: UMap): nat {
    if x.length == 0 then 0 else 2 * x.length - 1
  }

  function TotalWeight(s: seq<UMap>): nat {
    if s == [] then 0 else Weight(s[0]) + TotalWeight(s[1..])
  }

  lemma {:induction false} TotalWeightSplit(s: seq<UMap>, k: nat)
    requires k < |s|
    ensures TotalWeight(s) == TotalWeight(s[..k] + s[k + 1..]) + Weight(s[k])
  {
    if k == 0 {
      assert s[..0] + s[1..] == s[1..];
    } else {
      TotalWeightSplit(s[1..], k - 1);
      assert s[1..][..k - 1] + s[1..][k - 1 + 1..] == (s[..k] + s[k + 1..])[1..];
    }
  }

  lemma TotalWeightUpdate(s: seq<UMap>, k: nat, x: UMap)
    requires k < |s|
    ensures TotalWeight(s[k := x]) == TotalWeight(s) - Weight(s[k]) + Weight(x)
  {
    TotalWeightSplit(s, k);
    TotalWeightSplit(s[k := x], k);
    assert s[k := x][..k] + s[k := x][k + 1..] == s[..k] + s[k + 1..];
  }

  lemma TotalWeightAppend(s: seq<UMap>, x: UMap)
    ensures TotalWeight(s + [x]) == TotalWeight(s) + Weight(x)
  {
    var t := s + [x];
    TotalWeightSplit(t, |s|);
    assert t[..|s|] + t[|s| + 1..] == s;
  }

  lemma {:induction false} TotalWeightPermuted(s: seq<UMap>, t: seq<UMap>)
    requires multiset(s) == multiset(t)
    ensures TotalWeight(s) == TotalWeight(t)
  {
    if s == [] {
      assert |t| == |multiset(t)|;
    } else {
      var k := TakeOut(s, t);
      TotalWeightPermuted(s[1..], Without(t, k));
      TotalWeightSplit(t, k);
    }
  }

  // ----- what every step keeps -----

  /** Some item of layer at least `layer` covers address a. */
  ghost predicate Reaches(s: seq<UMap>, a: nat, layer: int) {
    exists x :: x in s && Covers(x, a) && layer <= x.layer
  }

  /** s and t cover the same addresses, with the same topmost layer at each. */
  ghost predicate SameSkyline(s: seq<UMap>, t: seq<UMap>) {
    forall a: nat, layer: int :: Reaches(s, a, layer) <==> Reaches(t, a, layer)
  }

  /** Every item of s is a piece of an item of t. */
  ghost predicate PiecesOf(s: seq<UMap>, t: seq<UMap>) {
    forall x :: x in s ==> exists y :: y in t && PartOf(x, y)
  }

  /** The state after one cut, before any sorting. */
  function CutList(s: seq<UMap>, up: nat, low: nat): seq<UMap>
    requires up < |s| && low < |s| && up != low && Meets(s[up], s[low])
  {
    var r := Trim(s[up], s[low]);
    var t := s[up := s[up].(over := true)][low := r.first];
    if r.Two? then t + [r.second] else t
  }

  lemma CutLeavesPieces(s: seq<UMap>, up: nat, low: nat)
    requires up < |s| && low < |s| && up != low && Meets(s[up], s[low])
    ensures PiecesOf(CutList(s, up, low), s)
  {
    var r := Trim(s[up], s[low]);
    var t := CutList(s, up, low);
    TrimIsDifference(s[up], s[low]);
    var ps := Pieces(r);
    assert t[up] == s[up].(over := true) && t[low] == r.first;
    assert r.Two? ==> t[|s|] == r.second;
    forall x | x in t ensures exists y :: y in s && PartOf(x, y) {
      var k :| 0 <= k < |t| && t[k] == x;
      if k == low || k == |s| {
        assert x in ps;
        assert PartOf(x, s[low]);
      } else {
        assert PartOf(x, s[k]);
      }
    }
  }

  /** An address painted before the cut is painted after it. */
  lemma CutLosesNothing(s: seq<UMap>, up: nat, low: nat, a: nat, layer: int)
    requires up < |s| && low < |s| && up != low && Meets(s[up], s[low]) && s[low].layer <= s[up].layer
    requires Reaches(s, a, layer)
    ensures Reaches(CutList(s, up, low), a, layer)
  {
    var r := Trim(s[up], s[low]);
    var t := CutList(s, up, low);
    TrimIsDifference(s[up], s[low]);
    var ps := Pieces(r);
    assert t[up] == s[up].(over := true) && t[low] == r.first;
    assert r.Two? ==> t[|s|] == r.second;
    var y :| y in s && Covers(y, a) && layer <= y.layer;
    var k :| 0 <= k < |s| && s[k] == y;
    if k == low {
      if Covers(s[up], a) {
        assert Covers(t[up], a);
      } else {
        var p :| p in ps && Covers(p, a);
        assert p in t;
      }
    } else {
      assert Covers(t[k], a);
    }
  }

  lemma CutKeepsSkyline(s: seq<UMap>, up: nat, low: nat)
    requires up < |s| && low < |s| && up != low && Meets(s[up], s[low])
    requires s[low].layer <= s[up].layer
    ensures SameSkyline(s, CutList(s, up, low))
    ensures PiecesOf(CutList(s, up, low), s)
  {
    hide CutList;
    var t := CutList(s, up, low);
    CutLeavesPieces(s, up, low);
    forall a: nat, layer: int ensures Reaches(s, a, layer) <==> Reaches(t, a, layer) {
      if Reaches(t, a, layer) {
        var x :| x in t && Covers(x, a) && layer <= x.layer;
        var y :| y in s && PartOf(x, y);
        assert Covers(y, a);
      }
      if Reaches(s, a, layer) {
        CutLosesNothing(s, up, low, a, layer);
      }
    }
  }

  /** A cut either leaves every start and length alone or lowers the total weight. */
  lemma CutLowersWeight(s: seq<UMap>, up: nat, low: nat)
    requires up < |s| && low < |s| && up != low && Meets(s[up], s[low])
    ensures var r := Trim(s[up], s[low]);
      TotalWeight(CutList(s, up, low)) < TotalWeight(s)
      || (r.One? && r.first.faddr == s[low].faddr && r.first.length == s[low].length
          && TotalWeight(CutList(s, up, low)) == TotalWeight(s))
  {
    var r := Trim(s[up], s[low]);
    var t := s[up := s[up].(over := true)];
    TotalWeightUpdate(s, up, s[up].(over := true));
    TotalWeightUpdate(t, low, r.first);
    if r.Two? {
      TotalWeightAppend(t[low := r.first], r.second);
    }
  }

  lemma PermutedKeeps(s: seq<UMap>, t: seq<UMap>)
    requires multiset(s) == multiset(t)
    ensures SameSkyline(s, t) && PiecesOf(s, t)
    ensures TotalWeight(s) == TotalWeight(t)
  {
    forall x ensures x in s <==> x in t {
      assert x in s <==> x in multiset(s);
      assert x in t <==> x in multiset(t);
    }
    forall x | x in s ensures exists y :: y in t && PartOf(x, y) {
      assert PartOf(x, x);
    }
    TotalWeightPermuted(s, t);
  }

  lemma PiecesCompose(s: seq<UMap>, t: seq<UMap>, u: seq<UMap>)
    requires PiecesOf(s, t) && PiecesOf(t, u)
    ensures PiecesOf(s, u)
  {
    forall x | x in s ensures exists y :: y in u && PartOf(x, y) {
      var y :| y in t && PartOf(x, y);
      var z :| z in u && PartOf(y, z);
      assert PartOf(x, z);
    }
  }

  lemma PiecesReflexive(s: seq<UMap>)
    ensures PiecesOf(s, s)
  {
    forall x | x in s ensures exists y :: y in s && PartOf(x, y) {
      assert PartOf(x, x);
    }
  }
}
