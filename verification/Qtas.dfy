/** Searching memory for a DOS allocation chain (ASQENG/QTAS.C).  Every paragraph of the 16-bit
    segment space may hold a header; the next header lies end to end with the block. */
module Qtas {

  const SEGMENTS: nat := 0x10000

  datatype Header = Header(mz: char, owner: nat, size: nat)

  /** What lies at each segment, taken as a header. */
  type Memory = nat -> Header

  /** What is reported of one block. */
  datatype MacInfo = MacInfo(start: nat, size: nat, owner: nat)

  function Next(mem: Memory, seg: nat): (n: nat)
    ensures n < 0x10000
  {
    (seg + 1 + mem(seg).size) % 0x10000
  }

  /** n headers from seg on: 'M' headers at rising segments, and a 'Z' last, wherever it lies. */
  predicate Chain(mem: Memory, seg: nat, n: nat)
    decreases n
  {
    && n >= 2 && mem(seg).mz == 'M'
    && var next := Next(mem, seg);
       if n == 2 then mem(next).mz == 'Z'
       else mem(next).mz != 'Z' && next > seg && Chain(mem, next, n - 1)
  }

  /** The k-th header of a chain. */
  function SegAt(mem: Memory, seg: nat, k: nat): nat
    decreases k
  {
    if k == 0 then seg else SegAt(mem, Next(mem, seg), k - 1)
  }

  lemma {:induction false} SegAtStep(mem: Memory, seg: nat, k: nat)
    ensures SegAt(mem, seg, k + 1) == Next(mem, SegAt(mem, seg, k))
    decreases k
  {
    if k > 0 {
      SegAtStep(mem, Next(mem, seg), k - 1);
    }
  }

  /** A chain header by header: each but the last is an 'M', below the next 'M'; the last is a
      'Z'. */
  lemma {:induction false} ChainHeaders(mem: Memory, seg: nat, n: nat, k: nat)
    requires Chain(mem, seg, n) && k < n
    ensures k < n - 1 ==> mem(SegAt(mem, seg, k)).mz == 'M'
    ensures k < n - 2 ==> SegAt(mem, seg, k) < SegAt(mem, seg, k + 1)
    ensures k == n - 1 ==> mem(SegAt(mem, seg, k)).mz == 'Z'
    decreases k
  {
    if k > 0 {
      if n > 2 {
        ChainHeaders(mem, Next(mem, seg), n - 1, k - 1);
      } else {
        assert SegAt(mem, seg, 1) == SegAt(mem, Next(mem, seg), 0);
      }
    } else {
      assert SegAt(mem, seg, 1) == SegAt(mem, Next(mem, seg), 0);
    }
  }

  /** At most one chain starts at a segment. */
  lemma {:induction false} ChainUnique(mem: Memory, seg: nat, m: nat, n: nat)
    requires Chain(mem, seg, m) && Chain(mem, seg, n)
    ensures m == n
    decreases m
  {
    if m > 2 && n > 2 {
      ChainUnique(mem, Next(mem, seg), m - 1, n - 1);
    }
  }

  /** No more headers than segments: the 'M's rise. */
  lemma {:induction false} ChainBound(mem: Memory, seg: nat, n: nat)
    requires Chain(mem, seg, n) && seg < 0x10000
    ensures n <= 0x10000 - seg + 1
    decreases n
  {
    if n > 2 {
      ChainBound(mem, Next(mem, seg), n - 1);
    }
  }

  /** The length that can be reported: a 16-bit count. */
  ghost predicate Reportable(mem: Memory, seg: nat, n: nat) {
    Chain(mem, seg, n) && n < 0x10000
  }

  /** `valid_chain`: the length of the chain that starts at seg, as a 16-bit count, or 0. */
  method ValidChain(mem: Memory, seg0: nat) returns (count: nat)
    requires seg0 < 0x10000
    ensures count > 0 ==> Reportable(mem, seg0, count)
    ensures forall n :: Reportable(mem, seg0, n) ==> count == n
  {
    if mem(seg0).mz != 'M' {
      return 0;
    }
    count := 1;
    ghost var n := 1;
    var seg := seg0;
    while true
      invariant seg < 0x10000 && mem(seg).mz == 'M' && n <= seg - seg0 + 1 && count == n % 0x10000
      invariant seg0 <= seg && 1 <= n
      invariant n == seg - seg0 + 1 ==> forall s :: seg0 <= s <= seg ==> mem(s).mz == 'M'
      invariant forall m: nat {:trigger Chain(mem, seg0, m)} ::
        Chain(mem, seg0, m) <==> m > n && Chain(mem, seg, m - n + 1)
      decreases 0x10000 - seg
    {
      var seg2 := Next(mem, seg);
      if (seg2 > seg && mem(seg2).mz == 'M') || mem(seg2).mz == 'Z' {
        count := (count + 1) % 0x10000;
        if mem(seg2).mz == 'Z' {
          assert Chain(mem, seg, 2);
          assert Chain(mem, seg0, n + 1);
          forall m | Chain(mem, seg0, m) ensures m == n + 1 {
            ChainUnique(mem, seg0, m, n + 1);
          }
          return;
        }
        n := n + 1;
        seg := seg2;
      } else {
        forall k ensures !Chain(mem, seg, k) {
        }
        return 0;
      }
    }
  }

  /** `guess_mac`, as far as the header itself goes. */
  function Info(mem: Memory, seg: nat): MacInfo {
    MacInfo(seg, mem(seg).size, mem(seg).owner)
  }

  /** The first n blocks of the chain at seg. */
  function Blocks(mem: Memory, seg: nat, n: nat): (r: seq<MacInfo>)
    ensures |r| == n
    decreases n
  {
    if n == 0 then [] else [Info(mem, seg)] + Blocks(mem, Next(mem, seg), n - 1)
  }

  lemma {:induction false} BlocksAt(mem: Memory, seg: nat, n: nat, k: nat)
    requires k < n
    ensures Blocks(mem, seg, n)[k] == Info(mem, SegAt(mem, seg, k))
    decreases n
  {
    if k > 0 {
      BlocksAt(mem, Next(mem, seg), n - 1, k - 1);
    }
  }

  /** Each block reported lies where the one before it ends, segments wrapping; up to the last 'M' they
      do not wrap, sizes being words. */
  lemma BlocksEndToEnd(mem: Memory, seg: nat, n: nat, k: nat)
    requires k + 1 < n
    ensures var x, y := Blocks(mem, seg, n)[k], Blocks(mem, seg, n)[k + 1];
      && y.start == (x.start + x.size + 1) % 0x10000
      && x.size == mem(x.start).size && x.owner == mem(x.start).owner
      && (k < n - 2 && Chain(mem, seg, n) && x.size < 0x10000 ==> y.start == x.start + x.size + 1)
  {
    BlocksAt(mem, seg, n, k);
    BlocksAt(mem, seg, n, k + 1);
    SegAtStep(mem, seg, k);
    if k < n - 2 && Chain(mem, seg, n) {
      ChainHeaders(mem, seg, n, k);
    }
  }

  ghost predicate FirstChainAt(mem: Memory, start: nat, seg: nat, n: nat) {
    start <= seg < 0x10000 && Reportable(mem, seg, n)
    && forall s, m :: start <= s < seg ==> !Reportable(mem, s, m)
  }

  function Least(a: nat, b: nat): nat {
    if a <= b then a else b
  }

  ghost function BlocksOn(done: seq<MacInfo>, mem: Memory, seg: nat, n: nat): seq<MacInfo>
    decreases n
  {
    if n == 0 then done else BlocksOn(done + [Info(mem, seg)], mem, Next(mem, seg), n - 1)
  }

  lemma {:induction false} BlocksOnIsBlocks(done: seq<MacInfo>, mem: Memory, seg: nat, n: nat)
    ensures BlocksOn(done, mem, seg, n) == done + Blocks(mem, seg, n)
    decreases n
  {
    if n == 0 {
      assert done + [] == done;
    } else {
      var more := Blocks(mem, Next(mem, seg), n - 1);
      BlocksOnIsBlocks(done + [Info(mem, seg)], mem, Next(mem, seg), n - 1);
      assert (done + [Info(mem, seg)]) + more == done + ([Info(mem, seg)] + more);
    }
  }

  /** How many blocks are put into a buffer for `room` of them: the count of free places is a word
      that comes round when it starts at 0, and the buffer is then overrun. */
  function Capacity(room: nat): nat {
    if room == 0 then 0x10000 else room
  }

  /** Fill the buffer with the blocks of a chain, as far as the count of free places allows. */
  method Report(mem: Memory, seg: nat, n: nat, room: nat) returns (info: seq<MacInfo>)
    requires room < 0x10000
    ensures info == Blocks(mem, seg, Least(n, Capacity(room)))
    ensures |info| > room <==> n > 0 && room == 0
  {
    info := [];
    BlocksOnIsBlocks(info, mem, seg, Least(n, Capacity(room)));
    var macp, count, left := seg, n, room;
    while count > 0
      invariant left < 0x10000 && count == n - |info| && Capacity(left) == Capacity(room) - |info|
      invariant BlocksOn(info, mem, macp, Least(count, Capacity(left))) == Blocks(mem, seg, Least(n, Capacity(room)))
    {
      info := info + [Info(mem, macp)];
      left := if left == 0 then 0xFFFF else left - 1;
      if left < 1 { break; }
      macp := Next(mem, macp);
      count := count - 1;
    }
  }

  /** `find_mz_chain`: report the chain at the first segment, from start up, where one begins, as
      far as there is room; nothing when there is none.  The search stops where segments wrap. */
  method FindMzChain(mem: Memory, start: nat, room: nat) returns (info: seq<MacInfo>)
    requires start < 0x10000 && room < 0x10000
    ensures forall seg, n :: FirstChainAt(mem, start, seg, n) ==> info == Blocks(mem, seg, Least(n, Capacity(room)))
    ensures |info| > room <==> info != [] && room == 0
    ensures info == [] <==> forall seg, n :: start <= seg < 0x10000 ==> !Reportable(mem, seg, n)
  {
    info := [];
    var macp := start;
    while true
      invariant start <= macp < 0x10000 && info == []
      invariant forall s, m :: start <= s < macp ==> !Reportable(mem, s, m)
      decreases 0x10000 - macp
    {
      var macp0 := macp;
      var count := ValidChain(mem, macp);
      if count > 0 {
        info := Report(mem, macp, count, room);
        forall seg, m | FirstChainAt(mem, start, seg, m) ensures seg == macp && m == count {
          if seg == macp {
            ChainUnique(mem, seg, m, count);
          }
        }
        return;
      }
      macp := (macp + 1) % 0x10000;
      if macp < macp0 { return; }
    }
  }
}
