/** The system information buffer (ASQENG/SYSBUF.C): blocks are cut from the front, and only the
    last one can change its size.  Where the program would stop for lack of memory, the operation
    here reports failure and changes nothing. */
module SysBuf {

  type Byte = char

  /** A block: its handle, which is its offset, and its length. */
  datatype Block = Block(h: nat, n: nat)

  function BlockEnd(b: Block): nat {
    b.h + b.n
  }

  /** The live blocks lie one after another between offset 2 and `next`; when the last of them is
      the last one allocated it reaches `next`, and no other lies past that handle. */
  ghost predicate Layout(live: seq<Block>, lasth: nat, next: nat) {
    && (forall j, k :: 0 <= j < k < |live| ==> BlockEnd(live[j]) <= live[k].h)
    && (forall k :: 0 <= k < |live| ==> 2 <= live[k].h && BlockEnd(live[k]) <= next)
    && (forall k :: 0 <= k < |live| ==> live[k].h == lasth || BlockEnd(live[k]) <= lasth)
    && (live != [] && live[|live| - 1].h == lasth ==> BlockEnd(live[|live| - 1]) == next)
  }

  ghost predicate HasHandle(live: seq<Block>, h: nat) {
    exists k :: 0 <= k < |live| && live[k].h == h
  }

  class Buffer {
    const buf: array<Byte>
    var bufnext: nat
    var buffree: nat
    var buflasth: nat
    var buflastn: nat

    /** The blocks handed out and not released, in order. */
    ghost var live: seq<Block>

    /** Used and free space make up the buffer; the live blocks lie one after another between
        offset 2 and the used space's end; the last handle's block reaches that end. */
    ghost predicate Valid()
      reads this
    {
      && buf.Length < 0x10000 && 2 <= bufnext && bufnext + buffree == buf.Length
      && buflasth <= bufnext && Layout(live, buflasth, bufnext)
    }

    /** h is the handle of the last live block, and it is still the last one allocated. */
    ghost predicate IsLast(h: nat)
      reads this
    {
      live != [] && live[|live| - 1].h == h == buflasth
    }

    constructor (size: nat)
      requires 2 <= size < 0x10000
      ensures Valid() && fresh(buf) && buf.Length == size && live == [] && bufnext == 2
    {
      buf := new Byte[size];
      bufnext, buffree, buflasth, buflastn, live := 2, size - 2, 0, 0, [];
    }

    method Alloc(nbytes: nat) returns (ok: bool, h: nat)
      requires Valid()
      modifies this`bufnext, this`buffree, this`buflasth, this`live
      ensures Valid() && ok == (old(buffree) >= nbytes)
      ensures ok ==> h == old(bufnext) && bufnext == h + nbytes && IsLast(h) && live == old(live) + [Block(h, nbytes)]
      ensures !ok ==> h == 0 && unchanged(this)
    {
      if buffree < nbytes {
        return false, 0;
      }
      ok, h := true, bufnext;
      buflasth := bufnext;
      bufnext := bufnext + nbytes;
      buffree := buffree - nbytes;
      live := live + [Block(h, nbytes)];
    }

    /** Only the last block can change its size, and only within the free space. */
    method Realloc(h: nat, nbytes: nat) returns (ok: bool)
      requires Valid() && HasHandle(live, h)
      modifies this`bufnext, this`buffree, this`live
      ensures Valid()
      ensures ok == (h == buflasth && h + nbytes <= buf.Length)
      ensures ok ==> bufnext == h + nbytes && IsLast(h)
      ensures ok ==> old(live) != [] && live == old(live)[..|old(live)| - 1] + [Block(h, nbytes)]
      ensures !ok ==> unchanged(this)
    {
      if h != buflasth {
        return false;
      }
      var nb := bufnext - buflasth;
      if nbytes < nb {
        bufnext := bufnext - (nb - nbytes);
        buffree := buffree + (nb - nbytes);
      } else {
        var ni := nbytes - nb;
        if buffree < ni {
          return false;
        }
        bufnext := bufnext + ni;
        buffree := buffree - ni;
      }
      live := live[|live| - 1 := Block(h, nbytes)];
      return true;
    }

    /** Only the last block gives its space back. */
    method Free(h: nat)
      requires Valid() && HasHandle(live, h)
      modifies this`bufnext, this`buffree, this`buflastn, this`live
      ensures Valid()
      ensures h == buflasth ==> bufnext == h && old(live) != [] && live == old(live)[..|old(live)| - 1]
      ensures h != buflasth ==> unchanged(this)
    {
      if h == buflasth {
        buffree := buffree + (bufnext - h);
        bufnext := h;
        buflastn := 0;
        live := live[..|live| - 1];
      }
    }

    /** The bytes of a block. */
    function Bytes(h: nat, n: nat): seq<Byte>
      requires h + n <= buf.Length
      reads buf
    {
      buf[h..h + n]
    }

    /** Copy data to offset p; nothing else changes. */
    method Fill(p: nat, data: seq<Byte>)
      requires p + |data| <= buf.Length
      modifies buf
      ensures Bytes(p, |data|) == data
      ensures forall i :: 0 <= i < buf.Length && !(p <= i < p + |data|) ==> buf[i] == old(buf[i])
    {
      forall i | 0 <= i < |data| {
        buf[p + i] := data[i];
      }
    }

    /** `sysbuf_store`: a new block holding the data. */
    method Store(data: seq<Byte>) returns (ok: bool, h: nat)
      requires Valid() && |data| > 0
      modifies this`bufnext, this`buffree, this`buflasth, this`buflastn, this`live, buf
      ensures Valid() && ok == (old(buffree) >= |data|)
      ensures ok ==> h == old(bufnext) && bufnext == h + |data| && IsLast(h) && buflastn == |data|
      ensures ok ==> Bytes(h, |data|) == data && live == old(live) + [Block(h, |data|)]
      ensures forall i :: 0 <= i < old(bufnext) ==> buf[i] == old(buf[i])
      ensures !ok ==> unchanged(this) && unchanged(buf)
    {
      ok, h := Alloc(|data|);
      if ok {
        buflastn := |data|;
        Fill(h, data);
      }
    }

    /** `sysbuf_glist`: a new block holding the items of a list end to end, or none for no bytes.
        The length kept for appending is not set. */
    method StoreList(items: seq<seq<Byte>>) returns (ok: bool, h: nat)
      requires Valid()
      modifies this`bufnext, this`buffree, this`buflasth, this`live, buf
      ensures Valid() && ok == (old(buffree) >= |Joined(items)|)
      ensures Joined(items) == [] ==> h == 0 && unchanged(this) && unchanged(buf)
      ensures ok && Joined(items) != [] ==> h == old(bufnext) && IsLast(h) && Bytes(h, bufnext - h) == Joined(items)
      ensures forall i :: 0 <= i < old(bufnext) ==> buf[i] == old(buf[i])
      ensures !ok ==> unchanged(this) && unchanged(buf)
    {
      hide Layout, Joined;
      ok, h := true, 0;
      var data := Joined(items);
      if |data| > 0 {
        ok, h := Alloc(|data|);
        if ok {
          Fill(h, data);
        }
      }
    }

    /** `sysbuf_append`: start a block when there is no handle, and write the data behind the length
        kept for appending, which becomes the end of the block.  Other blocks cannot be appended to.
        After `sysbuf_store` or an append to the same block the kept length is the block's own. */
    method Append(h0: nat, data: seq<Byte>) returns (ok: bool, h: nat)
      requires Valid() && |data| > 0
      requires h0 == 0 || HasHandle(live, h0)
      modifies this`bufnext, this`buffree, this`buflasth, this`buflastn, this`live, buf
      ensures Valid()
      ensures ok ==
        if h0 == 0 then old(buffree) >= |data| else h0 == old(buflasth) && h0 + old(buflastn) + |data| <= buf.Length
      ensures ok ==> h == (if h0 == 0 then old(bufnext) else h0) && IsLast(h) && bufnext == h + buflastn
      ensures ok ==> buflastn == (if h0 == 0 then 0 else old(buflastn)) + |data| && Bytes(bufnext - |data|, |data|) == data
      ensures ok ==> forall i :: 0 <= i < buf.Length && !(bufnext - |data| <= i < bufnext) ==> buf[i] == old(buf[i])
      ensures !ok ==> unchanged(buf) && (h0 != 0 ==> unchanged(this))
    {
      hide Layout, Joined;
      h := h0;
      if h == 0 {
        ok, h := Alloc(0);
        buflastn := 0;
        assert live[|live| - 1].h == h;
      }
      ok := Realloc(h, buflastn + |data|);
      if ok {
        Fill(h + buflastn, data);
        buflastn := buflastn + |data|;
      }
    }

    lemma LastHasHandle(h: nat)
      ensures IsLast(h) ==> HasHandle(live, h)
    {
      if IsLast(h) {
        assert live[|live| - 1].h == h;
      }
    }

    /** Data written behind what was in the buffer before. */
    lemma Extended(was: seq<Byte>, from: nat, to: nat, data: seq<Byte>)
      requires from <= to && to + |data| <= buf.Length == |was| && Bytes(to, |data|) == data
      requires forall i :: from <= i < to ==> buf[i] == was[i]
      ensures Bytes(from, to + |data| - from) == was[from..to] + data
    {
      forall i | 0 <= i < |data| ensures buf[to + i] == data[i] {
        assert buf[to + i] == buf[to..to + |data|][i];
      }
    }

    /** An append that goes on with the last block, or starts one. */
    method AppendOn(h0: nat, data: seq<Byte>) returns (ok: bool, h: nat)
      requires Valid() && |data| > 0 && (h0 == 0 || (IsLast(h0) && bufnext == h0 + buflastn))
      modifies this`bufnext, this`buffree, this`buflasth, this`buflastn, this`live, buf
      ensures Valid() && ok == (old(buffree) >= |data|)
      ensures ok ==> h == (if h0 == 0 then old(bufnext) else h0) && IsLast(h) && bufnext == h + buflastn
      ensures ok ==> bufnext == old(bufnext) + |data| && Bytes(h, bufnext - h) == old(buf[h..bufnext]) + data
      ensures forall i :: 0 <= i < old(bufnext) ==> buf[i] == old(buf[i])
    {
      hide Layout;
      ghost var was, to := buf[..], bufnext;
      LastHasHandle(h0);
      ok, h := Append(h0, data);
      if ok {
        Extended(was, h, to, data);
      }
    }

    /** A run of appends from handle 0, with nothing allocated in between, stores the pieces end to
        end in one block, and leaves everything before that block alone. */
    method AppendAll(pieces: seq<seq<Byte>>) returns (ok: bool, h: nat)
      requires Valid() && pieces != [] && forall p :: p in pieces ==> |p| > 0
      modifies this`bufnext, this`buffree, this`buflasth, this`buflastn, this`live, buf
      ensures Valid()
      ensures ok == (old(buffree) >= |Joined(pieces)|)
      ensures ok ==> h == old(bufnext) && IsLast(h) && bufnext == h + |Joined(pieces)|
      ensures ok ==> Bytes(h, |Joined(pieces)|) == Joined(pieces)
      ensures forall i :: 0 <= i < old(bufnext) ==> buf[i] == old(buf[i])
    {
      hide Layout, Joined, IsLast;
      ghost var start := bufnext;
      h := 0;
      var k := 0;
      JoinedNone(pieces);
      while k < |pieces|
        invariant k <= |pieces| && Valid()
        invariant if k == 0 then h == 0 && bufnext == start else h == start && IsLast(h) && bufnext == h + buflastn
        invariant bufnext == start + |Joined(pieces[..k])|
        invariant Bytes(start, bufnext - start) == Joined(pieces[..k])
        invariant forall i :: 0 <= i < start ==> buf[i] == old(buf[i])
      {
        JoinedStep(pieces, k);
        JoinedGrows(pieces, k + 1);
        ok, h := AppendOn(h, pieces[k]);
        if !ok {
          return;
        }
        k := k + 1;
      }
      assert pieces[..|pieces|] == pieces;
      ok := true;
    }
  }

  function Joined(pieces: seq<seq<Byte>>): seq<Byte> {
    if pieces == [] then [] else Joined(pieces[..|pieces| - 1]) + pieces[|pieces| - 1]
  }

  lemma JoinedNone(pieces: seq<seq<Byte>>)
    ensures Joined(pieces[..0]) == []
  {
  }

  lemma JoinedStep(pieces: seq<seq<Byte>>, k: nat)
    requires k < |pieces|
    ensures Joined(pieces[..k + 1]) == Joined(pieces[..k]) + pieces[k]
  {
    assert pieces[..k + 1][..k] == pieces[..k];
  }

  lemma {:induction false} JoinedGrows(pieces: seq<seq<Byte>>, k: nat)
    requires k <= |pieces|
    ensures |Joined(pieces[..k])| <= |Joined(pieces)|
    decreases |pieces| - k
  {
    if k < |pieces| {
      JoinedStep(pieces, k);
      JoinedGrows(pieces, k + 1);
    } else {
      assert pieces[..k] == pieces;
    }
  }
}
