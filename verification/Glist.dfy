/** Generic lists (ASQENG/GLIST.C): one sequence of items, kept as a doubly linked list or as an
    array that grows by a fixed increment. */
module Glist {
  import opened Options

  class Node<T> {
    var data: T
    var next: Node?<T>
    var prev: Node?<T>

    constructor (data: T)
      ensures this.data == data && next == null && prev == null
    {
      this.data, next, prev := data, null, null;
    }
  }

  /** The neighbours of position i. */
  function After<T>(nodes: seq<Node<T>>, i: int): Node?<T> {
    if -1 <= i < |nodes| - 1 then nodes[i + 1] else null
  }

  function Ahead<T>(nodes: seq<Node<T>>, i: int): Node?<T> {
    if 0 < i <= |nodes| then nodes[i - 1] else null
  }

  ghost predicate Distinct<T>(nodes: seq<Node<T>>) {
    forall i, j :: 0 <= i < j < |nodes| ==> nodes[i] != nodes[j]
  }

  /** Links forward and back undo each other, from end to end. */
  ghost predicate Linked<T>(nodes: seq<Node<T>>)
    reads nodes
  {
    && (forall i {:trigger nodes[i].next} :: 0 <= i < |nodes| - 1 ==> nodes[i].next == nodes[i + 1])
    && (forall i {:trigger nodes[i].prev} :: 1 <= i < |nodes| ==> nodes[i].prev == nodes[i - 1])
    && (nodes != [] ==> nodes[0].prev == null && nodes[|nodes| - 1].next == null)
  }

  function Inserted<X>(s: seq<X>, k: nat, x: X): (r: seq<X>)
    requires k <= |s|
    ensures |r| == |s| + 1 && r[k] == x
    ensures forall i :: 0 <= i < k ==> r[i] == s[i]
    ensures forall i :: k < i < |r| ==> r[i] == s[i - 1]
  {
    s[..k] + [x] + s[k..]
  }

  // ----- neighbours and ordinals in the two forms -----

  datatype Form = LinkedForm | ArrayForm

  /** The place after k in a list of n items. */
  function NextPlace(n: nat, k: nat): Option<nat> {
    if k + 1 < n then Some(k + 1) else None
  }

  /** The place before k; the array form does not find the one before the second item. */
  function PrevPlace(form: Form, k: nat): Option<nat> {
    if k > (if form.LinkedForm? then 0 else 1) then Some(k - 1) else None
  }

  /** The items met from place k on by going to the next one. */
  function Onward<X>(s: seq<X>, k: nat): seq<X>
    requires k < |s|
    decreases |s| - k
  {
    [s[k]] + match NextPlace(|s|, k) case Some(j) => Onward(s, j) case None => []
  }

  /** The items met from place k on by going to the one before. */
  function Backward<X>(form: Form, s: seq<X>, k: nat): seq<X>
    requires k < |s|
  {
    [s[k]] + match PrevPlace(form, k) case Some(j) => Backward(form, s, j) case None => []
  }

  function Reversed<X>(s: seq<X>): (r: seq<X>)
    ensures |r| == |s|
  {
    if s == [] then [] else Reversed(s[1..]) + [s[0]]
  }

  lemma {:induction false} ReversedAppend<X>(s: seq<X>, x: X)
    ensures Reversed(s + [x]) == [x] + Reversed(s)
  {
    if s == [] {
      assert s + [x] == [x];
    } else {
      ReversedAppend(s[1..], x);
      assert (s + [x])[1..] == s[1..] + [x];
    }
  }

  /** Going on from the first item meets every item in order, in both forms. */
  lemma {:induction false} OnwardMeetsAll<X>(s: seq<X>, k: nat)
    requires k < |s|
    ensures Onward(s, k) == s[k..]
    decreases |s| - k
  {
    if k + 1 < |s| {
      OnwardMeetsAll(s, k + 1);
    }
  }

  /** Going back from item k meets the items before it, last one first; in the array form all but
      the first item of the list, unless it starts there. */
  lemma {:induction false} BackwardMeets<X>(form: Form, s: seq<X>, k: nat)
    requires k < |s|
    ensures Backward(form, s, k) == Reversed(s[(if form.LinkedForm? || k == 0 then 0 else 1)..k + 1])
  {
    if PrevPlace(form, k).Some? {
      BackwardMeets(form, s, k - 1);
      var from := if form.LinkedForm? then 0 else 1;
      assert s[from..k + 1] == s[from..k] + [s[k]];
      ReversedAppend(s[from..k], s[k]);
    } else {
      assert s[k..k + 1] == [s[k]];
      assert Reversed([s[k]]) == [s[k]];
    }
  }

  /** So the forms show the same list backwards exactly when it has one item. */
  lemma BackwardsAgree<X>(s: seq<X>)
    requires s != []
    ensures Backward(LinkedForm, s, |s| - 1) == Backward(ArrayForm, s, |s| - 1) <==> |s| == 1
  {
    BackwardMeets(LinkedForm, s, |s| - 1);
    BackwardMeets(ArrayForm, s, |s| - 1);
  }

  /** The place of an ordinal in the linked form: the first for an ordinal below 1. */
  function LinkedPlace(n: nat, ord: int): Option<nat> {
    var k := if ord < 1 then 0 else ord - 1;
    if k < n then Some(k) else None
  }

  /** In the array form: an offset in bytes, cut to a 16-bit word. */
  function ArrayOffset(n: nat, size: nat, ord: int): Option<nat> {
    var offset := (ord - 1) * size % 0x10000;
    if offset < n * size then Some(offset) else None
  }

  /** The forms agree on ordinals from 1 on; the array form knows none below 1.  Both as long as the
      offset does not come round to the items again. */
  lemma LookupsAgree(n: nat, size: nat, ord: int)
    requires size >= 1 && n * size - 0x10000 <= (ord - 1) * size < 0x10000
    ensures ord >= 1 ==>
      ArrayOffset(n, size, ord) == match LinkedPlace(n, ord) case Some(k) => Some(k * size) case None => None
    ensures ord < 1 ==> ArrayOffset(n, size, ord) == None
  {
    var offset := (ord - 1) * size;
    if ord < 1 {
      Scaled(ord - 1, -1, size);
      assert offset % 0x10000 == offset + 0x10000;
    } else {
      Scaled(0, ord - 1, size);
      assert offset % 0x10000 == offset;
      if ord - 1 < n {
        Scaled(ord, n, size);
        assert ord * size == offset + size;
      } else {
        Scaled(n, ord - 1, size);
      }
    }
  }

  lemma OffsetMeans(n: nat, size: nat, ord: int)
    requires n * size < 0x10000
    ensures size >= 1 && 1 <= ord <= n ==> ArrayOffset(n, size, ord) == Some((ord - 1) * size)
    ensures ord > n && (ord - 1) * size < 0x10000 ==> ArrayOffset(n, size, ord) == None
    ensures ord < 1 && n * size - 0x10000 <= (ord - 1) * size ==> ArrayOffset(n, size, ord) == None
  {
    hide ArrayOffset;
    if size == 0 {
      NoSize(n, ord);
    } else if ord >= 1 {
      Scaled(0, ord - 1, size);
      if ord <= n {
        Scaled(ord - 1, n, size);
      }
      if (ord - 1) * size < 0x10000 {
        LookupsAgree(n, size, ord);
      }
    } else if n * size - 0x10000 <= (ord - 1) * size {
      Scaled(ord - 1, 0, size);
      LookupsAgree(n, size, ord);
    }
  }

  lemma NoSize(n: nat, ord: int)
    ensures ArrayOffset(n, 0, ord) == None
  {
  }

  lemma Scaled(a: int, b: int, size: nat)
    requires a <= b
    ensures a * size <= b * size
  {
  }

  lemma DistinctInsert<T>(nodes: seq<Node<T>>, k: nat, item: Node<T>)
    requires k <= |nodes| && Distinct(nodes) && item !in nodes
    ensures Distinct(Inserted(nodes, k, item))
  {
    var r := Inserted(nodes, k, item);
    forall i, j | 0 <= i < j < |r| ensures r[i] != r[j] {
      assert i < k ==> r[i] in nodes;
    }
  }

  lemma DistinctDelete<T>(nodes: seq<Node<T>>, k: nat)
    requires Distinct(nodes) && k < |nodes|
    ensures Distinct(nodes[..k] + nodes[k + 1..])
  {
  }

  /** The links of a list with a new item before place k. */
  ghost predicate Spliced<T>(nodes: seq<Node<T>>, k: nat, item: Node<T>)
    requires k < |nodes|
    reads nodes, item
  {
    && (forall i {:trigger nodes[i].next} :: 0 <= i < |nodes| - 1 && i != k - 1 ==> nodes[i].next == nodes[i + 1])
    && (forall i {:trigger nodes[i].prev} :: 1 <= i < |nodes| && i != k ==> nodes[i].prev == nodes[i - 1])
    && (k > 0 ==> nodes[0].prev == null && nodes[k - 1].next == item) && nodes[|nodes| - 1].next == null
    && item.prev == Ahead(nodes, k) && item.next == nodes[k] && nodes[k].prev == item
  }

  lemma SplicedIsLinked<T>(nodes: seq<Node<T>>, k: nat, item: Node<T>)
    requires k < |nodes| && Spliced(nodes, k, item)
    ensures Linked(Inserted(nodes, k, item))
  {
    var r := Inserted(nodes, k, item);
    forall i | 0 <= i < |r| - 1 ensures r[i].next == r[i + 1] {
      assert r[i] == if i < k then nodes[i] else if i == k then item else nodes[i - 1];
    }
    forall i | 1 <= i < |r| ensures r[i].prev == r[i - 1] {
      assert r[i] == if i < k then nodes[i] else if i == k then item else nodes[i - 1];
    }
  }

  /** The links of a list that pass item k by. */
  ghost predicate Bypassed<T>(nodes: seq<Node<T>>, k: nat)
    requires k < |nodes|
    reads nodes
  {
    && (forall i {:trigger nodes[i].next} :: 0 <= i < |nodes| - 1 && i != k - 1 && i != k ==> nodes[i].next == nodes[i + 1])
    && (forall i {:trigger nodes[i].prev} :: 1 <= i < |nodes| && i != k + 1 && i != k ==> nodes[i].prev == nodes[i - 1])
    && (k > 0 ==> nodes[0].prev == null && nodes[k - 1].next == After(nodes, k))
    && (k < |nodes| - 1 ==> nodes[|nodes| - 1].next == null && nodes[k + 1].prev == Ahead(nodes, k))
  }

  lemma BypassedIsLinked<T>(nodes: seq<Node<T>>, k: nat)
    requires k < |nodes| && Bypassed(nodes, k)
    ensures Linked(nodes[..k] + nodes[k + 1..])
  {
    var r := nodes[..k] + nodes[k + 1..];
    forall i | 0 <= i < |r| - 1 ensures r[i].next == r[i + 1] {
      assert r[i] == nodes[if i < k then i else i + 1];
    }
    forall i | 1 <= i < |r| ensures r[i].prev == r[i - 1] {
      assert r[i] == nodes[if i < k then i else i + 1];
    }
  }

  class LinkedList<T> {
    var count: nat
    var first: Node?<T>
    var last: Node?<T>

    ghost var nodes: seq<Node<T>>
    ghost var items: seq<T>

    /** The nodes from `first` on, with next and prev links that undo each other.  In an empty
        list `last` means nothing. */
    ghost predicate Valid()
      reads this, nodes
    {
      && count == |nodes| == |items| && Distinct(nodes) && Linked(nodes)
      && (forall i :: 0 <= i < |nodes| ==> nodes[i].data == items[i])
      && (if nodes == [] then first == null else first == nodes[0] && last == nodes[|nodes| - 1])
    }

    constructor ()
      ensures Valid() && items == []
    {
      count, first, last, nodes, items := 0, null, null, [], [];
    }

    /** `glist_new`: add an item at the end. */
    method New(data: T) returns (item: Node<T>)
      requires Valid()
      modifies this, if nodes == [] then {} else {nodes[|nodes| - 1]}
      ensures Valid() && fresh(item) && nodes == old(nodes) + [item]
      ensures items == old(items) + [data]
    {
      item := new Node(data);
      if first == null {
        first, last := item, item;
      } else {
        item.prev := last;
        last.next := item;
        last := item;
      }
      count := count + 1;
      nodes, items := nodes + [item], items + [data];
    }

    /** Point the neighbours of a new item at it. */
    method Link(place: Node<T>, item: Node<T>, ghost k: nat)
      requires Valid() && k < |nodes| && nodes[k] == place && item !in nodes
      modifies this`first, item`next, item`prev, nodes
      ensures forall n :: n in nodes ==> n.data == old(n.data)
      ensures Spliced(nodes, k, item)
      ensures first == if k == 0 then item else old(first)
    {
      item.next := place;
      item.prev := place.prev;
      place.prev := item;
      if place == first {
        first := item;
      } else {
        item.prev.next := item;
      }
    }

    method InsertBefore(place: Node<T>, data: T, ghost k: nat) returns (item: Node<T>)
      requires Valid() && k < |nodes| && place == nodes[k]
      modifies this, nodes
      ensures Valid() && fresh(item) && nodes == Inserted(old(nodes), k, item)
      ensures items == Inserted(old(items), k, data)
    {
      item := new Node(data);
      Link(place, item, k);
      hide Linked, Spliced, Distinct;
      CountIn(item, k);
    }

    /** The list takes in a new item whose links are in place. */
    method CountIn(item: Node<T>, ghost k: nat)
      requires count == |nodes| == |items| && k < |nodes| && Distinct(nodes) && item !in nodes && Spliced(nodes, k, item)
      requires forall i :: 0 <= i < |nodes| ==> nodes[i].data == items[i]
      requires first == (if k == 0 then item else nodes[0]) && last == nodes[|nodes| - 1]
      modifies this`count, this`nodes, this`items
      ensures Valid() && nodes == Inserted(old(nodes), k, item) && items == Inserted(old(items), k, item.data)
    {
      hide Linked, Spliced, Distinct;
      SplicedIsLinked(nodes, k, item);
      DistinctInsert(nodes, k, item);
      count := count + 1;
      nodes, items := Inserted(nodes, k, item), Inserted(items, k, item.data);
    }

    /** `glist_insert`: add an item before an item of the list, or at the end. */
    method Insert(place: Node?<T>, data: T, ghost k: nat) returns (item: Node<T>)
      requires Valid() && k <= |nodes| && place == After(nodes, k - 1)
      modifies this, nodes
      ensures Valid() && fresh(item) && nodes == Inserted(old(nodes), k, item)
      ensures items == Inserted(old(items), k, data)
    {
      if place == null {
        item := New(data);
      } else {
        item := InsertBefore(place, data, k);
      }
    }

    /** Point the neighbours of an item, or the ends of the list, past it. */
    method Unlink(which: Node<T>, ghost k: nat)
      requires Valid() && k < |nodes| && nodes[k] == which
      modifies this`first, this`last, nodes
      ensures forall n :: n in nodes ==> n.data == old(n.data)
      ensures Bypassed(nodes, k)
      ensures first == if k == 0 then After(nodes, 0) else old(first)
      ensures last == if k > 0 && k == |nodes| - 1 then nodes[k - 1] else old(last)
    {
      if which == first {
        first := which.next;
        if which.next != null {
          which.next.prev := null;
        }
      } else if which == last {
        last := which.prev;
        if which.prev != null {
          which.prev.next := null;
        }
      } else {
        which.prev.next := which.next;
        which.next.prev := which.prev;
      }
    }

    /** `glist_delete`: take an item out; the item after it is returned. */
    method Delete(which: Node<T>, ghost k: nat) returns (rtnitem: Node?<T>)
      requires Valid() && k < |nodes| && nodes[k] == which
      modifies this, nodes
      ensures Valid() && nodes == old(nodes)[..k] + old(nodes)[k + 1..]
      ensures rtnitem == After(old(nodes), k)
      ensures items == old(items)[..k] + old(items)[k + 1..]
    {
      rtnitem := which.next;
      Unlink(which, k);
      hide Linked, Bypassed, Distinct;
      CountOut(k);
    }

    /** The list gives up an item that its links pass by. */
    method CountOut(ghost k: nat)
      requires count == |nodes| == |items| && k < |nodes| && Distinct(nodes) && Bypassed(nodes, k)
      requires forall i :: 0 <= i < |nodes| ==> nodes[i].data == items[i]
      requires first == (if k == 0 then After(nodes, 0) else nodes[0])
      requires |nodes| > 1 ==> last == nodes[if k == |nodes| - 1 then k - 1 else |nodes| - 1]
      modifies this`count, this`nodes, this`items
      ensures Valid() && nodes == old(nodes)[..k] + old(nodes)[k + 1..]
      ensures items == old(items)[..k] + old(items)[k + 1..]
    {
      hide Linked, Bypassed, Distinct;
      BypassedIsLinked(nodes, k);
      DistinctDelete(nodes, k);
      count := count - 1;
      nodes, items := nodes[..k] + nodes[k + 1..], items[..k] + items[k + 1..];
    }

    /** `glist_next` and `glist_prev`: the neighbours of an item. */
    method Next(here: Node<T>, ghost k: nat) returns (r: Node?<T>)
      requires Valid() && k < |nodes| && nodes[k] == here
      ensures r == match NextPlace(|nodes|, k) case Some(j) => nodes[j] case None => null
    {
      r := here.next;
    }

    method Prev(here: Node<T>, ghost k: nat) returns (r: Node?<T>)
      requires Valid() && k < |nodes| && nodes[k] == here
      ensures r == match PrevPlace(LinkedForm, k) case Some(j) => nodes[j] case None => null
    {
      r := here.prev;
    }

    /** `glist_lookup`: the item with an ordinal counted from 1; the first for a smaller one. */
    method Lookup(ord: int) returns (r: Node?<T>)
      requires Valid()
      ensures r == match LinkedPlace(|nodes|, ord) case Some(k) => nodes[k] case None => null
    {
      var left := ord;
      r := first;
      ghost var k := 0;
      while r != null && left > 1
        invariant k <= |nodes| && r == After(nodes, k - 1)
        invariant left == ord - k || (ord < 1 && k == 0 && left == ord)
        invariant k > 0 ==> left >= 1
        decreases |nodes| - k
      {
        left := left - 1;
        r := r.next;
        k := k + 1;
      }
    }

    /** `glist_tail`, in a list that is not empty. */
    method Tail() returns (r: Node?<T>)
      requires Valid() && nodes != []
      ensures r == After(nodes, |nodes| - 2)
    {
      r := last;
    }
  }

  class ArrayList<T(0)> {
    var data: array<T>
    var count: nat
    const inc: nat

    ghost predicate Valid()
      reads this
    {
      inc >= 1 && count <= data.Length
    }

    function Items(): seq<T>
      requires Valid()
      reads this, data
    {
      data[..count]
    }

    constructor (inc: nat)
      requires inc >= 1
      ensures Valid() && fresh(data) && Items() == []
    {
      this.inc := inc;
      data := new T[0];
      count := 0;
    }

    /** Make room for one more item. */
    method Grow()
      requires Valid()
      modifies this`data
      ensures Valid() && count < data.Length && Items() == old(Items())
      ensures data == old(data) || fresh(data)
    {
      if count == data.Length {
        var p := new T[data.Length + inc];
        forall i | 0 <= i < count {
          p[i] := data[i];
        }
        data := p;
      }
    }

    /** `glist_new`: add an item at the end; its place is returned. */
    method New(x: T) returns (k: nat)
      requires Valid()
      modifies this`data, this`count, data
      ensures Valid() && (data == old(data) || fresh(data))
      ensures k == old(count) && Items() == old(Items()) + [x]
    {
      Grow();
      k := count;
      data[k] := x;
      count := count + 1;
    }

    /** `glist_insert`: add an item before place k, or at the end. */
    method Insert(k: nat, x: T)
      requires Valid() && k <= count
      modifies this`data, this`count, data
      ensures Valid() && (data == old(data) || fresh(data))
      ensures Items() == Inserted(old(Items()), k, x)
    {
      ghost var s := Items();
      var _ := New(x);
      assert forall i :: 0 <= i < |s| ==> data[i] == Items()[i] == s[i];
      forall i | k < i < count {
        data[i] := data[i - 1];
      }
      data[k] := x;
      ghost var want := Inserted(s, k, x);
      assert forall i :: 0 <= i < count ==> data[i] == want[i];
    }

    /** `glist_delete`: close up over place k; the item now there, if any, is the next one. */
    method Delete(k: nat) returns (next: bool)
      requires Valid() && k < count
      modifies this`count, data
      ensures Valid()
      ensures Items() == old(Items())[..k] + old(Items())[k + 1..]
      ensures next == (k < count)
    {
      next := k + 1 < count;
      forall i | k <= i < count - 1 {
        data[i] := data[i + 1];
      }
      count := count - 1;
    }

    /** `glist_next`: the place after k. */
    method Next(k: nat) returns (r: Option<nat>)
      requires Valid() && k < count
      ensures r == NextPlace(|Items()|, k)
    {
      r := if k + 1 < count then Some(k + 1) else None;
    }

    /** `glist_prev`: the place before k, which is not found for the second item. */
    method Prev(k: nat) returns (r: Option<nat>)
      requires Valid() && k < count
      ensures r == PrevPlace(ArrayForm, k)
    {
      r := if k > 1 then Some(k - 1) else None;
    }

    /** `glist_lookup`: the offset in bytes of an ordinal counted from 1, with items of a size.  An
        ordinal of the list gives its place, and no other gives any as long as its offset, taken as a
        16-bit word, does not come round to the items. */
    method Lookup(ord: int, size: nat) returns (r: Option<nat>)
      requires Valid() && count * size < 0x10000
      ensures r == ArrayOffset(|Items()|, size, ord)
      ensures size >= 1 && 1 <= ord <= |Items()| ==> r == Some((ord - 1) * size)
      ensures ord > |Items()| && (ord - 1) * size < 0x10000 ==> r == None
      ensures ord < 1 && |Items()| * size - 0x10000 <= (ord - 1) * size ==> r == None
    {
      var offset := (ord - 1) * size % 0x10000;
      r := if offset < count * size then Some(offset) else None;
      OffsetMeans(count, size, ord);
    }
  }

  /** `glist_array`: move the items of a linked list into an array list, in order. */
  method ToArray<T(0)>(list: LinkedList<T>, inc: nat) returns (arr: ArrayList<T>)
    requires list.Valid() && inc >= 1
    modifies list, list.nodes
    ensures list.Valid() && list.items == []
    ensures fresh(arr) && arr.Valid() && arr.Items() == old(list.items)
  {
    arr := new ArrayList(inc);
    ghost var all, nodes0 := list.items, list.nodes;
    ghost var k := 0;
    while list.first != null
      invariant list.Valid() && arr.Valid() && fresh(arr) && fresh(arr.data)
      invariant k <= |all| == |nodes0| && list.items == all[k..] && list.nodes == nodes0[k..]
      invariant arr.Items() == all[..k]
      decreases |list.nodes|
    {
      assert nodes0[k..][1..] == nodes0[k + 1..] && all[k..][1..] == all[k + 1..];
      assert all[..k] + [all[k..][0]] == all[..k + 1];
      MoveFirst(list, arr);
      k := k + 1;
    }
  }

  /** Move the first item of the linked list to the end of the array list. */
  method MoveFirst<T(0)>(list: LinkedList<T>, arr: ArrayList<T>)
    requires list.Valid() && list.first != null && arr.Valid()
    modifies list, list.nodes, arr, arr.data
    ensures list.Valid() && arr.Valid() && (arr.data == old(arr.data) || fresh(arr.data))
    ensures list.nodes == old(list.nodes)[1..] && list.items == old(list.items)[1..]
    ensures arr.Items() == old(arr.Items()) + [old(list.items)[0]]
  {
    var p1 := list.first;
    var _ := arr.New(p1.data);
    ghost var ns, xs := list.nodes, list.items;
    var _ := list.Delete(p1, 0);
    assert list.nodes == ns[1..] && list.items == xs[1..];
  }

  /** `glist_linked`: move the items of an array list into a linked list, in order. */
  method ToLinked<T(0)>(arr: ArrayList<T>) returns (list: LinkedList<T>)
    requires arr.Valid()
    ensures fresh(list) && list.Valid() && list.items == arr.Items()
  {
    list := new LinkedList();
    var k := 0;
    while k < arr.count
      invariant k <= arr.count && list.Valid() && fresh(list) && fresh(list.nodes)
      invariant list.items == arr.Items()[..k]
    {
      var _ := list.New(arr.data[k]);
      k := k + 1;
    }
  }
}
