/** The environment as a list of NAME=value entries: its byte image, and the map it implements
    (BATPROC/ENV.C). */
module EnvMap {
  import opened CText
  import opened Options

  datatype Entry = Entry(name: string, value: string)

  /** A name is upper case and free of NUL, blanks and '='. */
  predicate GoodName(n: string) {
    forall c :: c in n ==> c != NUL && c != '=' && !IsSpace(c) && ToUpper(c) == c
  }

  /** A value is nonempty and free of NUL. */
  predicate GoodValue(v: string) {
    v != "" && NUL !in v
  }

  ghost predicate Proper(es: seq<Entry>) {
    && (forall e :: e in es ==> GoodName(e.name) && GoodValue(e.value))
    && (forall j, k :: 0 <= j < k < |es| ==> es[j].name != es[k].name)
  }

  // ----- the byte image -----

  function Bytes(e: Entry): string {
    e.name + "=" + e.value + [NUL]
  }

  /** All entries, end to end. */
  function Body(es: seq<Entry>): string {
    if es == [] then [] else Body(es[..|es| - 1]) + Bytes(es[|es| - 1])
  }

  /** The whole block: the entries and one more NUL. */
  function Image(es: seq<Entry>): string {
    Body(es) + [NUL]
  }

  lemma {:induction false} BodyAppend(a: seq<Entry>, b: seq<Entry>)
    ensures Body(a + b) == Body(a) + Body(b)
  {
    if b == [] {
      assert a + b == a;
    } else {
      hide Bytes;
      var m := |b| - 1;
      assert (a + b)[..|a + b| - 1] == a + b[..m];
      BodyAppend(a, b[..m]);
      Regroup(Body(a), Body(b[..m]), Bytes(b[m]));
    }
  }

  lemma BodyOne(e: Entry)
    ensures Body([e]) == Bytes(e)
  {
    assert [e][..0] == [];
  }

  /** The image around entry k. */
  lemma ImageSplit(es: seq<Entry>, k: nat)
    requires k < |es|
    ensures Image(es) == Body(es[..k]) + Bytes(es[k]) + Image(es[k + 1..])
  {
    assert es == es[..k] + [es[k]] + es[k + 1..];
    BodyAppend(es[..k] + [es[k]], es[k + 1..]);
    BodyAppend(es[..k], [es[k]]);
    BodyOne(es[k]);
  }

  // ----- the map -----

  function Find(es: seq<Entry>, name: string): (k: nat)
    ensures k <= |es| && (k < |es| ==> es[k].name == name)
    ensures forall j :: 0 <= j < k ==> es[j].name != name
  {
    if es == [] then 0 else if es[0].name == name then 0 else 1 + Find(es[1..], name)
  }

  function Lookup(es: seq<Entry>, name: string): Option<string> {
    var k := Find(es, name);
    if k < |es| then Some(es[k].value) else None
  }

  /** Insert, replace, or, with an empty value, delete. */
  function Put(es: seq<Entry>, name: string, value: string): seq<Entry> {
    var k := Find(es, name);
    if k < |es| then
      if value == "" then es[..k] + es[k + 1..] else es[k := Entry(name, value)]
    else if value == "" then es
    else es + [Entry(name, value)]
  }

  lemma FindUnique(es: seq<Entry>, k: nat)
    requires Proper(es) && k < |es|
    ensures Find(es, es[k].name) == k
  {
  }

  lemma LookupAt(es: seq<Entry>, k: nat)
    requires Proper(es) && k < |es|
    ensures Lookup(es, es[k].name) == Some(es[k].value)
  {
    FindUnique(es, k);
  }

  lemma LookupAbsent(es: seq<Entry>, name: string)
    requires forall k :: 0 <= k < |es| ==> es[k].name != name
    ensures Lookup(es, name) == None
  {
  }

  lemma PutProper(es: seq<Entry>, name: string, value: string)
    requires Proper(es) && GoodName(name) && NUL !in value
    ensures Proper(Put(es, name, value))
  {
    var k := Find(es, name);
    var t := Put(es, name, value);
    forall e | e in t ensures GoodName(e.name) && GoodValue(e.value) {
      var j :| 0 <= j < |t| && t[j] == e;
      if k < |es| && value == "" {
        assert e == if j < k then es[j] else es[j + 1];
      } else if j < |es| && j != k {
        assert e == es[j];
      }
    }
  }

  lemma PutDecides(es: seq<Entry>, name: string, value: string)
    requires Proper(es) && GoodName(name) && NUL !in value
    ensures Lookup(Put(es, name, value), name) == if value == "" then None else Some(value)
  {
    hide Lookup;
    PutProper(es, name, value);
    var k := Find(es, name);
    var t := Put(es, name, value);
    if value == "" {
      forall i | 0 <= i < |t| ensures t[i].name != name {
        assert t[i] == if i < k then es[i] else es[i + 1];
      }
      LookupAbsent(t, name);
    } else {
      assert t[k] == Entry(name, value);
      LookupAt(t, k);
    }
  }

  lemma PutKeepsLookup(es: seq<Entry>, name: string, value: string, other: string)
    requires Proper(es) && GoodName(name) && NUL !in value && other != name
    ensures Lookup(Put(es, name, value), other) == Lookup(es, other)
  {
    hide Lookup;
    PutProper(es, name, value);
    var k := Find(es, name);
    var t := Put(es, name, value);
    var j := Find(es, other);
    if j < |es| {
      var i := if k < |es| && value == "" && k < j then j - 1 else j;
      assert t[i] == es[j];
      LookupAt(t, i);
      LookupAt(es, j);
    } else {
      forall i | 0 <= i < |t| ensures t[i].name != other {
        assert t[i] == Entry(name, value) || t[i] == es[i] || (i + 1 < |es| && t[i] == es[i + 1]);
      }
      LookupAbsent(t, other);
      LookupAbsent(es, other);
    }
  }

  /** `Put` is the map update: it decides its own name and no other. */
  lemma PutLookup(es: seq<Entry>, name: string, value: string, other: string)
    requires Proper(es) && GoodName(name) && NUL !in value
    ensures Lookup(Put(es, name, value), other) ==
      if other == name then (if value == "" then None else Some(value)) else Lookup(es, other)
  {
    if other == name {
      PutDecides(es, name, value);
    } else {
      PutKeepsLookup(es, name, value, other);
    }
  }

  /** The entries with other names, in order. */
  function Others(es: seq<Entry>, name: string): seq<Entry> {
    if es == [] then []
    else if es[|es| - 1].name == name then Others(es[..|es| - 1], name)
    else Others(es[..|es| - 1], name) + [es[|es| - 1]]
  }

  lemma {:induction false} OthersAppend(a: seq<Entry>, b: seq<Entry>, name: string)
    ensures Others(a + b, name) == Others(a, name) + Others(b, name)
  {
    if b == [] {
      assert a + b == a;
    } else {
      assert (a + b)[..|a + b| - 1] == a + b[..|b| - 1];
      OthersAppend(a, b[..|b| - 1], name);
    }
  }

  /** One entry in the middle that has the name itself does not count. */
  lemma OthersAround(a: seq<Entry>, e: Entry, b: seq<Entry>)
    ensures Others(a + ([e] + b), e.name) == Others(a + b, e.name)
  {
    OthersSelf(e, e.name);
    OthersAppend([e], b, e.name);
    OthersAppend(a, [e] + b, e.name);
    OthersAppend(a, b, e.name);
  }

  /** `Put` leaves every other entry, and their order, alone. */
  lemma PutKeepsOthers(es: seq<Entry>, name: string, value: string)
    ensures Others(Put(es, name, value), name) == Others(es, name)
  {
    hide Others;
    var k := Find(es, name);
    if k < |es| {
      var a, b := es[..k], es[k + 1..];
      assert es == a + ([es[k]] + b);
      assert es[k := Entry(name, value)] == a + ([Entry(name, value)] + b);
      OthersAround(a, es[k], b);
      OthersAround(a, Entry(name, value), b);
    } else if value != "" {
      OthersAppend(es, [Entry(name, value)], name);
      OthersSelf(Entry(name, value), name);
    }
  }

  lemma OthersSelf(e: Entry, name: string)
    requires e.name == name
    ensures Others([e], name) == []
  {
    assert [e][..0] == [];
  }
}
