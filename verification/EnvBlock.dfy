/** The environment block edited in place (BATPROC/ENV.C). */
module EnvBlock {
  import opened CText
  import opened EnvMap
  import opened Options

  const OUT_OF_ENV := 1

  /** The name a variable argument asks for: up to '=' or its end, in upper case. */
  function Key(s: string): string {
    if s == "" || s[0] == '=' then "" else [ToUpper(s[0])] + Key(s[1..])
  }

  lemma {:induction false} KeyAt(s: string, j: nat)
    requires j <= |Key(s)|
    ensures |Key(s)| <= |s|
    ensures j < |Key(s)| ==> s[j] != '=' && Key(s)[j] == ToUpper(s[j])
    ensures j == |Key(s)| ==> j == |s| || s[j] == '='
  {
    if j > 0 {
      KeyAt(s[1..], j - 1);
    } else if s != "" && s[0] != '=' {
      KeyAt(s[1..], 0);
    }
  }

  /** A block after `memmove`: n characters from src, now at dst. */
  function Moved(s: string, dst: nat, src: nat, n: nat): (r: string)
    requires dst + n <= |s| && src + n <= |s|
    ensures |r| == |s|
  {
    s[..dst] + s[src..src + n] + s[dst + n..]
  }

  /** A block after `strcpy`: the characters and a NUL, from dst on. */
  function Written(s: string, dst: nat, text: string): (r: string)
    requires dst + |text| + 1 <= |s|
    ensures |r| == |s|
  {
    s[..dst] + text + [NUL] + s[dst + |text| + 1..]
  }

  method MemMove(a: array<char>, dst: nat, src: nat, n: nat)
    requires dst + n <= a.Length && src + n <= a.Length
    modifies a
    ensures a[..] == Moved(old(a[..]), dst, src, n)
  {
    forall i | 0 <= i < n {
      a[dst + i] := a[src + i];
    }
  }

  method StrCpy(a: array<char>, dst: nat, text: string)
    requires dst + |text| + 1 <= a.Length
    modifies a
    ensures a[..] == Written(old(a[..]), dst, text)
  {
    forall i | 0 <= i < |text| {
      a[dst + i] := text[i];
    }
    a[dst + |text|] := NUL;
  }

  /** p is where entry k starts, or, for k past the last entry, where the extra NUL is. */
  ghost predicate At(es: seq<Entry>, k: nat, p: nat) {
    k <= |es| && p == |Body(es[..k])|
  }

  lemma AtStart(es: seq<Entry>)
    ensures At(es, 0, 0)
  {
    assert es[..0] == [];
  }

  lemma NextAt(es: seq<Entry>, k: nat, p: nat)
    requires k < |es| && At(es, k, p)
    ensures At(es, k + 1, p + |Bytes(es[k])|)
    ensures Image(es) == Body(es[..k]) + Bytes(es[k]) + Image(es[k + 1..]) && p + |Bytes(es[k])| < |Image(es)|
  {
    ImageSplit(es, k);
    assert es[..k + 1] == es[..k] + [es[k]];
    BodyAppend(es[..k], [es[k]]);
    BodyOne(es[k]);
  }

  lemma Middle(s: string, a: string, b: string, c: string)
    requires a + b + c <= s
    ensures forall i {:trigger b[i]} :: 0 <= i < |b| ==> s[|a| + i] == b[i]
  {
    forall i | 0 <= i < |b| ensures s[|a| + i] == b[i] {
      assert s[|a| + i] == (a + b + c)[|a| + i];
    }
  }

  /** The characters of the block around entry k. */
  lemma CharsAt(es: seq<Entry>, k: nat, p: nat, block: string)
    requires k < |es| && At(es, k, p) && Image(es) <= block
    ensures var b := Bytes(es[k]);
      && At(es, k + 1, p + |b|) && p + |b| < |Image(es)|
      && (forall i {:trigger b[i]} :: 0 <= i < |b| ==> block[p + i] == b[i])
  {
    hide Body, Bytes, Image;
    NextAt(es, k, p);
    Middle(block, Body(es[..k]), Bytes(es[k]), Image(es[k + 1..]));
  }

  lemma BytesChars(e: Entry)
    requires GoodName(e.name) && GoodValue(e.value)
    ensures var b := Bytes(e);
      && |b| == |e.name| + |e.value| + 2 && b[|e.name|] == '=' && b[|b| - 1] == NUL
      && (forall i :: 0 <= i < |b| - 1 ==> b[i] != NUL)
      && (forall i :: 0 <= i < |e.name| ==> b[i] == e.name[i] && b[i] != '=' && ToUpper(b[i]) == b[i])
      && (forall i {:trigger e.value[i]} :: 0 <= i < |e.value| ==> b[|e.name| + 1 + i] == e.value[i])
  {
    var b := Bytes(e);
    forall i | 0 <= i < |b| - 1 ensures b[i] != NUL {
      if i < |e.name| {
        assert b[i] == e.name[i] && e.name[i] in e.name;
      } else if i > |e.name| {
        assert b[i] == e.value[i - |e.name| - 1];
      }
    }
    forall i | 0 <= i < |e.name| ensures b[i] == e.name[i] && b[i] != '=' && ToUpper(b[i]) == b[i] {
      assert e.name[i] in e.name;
    }
  }

  lemma EndAt(es: seq<Entry>, block: string)
    requires Image(es) <= block
    ensures At(es, |es|, |Body(es)|) && |Body(es)| < |block| && block[|Body(es)|] == NUL
  {
    assert es[..|es|] == es;
    assert block[|Body(es)|] == Image(es)[|Body(es)|];
  }

  // ----- the argument of SET -----

  /** How many characters come before the first blank or '='. */
  function NameLen(s: string): (n: nat)
    ensures n <= |s|
  {
    if s == "" || IsSpace(s[0]) || s[0] == '=' then 0 else 1 + NameLen(s[1..])
  }

  function ArgName(s: string): string {
    Upper(s[..NameLen(s)])
  }

  /** The value starts after the name, an optional '=', and blanks around it. */
  function ArgValue(s: string): string {
    var r := SkipSpace(s[NameLen(s)..]);
    if r != "" && r[0] == '=' then SkipSpace(r[1..]) else r
  }

  lemma {:induction false} NameLenStops(s: string, j: nat)
    requires j <= NameLen(s)
    ensures j < NameLen(s) ==> !IsSpace(s[j]) && s[j] != '='
    ensures j == NameLen(s) ==> j == |s| || IsSpace(s[j]) || s[j] == '='
  {
    if j > 0 {
      NameLenStops(s[1..], j - 1);
    }
  }

  lemma {:induction false} NameLenOf(name: string, rest: string)
    requires forall c :: c in name ==> !IsSpace(c) && c != '='
    requires rest == "" || IsSpace(rest[0]) || rest[0] == '='
    ensures NameLen(name + rest) == |name| && (name + rest)[..|name|] == name && (name + rest)[|name|..] == rest
  {
    if name == "" {
      assert name + rest == rest;
    } else {
      assert (name + rest)[1..] == name[1..] + rest && name[0] in name;
      NameLenOf(name[1..], rest);
    }
  }

  lemma NotBlankAtFront(s: string)
    requires s == "" || !IsSpace(s[0])
    ensures SkipSpace(s) == s
  {
  }

  /** The forms of the argument: the name, then an equals sign with or without blanks around it, or
      just blanks, then the value. */
  lemma ArgumentForms(name: string, before: string, after: string, value: string)
    requires forall c :: c in name ==> !IsSpace(c) && c != '='
    requires Blank(before) && Blank(after) && (value == "" || !IsSpace(value[0]))
    ensures var s := name + (before + ("=" + (after + value))); ArgName(s) == Upper(name) && ArgValue(s) == value
    ensures before != "" && (value == "" || value[0] != '=') ==>
      var s := name + (before + value); ArgName(s) == Upper(name) && ArgValue(s) == value
  {
    var tail := "=" + (after + value);
    assert before != "" ==> before[0] in before && (before + tail)[0] == before[0] && (before + value)[0] == before[0];
    assert before == "" ==> before + tail == tail;
    NotBlankAtFront(value);
    SkipBlank(after, value);
    assert tail[1..] == after + value;
    NotBlankAtFront(tail);
    SkipBlank(before, tail);
    NameLenOf(name, before + tail);
    if before != "" {
      SkipBlank(before, value);
      NameLenOf(name, before + value);
    }
  }

  lemma ArgNameIsGood(s: string)
    requires NUL !in s
    ensures GoodName(ArgName(s))
  {
    var n := ArgName(s);
    forall c | c in n ensures c != NUL && c != '=' && !IsSpace(c) && ToUpper(c) == c {
      var j :| 0 <= j < |n| && n[j] == c;
      NameLenStops(s, j);
      assert c == ToUpper(s[j]) && s[j] in s;
    }
  }

  lemma {:induction false} KeyOfText(name: string, rest: string)
    requires GoodName(name) && (rest == "" || rest[0] == '=')
    ensures Key(name + rest) == name
  {
    if name == "" {
      assert name + rest == rest;
    } else {
      assert name[0] in name;
      assert forall c :: c in name[1..] ==> c in name;
      assert (name + rest)[1..] == name[1..] + rest;
      KeyOfText(name[1..], rest);
    }
  }

  lemma {:induction false} SkipSpaceKeeps(s: string)
    ensures NUL !in s ==> NUL !in SkipSpace(s)
  {
    if s != "" && IsSpace(s[0]) {
      SkipSpaceKeeps(s[1..]);
    }
  }

  lemma ArgValueIsGood(s: string)
    requires NUL !in s
    ensures NUL !in ArgValue(s)
  {
    SkipSpaceKeeps(s[NameLen(s)..]);
    var r := SkipSpace(s[NameLen(s)..]);
    if r != "" {
      SkipSpaceKeeps(r[1..]);
    }
  }

  /** Remove the blanks at position n. */
  method EatBlanks(s: string, n: nat) returns (t: string)
    requires n <= |s|
    ensures t == s[..n] + SkipSpace(s[n..])
  {
    t := s;
    while n < |t| && IsSpace(t[n])
      invariant n <= |t| && t[..n] == s[..n] && SkipSpace(t[n..]) == SkipSpace(s[n..])
      decreases |t|
    {
      assert t[n..][1..] == (t[..n] + t[n + 1..])[n..];
      t := t[..n] + t[n + 1..];
    }
    assert t == t[..n] + t[n..];
  }

  lemma UpperStep(s: string, n: nat)
    requires n < NameLen(s)
    ensures (ArgName(s)[..n] + s[n..])[n := ToUpper(s[n])] == ArgName(s)[..n + 1] + s[n + 1..]
    ensures (ArgName(s)[..n] + s[n..])[n] == s[n]
  {
  }

  /** Upper-case the name. */
  method UpperName(s: string) returns (text: string, n: nat)
    ensures n == NameLen(s) <= |text| == |s| && text == ArgName(s) + s[n..]
    ensures n < |text| && text[n] != '=' ==> IsSpace(text[n])
  {
    hide NameLen, ToUpper, Upper;
    ghost var name := ArgName(s);
    NameLenStops(s, 0);
    text, n := s, 0;
    while n < |text| && !IsSpace(text[n]) && text[n] != '='
      invariant n <= NameLen(s) <= |text| == |s| && text == name[..n] + s[n..]
    {
      NameLenStops(s, n);
      UpperStep(s, n);
      text := text[n := ToUpper(text[n])];
      n := n + 1;
    }
    NameLenStops(s, n);
    assert name[..n] == name;
  }

  /** Upper-case the name, close up the blanks around '=', and supply a missing '='. */
  method Normalize(envstr: string) returns (text: string, newArg: nat)
    requires NUL !in envstr
    ensures NUL !in text && Key(text) == ArgName(envstr)
    ensures newArg <= |text| && text[newArg..] == ArgValue(envstr)
    ensures newArg < |text| ==> text == ArgName(envstr) + "=" + ArgValue(envstr)
  {
    hide Key, GoodName;
    ghost var len, name := NameLen(envstr), ArgName(envstr);
    ArgNameIsGood(envstr);
    ArgValueIsGood(envstr);
    text, newArg := UpperName(envstr);
    assert text[..newArg] == name && text[newArg..] == envstr[len..];
    text := EatBlanks(text, newArg);
    ghost var r := SkipSpace(envstr[len..]);
    assert text == name + r;
    if newArg < |text| && text[newArg] == '=' {
      newArg := newArg + 1;
      assert text[..newArg] == name + "=" && text[newArg..] == r[1..];
      text := EatBlanks(text, newArg);
    } else if newArg < |text| {
      text := text[..newArg] + "=" + text[newArg..];
      newArg := newArg + 1;
    }
    assert text == name + text[len..];
    KeyOfText(name, text[len..]);
  }

  // ----- the image after an edit -----

  lemma PutDelete(es: seq<Entry>, k: nat)
    requires Proper(es) && k < |es|
    ensures Proper(es[..k] + es[k + 1..])
  {
    FindUnique(es, k);
    PutProper(es, es[k].name, "");
  }

  lemma PutReplace(es: seq<Entry>, k: nat, value: string)
    requires Proper(es) && k < |es| && GoodValue(value)
    ensures Proper(es[k := Entry(es[k].name, value)])
  {
    FindUnique(es, k);
    assert GoodName(es[k].name);
    PutProper(es, es[k].name, value);
  }

  /** Where A and C lie in a block that starts with A + B + C. */
  lemma SliceOut(s: string, a: string, b: string, c: string)
    requires a + b + c <= s
    ensures s[..|a|] == a && s[|a| + |b|..|a| + |b| + |c|] == c
  {
    assert s[..|a + b + c|] == a + b + c;
    assert s[..|a|] == (a + b + c)[..|a|];
    assert s[|a| + |b|..|a| + |b| + |c|] == (a + b + c)[|a| + |b|..];
  }

  /** Moving C down over B in A + B + C. */
  lemma CloseUp(s: string, a: string, b: string, c: string)
    requires a + b + c <= s
    ensures a + c <= Moved(s, |a|, |a| + |b|, |c|)
  {
    SliceOut(s, a, b, c);
  }

  lemma ImageDelete(es: seq<Entry>, k: nat)
    requires k < |es|
    ensures Image(es[..k] + es[k + 1..]) == Body(es[..k]) + Image(es[k + 1..])
  {
    BodyAppend(es[..k], es[k + 1..]);
  }

  lemma ImageReplace(es: seq<Entry>, k: nat, e: Entry)
    requires k < |es|
    ensures Image(es[k := e]) == Body(es[..k]) + Bytes(e) + Image(es[k + 1..])
  {
    ImageSplit(es[k := e], k);
    assert es[k := e][..k] == es[..k];
    assert es[k := e][k + 1..] == es[k + 1..];
  }

  lemma ImageAdd(es: seq<Entry>, e: Entry)
    ensures Image(es + [e]) == Body(es) + Bytes(e) + [NUL]
  {
    BodyAppend(es, [e]);
    BodyOne(e);
  }

  /** Making room for, or closing up after, a value in A + old + NUL + C, and writing it. */
  lemma SpliceValue(b0: string, a: string, was: string, now: string, c: string)
    requires a + was + [NUL] + c <= b0 && |a| + |now| + 1 + |c| <= |b0|
    ensures a + now + [NUL] + c
      <= Written(Moved(b0, |a| + |now| + 1, |a| + |was| + 1, |c|), |a|, now)
  {
    var q := |a| + |now| + 1;
    var b1 := Moved(b0, q, |a| + |was| + 1, |c|);
    var b2 := Written(b1, |a|, now);
    assert a + (was + [NUL]) + c == a + was + [NUL] + c;
    SliceOut(b0, a, was + [NUL], c);
    assert b1[..|a|] == a;
    assert b1[q..q + |c|] == c;
    assert b2[q..q + |c|] == b2[q..][..|c|] == b1[q..][..|c|] == b1[q..q + |c|];
    assert b2[..q] == a + now + [NUL];
    assert b2[..q + |c|] == b2[..q] + b2[q..q + |c|];
  }

  /** Shift what follows a value and write the new value in its place. */
  method WriteValue(block: array<char>, envArg: nat, next: nat, count: nat, newArg: string,
                    ghost a: string, ghost was: string, ghost c: string)
    requires a + was + [NUL] + c <= block[..]
    requires envArg == |a| && next == |a| + |was| + 1 && count == |c|
    requires envArg + |newArg| + 1 + count <= block.Length
    modifies block
    ensures a + newArg + [NUL] + c <= block[..]
  {
    SpliceValue(block[..], a, was, newArg, c);
    ghost var want := Written(Moved(block[..], envArg + |newArg| + 1, next, count), envArg, newArg);
    assert a + newArg + [NUL] + c <= want;
    MemMove(block, envArg + |newArg| + 1, next, count);
    StrCpy(block, envArg, newArg);
    assert block[..] == want;
  }

  /** The image around the value of entry k, before and after it is replaced. */
  lemma ImageAroundValue(es: seq<Entry>, k: nat, value: string)
    requires k < |es|
    ensures var a, c := Body(es[..k]) + (es[k].name + "="), Image(es[k + 1..]);
      && Image(es) == a + es[k].value + [NUL] + c
      && Image(es[k := Entry(es[k].name, value)]) == a + value + [NUL] + c
  {
    ImageSplit(es, k);
    ImageReplace(es, k, Entry(es[k].name, value));
  }

  class Environment {
    const block: array<char>
    ghost var entries: seq<Entry>

    /** The block decodes to the entries and ends with an extra NUL. */
    ghost predicate Valid()
      reads this, block
    {
      Proper(entries) && Image(entries) <= block[..]
    }

    /** An empty environment in a block of the given size. */
    constructor (envSize: nat)
      requires envSize > 0
      ensures Valid() && fresh(block) && block.Length == envSize && entries == []
    {
      block := new char[envSize](_ => NUL);
      entries := [];
    }

    method StrLen(p: nat) returns (n: nat)
      requires exists q :: p <= q < block.Length && block[q] == NUL
      ensures p + n < block.Length && block[p + n] == NUL
      ensures forall q :: p <= q < p + n ==> block[q] != NUL
    {
      n := 0;
      while block[p + n] != NUL
        invariant p + n < block.Length
        invariant forall q :: p <= q < p + n ==> block[q] != NUL
        decreases block.Length - p - n
      {
        n := n + 1;
      }
    }

    /** `next_env`, from anywhere in entry k before its terminating NUL. */
    method NextEnv(p: nat, ghost k: nat, ghost start: nat) returns (next: nat)
      requires Valid() && k < |entries| && At(entries, k, start)
      requires start <= p < start + |Bytes(entries[k])| - 1
      ensures At(entries, k + 1, next) && next == start + |Bytes(entries[k])|
    {
      ghost var b := Bytes(entries[k]);
      CharsAt(entries, k, start, block[..]);
      BytesChars(entries[k]);
      assert block[start + (|b| - 1)] == b[|b| - 1];
      var i := StrLen(p);
      assert p + i >= start + |b| - 1 by {
        forall q | start <= q < start + |b| - 1 ensures block[q] != NUL {
          assert block[start + (q - start)] == b[q - start];
        }
      }
      if i > 0 { i := i + 1; }
      next := p + i;
    }

    /** `end_of_env`. */
    method EndOfEnv() returns (p: nat)
      requires Valid()
      ensures p == |Body(entries)|
    {
      EndAt(entries, block[..]);
      p := 0;
      ghost var k := 0;
      while block[p] != NUL
        invariant At(entries, k, p) && p < block.Length
        decreases |entries| - k
      {
        assert k < |entries| by { StopsAt(k, p); }
        CharsAt(entries, k, p, block[..]);
        BytesChars(entries[k]);
        p := NextEnv(p, k, p);
        k := k + 1;
        StopsAt(k, p);
      }
      StopsAt(k, p);
    }

    /** A walk over the entries finds a NUL exactly when it is past the last one. */
    lemma StopsAt(k: nat, p: nat)
      requires Valid() && At(entries, k, p)
      ensures p < block.Length && (block[p] == NUL <==> k == |entries|)
      ensures k == |entries| ==> p == |Body(entries)|
    {
      EndAt(entries, block[..]);
      if k < |entries| {
        CharsAt(entries, k, p, block[..]);
        BytesChars(entries[k]);
        assert block[p + 0] == Bytes(entries[k])[0];
      }
    }

    /** The name of entry k as it lies in the block. */
    lemma NameAt(k: nat, start: nat)
      requires Valid() && k < |entries| && At(entries, k, start)
      ensures var name := entries[k].name;
        && start + |name| < block.Length && block[start + |name|] == '='
        && (forall t :: 0 <= t < |name| ==>
              block[start + t] == name[t] && name[t] != '=' && name[t] != NUL && ToUpper(name[t]) == name[t])
    {
      var e := entries[k];
      CharsAt(entries, k, start, block[..]);
      BytesChars(e);
      var b := Bytes(e);
      assert block[start + |e.name|] == b[|e.name|];
      forall t | 0 <= t < |e.name| ensures block[start + t] == e.name[t] && e.name[t] in e.name {
        assert block[start + t] == b[t];
      }
    }

    /** The do-while loop of `envget`: compare the name asked for with that of entry k.  On
        success env is at the entry's '=', otherwise it is left inside the entry. */
    method MatchEntry(varname: string, start: nat, ghost k: nat) returns (found: bool, env: nat)
      requires Valid() && k < |entries| && At(entries, k, start) && NUL !in varname
      ensures found <==> entries[k].name == Key(varname)
      ensures found ==> env == start + |entries[k].name|
      ensures !found ==> start <= env < start + |Bytes(entries[k])| - 1
    {
      ghost var name, key := entries[k].name, Key(varname);
      NameAt(k, start);
      BytesChars(entries[k]);
      KeyAt(varname, 0);
      env := start;
      var v := 0;
      while true
        invariant v <= |name| && v <= |key| <= |varname| && env == start + v
        invariant forall t :: 0 <= t < v ==> name[t] == key[t]
        decreases |varname| - v
      {
        KeyAt(varname, v);
        if (v == |varname| || varname[v] == '=') && block[env] == '=' {
          assert v == |key|;
          assert v == |name|;
          assert name == key;
          return true, env;
        }
        var c := block[env];
        var d := if v < |varname| then varname[v] else NUL;
        assert v < |name| ==> c == name[v];
        env := env + 1;
        v := v + 1;
        if ToUpper(c) != ToUpper(d) {
          assert name != key;
          return false, env;
        }
      }
    }

    /** `envget`: where the value of a variable is, whatever the case of the name asked for. */
    method EnvGet(varname: string) returns (r: Option<nat>)
      requires Valid() && NUL !in varname
      ensures ValueAt(entries, Find(entries, Key(varname)), r)
    {
      hide Body, Image, Bytes, Proper, Key;
      var env: nat := 0;
      ghost var k := 0;
      ghost var key := Key(varname);
      AtStart(entries);
      StopsAt(0, 0);
      while block[env] != NUL
        invariant At(entries, k, env) && env < block.Length
        invariant forall j :: 0 <= j < k ==> entries[j].name != key
        decreases |entries| - k
      {
        StopsAt(k, env);
        ghost var start := env;
        var found;
        found, env := MatchEntry(varname, env, k);
        if found {
          FindUnique(entries, k);
          return Some(env + 1);
        }
        env := NextEnv(env, k, start);
        k := k + 1;
        StopsAt(k, env);
      }
      StopsAt(k, env);
      return None;
    }

    /** Where the value of entry k ends. */
    lemma ValueLength(k: nat, start: nat, arg: nat)
      requires Valid() && k < |entries| && At(entries, k, start) && arg == start + |entries[k].name| + 1
      ensures var n := |entries[k].value|;
        && arg + n < block.Length && block[arg + n] == NUL
        && forall q :: arg <= q < arg + n ==> block[q] != NUL
    {
      var e := entries[k];
      var b := Bytes(e);
      CharsAt(entries, k, start, block[..]);
      BytesChars(e);
      assert block[start + (|b| - 1)] == b[|b| - 1];
      forall q | arg <= q < arg + |e.value| ensures block[q] != NUL {
        assert block[start + (q - start)] == b[q - start];
      }
    }

    /** Delete entry k, which starts at eptr. */
    method DeleteAt(eptr: nat, lastVar: nat, ghost k: nat)
      requires Valid() && k < |entries| && At(entries, k, eptr) && lastVar == |Body(entries)|
      modifies this`entries, block
      ensures Valid() && entries == old(entries)[..k] + old(entries)[k + 1..]
    {
      hide Body, Bytes;
      ghost var es, b0 := entries, block[..];
      BytesChars(es[k]);
      ImageSplit(es, k);
      ImageDelete(es, k);
      var next := NextEnv(eptr, k, eptr);
      PutDelete(es, k);
      CloseUp(b0, Body(es[..k]), Bytes(es[k]), Image(es[k + 1..]));
      ghost var want := Moved(b0, eptr, next, lastVar - next + 1);
      assert Body(es[..k]) + Image(es[k + 1..]) <= want;
      MemMove(block, eptr, next, lastVar - next + 1);
      assert block[..] == want;
      entries := es[..k] + es[k + 1..];
    }

    /** Replace the value of entry k, which starts at eptr, when there is room. */
    method ReplaceAt(eptr: nat, envArg: nat, lastVar: nat, newArg: string, ghost k: nat) returns (rc: int)
      requires Valid() && k < |entries| && At(entries, k, eptr) && lastVar == |Body(entries)|
      requires envArg == eptr + |entries[k].name| + 1 && GoodValue(newArg)
      modifies this`entries, block
      ensures Valid()
      ensures rc == (if |Body(old(entries)[k := Entry(old(entries)[k].name, newArg)])| >= block.Length - 2 then OUT_OF_ENV else 0)
      ensures rc == 0 ==> entries == old(entries)[k := Entry(old(entries)[k].name, newArg)]
      ensures rc != 0 ==> entries == old(entries) && block[..] == old(block[..])
    {
      ghost var es := entries;
      ghost var a, c := Body(es[..k]) + (es[k].name + "="), Image(es[k + 1..]);
      ImageAroundValue(es, k, newArg);
      ValueLength(k, eptr, envArg);
      var oldLen := StrLen(envArg);
      assert oldLen == |es[k].value|;
      var length := |newArg| - oldLen;
      if lastVar + length >= block.Length - 2 {
        return OUT_OF_ENV;
      }
      var next := NextEnv(eptr, k, eptr);
      PutReplace(es, k, newArg);
      WriteValue(block, envArg, next, lastVar - next + 1, newArg, a, es[k].value, c);
      entries := es[k := Entry(es[k].name, newArg)];
      return 0;
    }

    /** Add an entry at the end, when there is room. */
    method AppendAt(lastVar: nat, text: string, ghost e: Entry) returns (rc: int)
      requires Valid() && lastVar == |Body(entries)|
      requires text == e.name + "=" + e.value && Proper(entries + [e])
      modifies this`entries, block
      ensures Valid()
      ensures rc == (if |Body(old(entries) + [e])| >= block.Length - 2 then OUT_OF_ENV else 0)
      ensures rc == 0 ==> entries == old(entries) + [e]
      ensures rc != 0 ==> entries == old(entries) && block[..] == old(block[..])
    {
      ghost var es, b0 := entries, block[..];
      ImageAdd(es, e);
      BodyAppend(es, [e]);
      BodyOne(e);
      var length := |text| + 1;
      if lastVar + length >= block.Length - 2 {
        return OUT_OF_ENV;
      }
      ghost var want := Written(b0, lastVar, text)[lastVar + length := NUL];
      AddedImage(b0, Body(es), text);
      StrCpy(block, lastVar, text);
      block[lastVar + length] := NUL;
      assert block[..] == want;
      entries := es + [e];
      return 0;
    }

    /** `addenv`: add, replace or delete a variable.  It fails, leaving the block as it was,
        exactly when a value is given and the entries would then reach the last two bytes. */
    method AddEnv(envstr: string) returns (rc: int)
      requires Valid() && NUL !in envstr
      modifies this`entries, block
      ensures Valid()
      ensures rc != 0 <==> (ArgValue(envstr) != ""
        && |Body(Put(old(entries), ArgName(envstr), ArgValue(envstr)))| >= block.Length - 2)
      ensures rc == 0 ==> entries == Put(old(entries), ArgName(envstr), ArgValue(envstr))
      ensures rc != 0 ==> entries == old(entries) && block[..] == old(block[..])
      ensures rc == 0 && ArgValue(envstr) != "" ==> |Image(entries)| <= block.Length - 2
    {
      ghost var es, name, value := entries, ArgName(envstr), ArgValue(envstr);
      ArgNameIsGood(envstr);
      ArgValueIsGood(envstr);
      PutProper(es, name, value);
      var text, newArg := Normalize(envstr);
      var lastVar := EndOfEnv();
      var envArg := EnvGet(text);
      ghost var k := Find(es, name);
      if envArg.Some? {
        var eptr := StartOf(envArg.value, k);
        if newArg == |text| {
          DeleteAt(eptr, lastVar, k);
          rc := 0;
        } else {
          rc := ReplaceAt(eptr, envArg.value, lastVar, text[newArg..], k);
        }
      } else if newArg < |text| {
        rc := AppendAt(lastVar, text, Entry(name, value));
      } else {
        rc := 0;
      }
    }

    /** Walk back from the value of entry k to where the entry starts. */
    method StartOf(envArg: nat, ghost k: nat) returns (eptr: nat)
      requires Valid() && k < |entries| && ValueAt(entries, k, Some(envArg))
      ensures At(entries, k, eptr)
    {
      ghost var start := |Body(entries[..k])|;
      BeforeEntry(k, start);
      eptr := envArg;
      while eptr > 0 && block[eptr - 1] != NUL
        invariant start <= eptr <= envArg < block.Length
      {
        eptr := eptr - 1;
      }
    }

    /** An entry is preceded by the NUL of the entry before it. */
    lemma BeforeEntry(k: nat, start: nat)
      requires Valid() && k < |entries| && At(entries, k, start)
      ensures start > 0 ==> start - 1 < block.Length && block[start - 1] == NUL
      ensures start + |entries[k].name| + 1 < block.Length
      ensures forall q :: start <= q < start + |entries[k].name| + 1 ==> block[q] != NUL
    {
      var b := Bytes(entries[k]);
      CharsAt(entries, k, start, block[..]);
      BytesChars(entries[k]);
      forall q | start <= q < start + |entries[k].name| + 1 ensures block[q] != NUL {
        assert block[start + (q - start)] == b[q - start];
      }
      if k > 0 {
        EndsInNul(k - 1);
      }
    }

    lemma EndsInNul(k: nat)
      requires Valid() && k < |entries|
      ensures var p := |Body(entries[..k + 1])|; 0 < p <= block.Length && block[p - 1] == NUL
    {
      hide Body, Bytes, Proper;
      var start, b := |Body(entries[..k])|, Bytes(entries[k]);
      CharsAt(entries, k, start, block[..]);
      EntryChars(k);
      assert block[start + (|b| - 1)] == b[|b| - 1];
    }

    lemma EntryChars(k: nat)
      requires Valid() && k < |entries|
      ensures var b := Bytes(entries[k]); |b| > 0 && b[|b| - 1] == NUL
    {
    }
  }

  /** Writing one more entry and a NUL at the end of the body. */
  lemma AddedImage(b0: string, body: string, text: string)
    requires body + [NUL] <= b0 && |body| + |text| + 2 <= |b0|
    ensures body + (text + [NUL]) + [NUL] <= Written(b0, |body|, text)[|body| + |text| + 1 := NUL]
  {
    assert b0[..|body|] == (body + [NUL])[..|body|];
  }

  /** r is where the value of entry k is, or None for no entry. */
  ghost predicate ValueAt(es: seq<Entry>, k: nat, r: Option<nat>) {
    if k < |es| then r == Some(|Body(es[..k])| + |es[k].name| + 1) else r == None
  }
}
