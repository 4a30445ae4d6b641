/** The information text buffer and its wrapped text (ASQENG/INFO.C, built with TEXTWRAP). */
module Info {
  import opened CText

  const MAX_WIDTH := 72
  const CODE_BASE := 32
  const IEXTRA := 2

  /** A stored line: two coding bytes and the text. */
  datatype InfoLine = InfoLine(color: char, format: char, text: string)

  function Coded(l: InfoLine): string {
    [l.color, l.format] + l.text
  }

  // ----- the packed buffer -----

  function Packed(ls: seq<InfoLine>): string {
    if ls == [] then [] else Packed(ls[..|ls| - 1]) + Coded(ls[|ls| - 1]) + [NUL]
  }

  /** Where line k starts; for k past the last line, where the text ends. */
  function Offset(ls: seq<InfoLine>, k: nat): nat
    requires k <= |ls|
  {
    |Packed(ls[..k])|
  }

  lemma {:induction false} PackedPrefix(ls: seq<InfoLine>, k: nat)
    requires k <= |ls|
    ensures Packed(ls[..k]) <= Packed(ls)
    decreases |ls| - k
  {
    if k < |ls| {
      assert ls[..k + 1][..k] == ls[..k];
      PackedPrefix(ls, k + 1);
    } else {
      assert ls[..k] == ls;
    }
  }

  lemma PackedStep(ls: seq<InfoLine>, k: nat)
    requires k < |ls|
    ensures Packed(ls[..k + 1]) == Packed(ls[..k]) + Coded(ls[k]) + [NUL]
    ensures Offset(ls, k + 1) == Offset(ls, k) + |Coded(ls[k])| + 1 <= |Packed(ls)|
  {
    assert ls[..k + 1][..k] == ls[..k];
    PackedPrefix(ls, k + 1);
  }

  lemma PackedMore(ls: seq<InfoLine>, l: InfoLine)
    ensures Packed(ls + [l]) == Packed(ls) + Coded(l) + [NUL] && |Coded(l)| == |l.text| + 2
    ensures Widest(ls + [l]) == if Widest(ls) < |l.text| then |l.text| else Widest(ls)
    ensures NUL in Coded(l) ==> l.color == NUL || l.format == NUL || NUL in l.text
  {
    assert (ls + [l])[..|ls|] == ls;
  }

  /** Where c lies in a string that starts with a + c and a NUL. */
  lemma Inside(s: string, a: string, c: string)
    requires a + c + [NUL] <= s
    ensures s[|a|..|a| + |c|] == c && s[|a| + |c|] == NUL
  {
    var t := a + c + [NUL];
    assert s[..|t|] == t;
    assert s[|a|..|a| + |c|] == t[|a|..|a| + |c|];
    assert s[|a| + |c|] == t[|a| + |c|];
  }

  /** The characters of line k, and the NUL after them. */
  lemma LineAt(ls: seq<InfoLine>, k: nat, s: string)
    requires k < |ls| && Packed(ls) <= s
    ensures var p, c := Offset(ls, k), Coded(ls[k]);
      && Offset(ls, k + 1) == p + |c| + 1 <= |Packed(ls)|
      && s[p..p + |c|] == c && s[p + |c|] == NUL
  {
    PackedStep(ls, k);
    PackedPrefix(ls, k + 1);
    Inside(s, Packed(ls[..k]), Coded(ls[k]));
  }

  lemma OffsetEnd(ls: seq<InfoLine>)
    ensures Offset(ls, |ls|) == |Packed(ls)| && Offset(ls, 0) == 0
  {
    assert ls[..|ls|] == ls;
  }

  /** The longest text. */
  function Widest(ls: seq<InfoLine>): nat {
    if ls == [] then 0
    else if Widest(ls[..|ls| - 1]) < |ls[|ls| - 1].text| then |ls[|ls| - 1].text|
    else Widest(ls[..|ls| - 1])
  }

  // ----- wrapping -----

  /** The lines a string is broken into: all of it when it ends short of the width, otherwise as
      much as fills the width, the rest going on under the other leader. */
  function Wrapped(lead: string, next: string, s: string, width: nat): seq<string>
    requires |lead| < width && |next| < width
    decreases |s|
  {
    if s == "" then []
    else if |lead| + |s| < width then [lead + s]
    else
      var n := width - |lead|;
      [lead + s[..n]] + Wrapped(next, next, s[n..], width)
  }

  /** The lines without their leaders, end to end. */
  function Bodies(ls: seq<string>, lead: nat, next: nat): string
    decreases |ls|
  {
    if ls == [] then ""
    else (if lead <= |ls[0]| then ls[0][lead..] else "") + Bodies(ls[1..], next, next)
  }

  /** No line is wider than the width, each starts with its leader, and the bodies put end to end
      are the string. */
  lemma {:induction false} WrappedKeepsText(lead: string, next: string, s: string, width: nat)
    requires |lead| < width && |next| < width
    ensures var ls := Wrapped(lead, next, s, width);
      && (forall k :: 0 <= k < |ls| ==> |ls[k]| <= width && (if k == 0 then lead else next) < ls[k])
      && Bodies(ls, |lead|, |next|) == s
    decreases |s|
  {
    if s != "" && |lead| + |s| >= width {
      var n := width - |lead|;
      WrappedKeepsText(next, next, s[n..], width);
      assert s == s[..n] + s[n..];
    }
  }

  /** Every line but the last fills the width. */
  lemma {:induction false} WrappedFills(lead: string, next: string, s: string, width: nat, k: nat)
    requires |lead| < width && |next| < width && k + 1 < |Wrapped(lead, next, s, width)|
    ensures |Wrapped(lead, next, s, width)[k]| == width
    decreases k
  {
    var n := width - |lead|;
    assert Wrapped(lead, next, s, width) == [lead + s[..n]] + Wrapped(next, next, s[n..], width);
    if k > 0 {
      WrappedFills(next, next, s[n..], width, k - 1);
    }
  }

  // ----- the buffer in place -----

  function Min(a: int, b: int): int {
    if a < b then a else b
  }

  /** The coding bytes a line is stored with. */
  function Stored(text: string, color: nat, format: nat): InfoLine
    requires color < 0x100 && format < 0x100
  {
    InfoLine(Min(|text| + CODE_BASE, color) as char, format as char, text)
  }

  class InfoText {
    var width: nat
    var length: nat
    var color: nat
    var format: nat
    var ovfl: bool
    var end: nat
    const base: array<char>

    ghost var lines: seq<InfoLine>

    /** The stored text is the lines, packed; each is free of NULs; the statistics are theirs. */
    ghost predicate Valid()
      reads this, base
    {
      && CODE_BASE <= color < 0x100 && 0 < format < 0x100
      && end == |Packed(lines)| && Packed(lines) <= base[..]
      && (forall l :: l in lines ==> NUL !in Coded(l))
      && length == |lines| && width == Widest(lines)
    }

    /** `info_init`, with room for limit bytes of text. */
    constructor (limit: nat)
      ensures Valid() && fresh(base) && lines == [] && !ovfl && base.Length == limit
    {
      base := new char[limit];
      width, length, color, format, ovfl, end, lines := 0, 0, CODE_BASE, CODE_BASE, false, 0, [];
    }

    /** `iputs`: store a line, unless it does not fit or an earlier one did not. */
    method IPuts(text: string) returns (nc: nat)
      requires Valid() && NUL !in text
      modifies this`width, this`length, this`ovfl, this`end, this`lines, base
      ensures Valid()
      ensures ovfl <==> (old(ovfl) || base.Length - old(end) < |text| + IEXTRA + 1)
      ensures ovfl ==> nc == 0 && lines == old(lines)
      ensures !ovfl ==> nc == |text| && lines == old(lines) + [Stored(text, color, format)]
    {
      hide Packed, Coded, Widest;
      nc := |text|;
      if ovfl || base.Length - end < nc + IEXTRA + 1 {
        ovfl := true;
        return 0;
      }
      ghost var l := Stored(text, color, format);
      WriteLine(Min(nc + CODE_BASE, color) as char, text);
      end := end + nc + IEXTRA + 1;
      width := if width < nc then nc else width;
      length := length + 1;
      PackedMore(lines, l);
      lines := lines + [l];
    }

    /** Write the coding bytes and the text at the end of what is stored. */
    method WriteLine(c: char, text: string)
      requires 0 < format < 0x100 && end + |text| + IEXTRA + 1 <= base.Length
      modifies base
      ensures base[..end + |text| + IEXTRA + 1]
        == old(base[..end]) + Coded(InfoLine(c, format as char, text)) + [NUL]
    {
      var cp := end;
      base[cp] := c;
      base[cp + 1] := format as char;
      forall i | 0 <= i < |text| {
        base[cp + 2 + i] := text[i];
      }
      base[cp + 2 + |text|] := NUL;
    }

    method StrLen(p: nat) returns (n: nat)
      requires exists q :: p <= q < base.Length && base[q] == NUL
      ensures p + n < base.Length && base[p + n] == NUL
      ensures forall q :: p <= q < p + n ==> base[q] != NUL
    {
      n := 0;
      while base[p + n] != NUL
        invariant p + n < base.Length
        invariant forall q :: p <= q < p + n ==> base[q] != NUL
        decreases base.Length - p - n
      {
        n := n + 1;
      }
    }

    /** How long line k is, as `strlen` finds it. */
    method LineLength(p: nat, ghost k: nat) returns (n: nat)
      requires Valid() && k < |lines| && p == Offset(lines, k)
      ensures n == |Coded(lines[k])| && p + n + 1 == Offset(lines, k + 1) <= end <= base.Length
      ensures base[p..p + n] == Coded(lines[k])
    {
      ghost var c := Coded(lines[k]);
      LineAt(lines, k, base[..]);
      assert base[p..p + |c|] == c;
      assert base[p + |c|] == NUL;
      n := StrLen(p);
      forall q | p <= q < p + |c| ensures base[q] != NUL {
        assert base[q] == base[p..p + |c|][q - p] && base[q] in c;
      }
      assert lines[k] in lines;
    }

    /** `info_fetch`: the line at an offset, cut to nstr - 1 characters, and the offset of the
        next; or 0 when there are no more lines. */
    method InfoFetch(current: nat, nstr: nat, ghost k: nat) returns (str: string, next: nat)
      requires Valid() && k <= |lines| && current == Offset(lines, k)
      ensures k < |lines| ==> next == Offset(lines, k + 1) > 0
      ensures k < |lines| && nstr > |Coded(lines[k])| ==> str == Coded(lines[k])
      ensures k < |lines| && 1 < nstr <= |Coded(lines[k])| ==> str == Coded(lines[k])[..nstr - 1]
      ensures k == |lines| ==> next == 0
    {
      str := "";
      OffsetEnd(lines);
      if k < |lines| {
        PackedStep(lines, k);
      }
      if current < end {
        var n := LineLength(current, k);
        var copied := n;
        if nstr > 1 {
          if n > nstr - 1 { copied := nstr - 1; }
          str := base[current..current + n][..copied];
        }
        next := current + n + 1;
      } else {
        next := 0;
      }
    }

    /** Fetching from offset 0 until 0 comes back yields the stored lines, in order. */
    method FetchAll(nstr: nat) returns (all: seq<string>)
      requires Valid() && forall l :: l in lines ==> |Coded(l)| < nstr
      ensures |all| == |lines| && forall k :: 0 <= k < |lines| ==> all[k] == Coded(lines[k])
    {
      all := [];
      var next := 0;
      OffsetEnd(lines);
      while true
        invariant |all| <= |lines| && next == Offset(lines, |all|)
        invariant forall k :: 0 <= k < |all| ==> all[k] == Coded(lines[k])
        decreases |lines| - |all|
      {
        ghost var k := |all|;
        assert k < |lines| ==> lines[k] in lines;
        var str;
        str, next := InfoFetch(next, nstr, k);
        if next == 0 { break; }
        all := all + [str];
      }
    }

    /** `info_seek`: the offset after that many fetches, or 0 past the last line. */
    method InfoSeek(place: int) returns (offset: nat)
      requires Valid()
      ensures offset == if 0 <= place <= |lines| then Offset(lines, place) else 0
    {
      var left := place;
      offset := 0;
      ghost var k := 0;
      OffsetEnd(lines);
      while left > 0 && offset < end
        invariant k <= |lines| && offset == Offset(lines, k)
        invariant place <= 0 ==> left == place && k == 0
        invariant place > 0 ==> left == place - k && left >= 0
        invariant offset >= end ==> k == |lines|
      {
        var n := LineLength(offset, k);
        offset := offset + n + 1;
        left := left - 1;
        k := k + 1;
        if k < |lines| { PackedStep(lines, k); }
      }
      if left > 0 {
        return 0;
      }
    }

    /** `info_color`: set the coding byte of the lines to come, and tell the old one. */
    method InfoColor(newColor: nat) returns (oldColor: nat)
      requires Valid() && newColor + CODE_BASE < 0x100
      modifies this`color
      ensures Valid() && color == newColor + CODE_BASE && oldColor == old(color) - CODE_BASE
    {
      oldColor := color - CODE_BASE;
      color := newColor + CODE_BASE;
    }

    /** Store one more line of a wrapped string. */
    method Emit(line: string, ghost before: seq<InfoLine>, ghost out: seq<string>, ghost first: nat, ghost others: nat)
      requires Valid() && NUL !in line && first < 0x100 && others < 0x100
      requires color == if out == [] then first else others
      requires !ovfl ==> lines == before + StoredAll(out, first, others, format)
      modifies this`width, this`length, this`ovfl, this`end, this`lines, base
      ensures Valid()
      ensures !ovfl ==> lines == before + StoredAll(out + [line], first, others, format)
    {
      StoreMore(before, out, line, first, others, format);
      var _ := IPuts(line);
    }

    /** `iwraptext`: store a string in lines no wider than the width, the first after `format1`
        and the others after `format2`; the others are stored in the continuation color. */
    method IWrapText(format1: string, format2: string, text: string, width0: nat, contin: nat) returns (nlines: nat)
      requires Valid() && NUL !in format1 && NUL !in format2 && NUL !in text && contin + CODE_BASE < 0x100
      requires |format1| < Min(width0, MAX_WIDTH) && |format2| < Min(width0, MAX_WIDTH)
      modifies this`width, this`length, this`ovfl, this`end, this`lines, this`color, base
      ensures Valid() && color == old(color)
      ensures var ws := Wrapped(format1, format2, text, Min(width0, MAX_WIDTH));
        && nlines == |ws|
        && (!ovfl ==> lines == old(lines) + StoredAll(ws, old(color), contin + CODE_BASE, format))
    {
      hide Wrapped, Packed, Widest, Coded;
      var wide := Min(width0, MAX_WIDTH);
      var oldColor := InfoColor(0);
      var _ := InfoColor(oldColor);
      WrapOnIsWrapped([], format1, format2, text, wide);
      ghost var color0, lines0, all, out := color, lines, Wrapped(format1, format2, text, wide), [];
      nlines := 0;
      var line, rest := format1, text;
      var n0: nat := |line|;
      while rest != ""
        invariant Valid() && NUL !in line && NUL !in rest
        invariant n0 <= |line| <= wide && n0 < wide && (|line| > n0 && rest != "" ==> |line| == wide)
        invariant nlines == |out| && color == if out == [] then color0 else contin + CODE_BASE
        invariant WrapOn(out, line, n0, format2, rest, wide) == all
        invariant !ovfl ==> lines == lines0 + StoredAll(out, color0, contin + CODE_BASE, format)
        decreases |rest|, |line| - n0
      {
        if |line| + |rest| < wide {
          line := line + rest;
          rest := "";
        } else if |line| == n0 {
          var n2 := wide - |line|;
          CleanParts(line, rest, n2);
          line := line + rest[..n2];
          rest := rest[n2..];
        } else {
          Emit(line, lines0, out, color0, contin + CODE_BASE);
          out := out + [line];
          nlines := nlines + 1;
          line := format2;
          n0 := |line|;
          var _ := InfoColor(contin);
        }
      }
      if |line| != n0 {
        Emit(line, lines0, out, color0, contin + CODE_BASE);
        out := out + [line];
        nlines := nlines + 1;
      }
      assert out == all;
      var _ := InfoColor(oldColor);
    }
  }

  /** The lines of a string from a line under way: `done` are stored already. */
  ghost function WrapOn(done: seq<string>, line: string, n0: nat, next: string, rest: string, width: nat): seq<string>
    requires n0 <= |line| <= width && n0 < width && |next| < width
    decreases |rest|, |line| - n0
  {
    if rest == "" then (if |line| == n0 then done else done + [line])
    else if |line| > n0 then WrapOn(done + [line], next, |next|, next, rest, width)
    else if |line| + |rest| < width then done + [line + rest]
    else
      var n := width - |line|;
      WrapOn(done, line + rest[..n], n0, next, rest[n..], width)
  }

  lemma {:induction false} WrapOnIsWrapped(done: seq<string>, lead: string, next: string, s: string, width: nat)
    requires |lead| < width && |next| < width
    ensures WrapOn(done, lead, |lead|, next, s, width) == done + Wrapped(lead, next, s, width)
    decreases |s|
  {
    if s != "" && |lead| + |s| >= width {
      var n := width - |lead|;
      var line := lead + s[..n];
      WrapOnIsWrapped(done + [line], next, next, s[n..], width);
      assert WrapOn(done, line, |lead|, next, s[n..], width)
        == done + [line] + Wrapped(next, next, s[n..], width);
    }
  }

  /** Lines as they are stored: the first in one color, the others in another. */
  function StoredAll(ls: seq<string>, first: nat, others: nat, format: nat): seq<InfoLine>
    requires first < 0x100 && others < 0x100 && format < 0x100
  {
    if ls == [] then []
    else StoredAll(ls[..|ls| - 1], first, others, format)
         + [Stored(ls[|ls| - 1], if |ls| == 1 then first else others, format)]
  }

  /** The first line is stored in its color, the others in theirs, each with its text. */
  lemma {:induction false} StoredAt(ls: seq<string>, first: nat, others: nat, format: nat, k: nat)
    requires first < 0x100 && others < 0x100 && format < 0x100 && k < |ls|
    ensures var all := StoredAll(ls, first, others, format);
      && |all| == |ls| && all[k].text == ls[k] && all[k].format == format as char
      && all[k].color as int == Min(|ls[k]| + 32, if k == 0 then first else others)
    decreases |ls|
  {
    if |ls| > 1 {
      StoredAt(ls[..|ls| - 1], first, others, format, if k < |ls| - 1 then k else 0);
    }
  }

  lemma StoreMore(before: seq<InfoLine>, ls: seq<string>, l: string, first: nat, others: nat, format: nat)
    requires first < 0x100 && others < 0x100 && format < 0x100
    ensures before + StoredAll(ls, first, others, format) + [Stored(l, if ls == [] then first else others, format)]
      == before + StoredAll(ls + [l], first, others, format)
  {
    assert (ls + [l])[..|ls|] == ls;
  }

  lemma CleanParts(line: string, rest: string, n: nat)
    requires n <= |rest| && NUL !in line && NUL !in rest
    ensures NUL !in line + rest[..n] && NUL !in rest[n..]
  {
  }
}
