/** The text layer of the snapshot files: `lprintf` puts characters out with quotes and backslashes
    escaped (ASQENG/WRITSYS.C), `scn_token` takes tokens in (ASQENG/READSYS.C). */
module Scanner {
  import opened CText

  const CTRL_Z: char := 26 as char

  /** What is left to read of a file. */
  datatype Input = End | More(c: char, rest: Input)

  function Size(i: Input): nat {
    if i.End? then 0 else 1 + Size(i.rest)
  }

  function Feed(s: string, rest: Input): Input {
    if s == "" then rest else More(s[0], Feed(s[1..], rest))
  }

  lemma {:induction false} FeedCat(a: string, b: string, rest: Input)
    ensures Feed(a + b, rest) == Feed(a, Feed(b, rest))
  {
    if a == "" {
      assert a + b == b;
    } else {
      assert (a + b)[1..] == a[1..] + b;
      FeedCat(a[1..], b, rest);
    }
  }

  // ----- writing -----

  function LaunderChar(c: char): string {
    if c == '\\' || c == '"' then ['\\', c] else if c == CTRL_Z then "\"" else [c]
  }

  /** What `lprintf` puts out for the formatted text. */
  function Launder(s: string): string {
    if s == "" || s[0] == NUL then "" else LaunderChar(s[0]) + Launder(s[1..])
  }

  /** Formatted text put in front of what is to be read later. */
  function Put(s: string, rest: Input): Input {
    Feed(Launder(s), rest)
  }

  lemma {:induction false} LaunderCat(a: string, b: string)
    requires NUL !in a
    ensures Launder(a + b) == Launder(a) + Launder(b)
  {
    if a == "" {
      assert a + b == b;
    } else {
      assert (a + b)[1..] == a[1..] + b;
      LaunderCat(a[1..], b);
    }
  }

  lemma PutCat(a: string, b: string, rest: Input)
    requires NUL !in a
    ensures Put(a + b, rest) == Put(a, Put(b, rest))
  {
    LaunderCat(a, b);
    FeedCat(Launder(a), Launder(b), rest);
  }

  lemma PutChar(s: string, rest: Input)
    requires s != "" && s[0] != NUL
    ensures var c, after := s[0], Put(s[1..], rest);
      Put(s, rest) == if c == '\\' || c == '"' then More('\\', More(c, after))
      else if c == CTRL_Z then More('"', after)
      else More(c, after)
  {
    var a := LaunderChar(s[0]);
    FeedCat(a, Launder(s[1..]), rest);
    if |a| == 2 {
      assert a[1..] == [s[0]] && [s[0]][1..] == "";
    } else {
      assert a[1..] == "";
    }
  }

  lemma LaunderNext(s: string, k: nat)
    requires k < |s| && s[k] != NUL
    ensures Launder(s[k..]) == LaunderChar(s[k]) + Launder(s[k + 1..])
  {
    assert s[k..][1..] == s[k + 1..];
  }

  lemma LaunderEnds(s: string)
    ensures s[0..] == s
    ensures forall k: nat {:trigger s[k..]} :: k <= |s| && (k == |s| || s[k] == NUL) ==> Launder(s[k..]) == ""
  {
  }

  class Writer {
    var file: string

    constructor ()
      ensures file == ""
    {
      file := "";
    }

    method Fputc(c: char)
      modifies this
      ensures file == old(file) + [c]
    {
      file := file + [c];
    }

    /** `lprintf`, given the text that its format and arguments make; that text and its terminator
        fit the function's buffer. */
    method Lprintf(temp: string)
      requires |temp| < 512
      modifies this
      ensures file == old(file) + Launder(temp)
    {
      hide Launder;
      var i: nat := 0;
      LaunderEnds(temp);
      while i < |temp| && temp[i] != NUL
        invariant i <= |temp| && file + Launder(temp[i..]) == old(file) + Launder(temp)
      {
        ghost var f := file;
        LaunderNext(temp, i);
        Regroup(f, LaunderChar(temp[i]), Launder(temp[i + 1..]));
        if temp[i] == '\\' || temp[i] == '"' {
          Fputc('\\');
          Fputc(temp[i]);
        } else if temp[i] == CTRL_Z {
          Fputc('"');
        } else {
          Fputc(temp[i]);
        }
        assert file == f + LaunderChar(temp[i]);
        i := i + 1;
      }
    }
  }

  // ----- reading -----

  /** The result of `scn_token`: the token, what is left, whether a line end was passed, and
      whether the file ended before any token. */
  datatype Scan = Scan(value: string, rest: Input, eol: bool, eof: bool)

  /** From inside a comment to the line end that closes it, or the end of the file. */
  function SkipComment(i: Input): (r: Input)
    ensures Size(r) <= Size(i) && (r.End? || r.c == '\n')
  {
    if i.End? || i.c == '\n' then i else SkipComment(i.rest)
  }

  /** Whether the character closes the token. */
  predicate Closes(c: char, quote: bool, escape: bool) {
    if quote then c == '"' && !escape else IsSpace(c)
  }

  /** The token, from the middle of scanning it. */
  function ScanOn(i: Input, limit: nat, value: string, quote: bool, escape: bool, arg: bool, eol: bool): (r: Scan)
    ensures Size(r.rest) <= Size(i) && (value == "" && limit > 0 && !r.eof ==> Size(r.rest) < Size(i))
    decreases Size(i)
  {
    if |value| >= limit then Scan(value, i, eol, false)
    else
      var t := if i.More? && i.c == ';' && !quote then SkipComment(i.rest) else i;
      if t.End? then Scan(value, End, eol, value == "")
      else
        var e := eol || t.c == '\n';
        if t.c == '\\' && !escape then ScanOn(t.rest, limit, value, quote, true, arg, e)
        else
          var v := if escape && t.c != '\\' && t.c != '"' then value + ['\\'] else value;
          if arg then
            if Closes(t.c, quote, escape) then Scan(v, t.rest, e, false)
            else ScanOn(t.rest, limit, v + [t.c], quote, false, true, e)
          else if IsSpace(t.c) then ScanOn(t.rest, limit, v, quote, false, false, e)
          else if t.c == '"' then ScanOn(t.rest, limit, v, true, false, true, e)
          else ScanOn(t.rest, limit, v + [t.c], quote, false, true, e)
  }

  /** The next token, into a buffer of nvalue characters. */
  function Token(i: Input, nvalue: nat): (r: Scan)
    requires nvalue > 0
    ensures Size(r.rest) <= Size(i) && (nvalue > 1 && !r.eof ==> Size(r.rest) < Size(i))
  {
    ScanOn(i, nvalue - 1, "", false, false, false, false)
  }

  lemma {:induction false} EofLeavesNothing(
      i: Input, limit: nat, value: string, quote: bool, escape: bool, arg: bool, eol: bool)
    ensures var r := ScanOn(i, limit, value, quote, escape, arg, eol); r.eof ==> r.rest == End
    decreases Size(i)
  {
    if |value| < limit {
      var t := if i.More? && i.c == ';' && !quote then SkipComment(i.rest) else i;
      if t.More? {
        var e := eol || t.c == '\n';
        var v := if escape && t.c != '\\' && t.c != '"' then value + ['\\'] else value;
        if t.c == '\\' && !escape {
          EofLeavesNothing(t.rest, limit, value, quote, true, arg, e);
        } else if arg {
          EofLeavesNothing(t.rest, limit, v + [t.c], quote, false, true, e);
        } else if IsSpace(t.c) {
          EofLeavesNothing(t.rest, limit, v, quote, false, false, e);
        } else if t.c == '"' {
          EofLeavesNothing(t.rest, limit, v, true, false, true, e);
        } else {
          EofLeavesNothing(t.rest, limit, v + [t.c], quote, false, true, e);
        }
      }
    }
  }

  lemma {:induction false} SkipCommentPut(s: string, i: Input)
    requires !HasNewline(s)
    ensures SkipComment(Put(s, i)) == SkipComment(i)
  {
    if s != "" && s[0] != NUL {
      PutChar(s, i);
      SkipCommentPut(s[1..], i);
    }
  }

  /** Scanning only adds to the token. */
  lemma {:induction false} ScanKeeps(i: Input, limit: nat, v: string, quote: bool, escape: bool, arg: bool, eol: bool)
    ensures v <= ScanOn(i, limit, v, quote, escape, arg, eol).value
    decreases Size(i)
  {
    if |v| < limit {
      var t := if i.More? && i.c == ';' && !quote then SkipComment(i.rest) else i;
      if t.More? {
        var e := eol || t.c == '\n';
        var w := if escape && t.c != '\\' && t.c != '"' then v + ['\\'] else v;
        if t.c == '\\' && !escape {
          ScanKeeps(t.rest, limit, v, quote, true, arg, e);
        } else if arg {
          ScanKeeps(t.rest, limit, w + [t.c], quote, false, true, e);
        } else if IsSpace(t.c) {
          ScanKeeps(t.rest, limit, w, quote, false, false, e);
        } else if t.c == '"' {
          ScanKeeps(t.rest, limit, w, true, false, true, e);
        } else {
          ScanKeeps(t.rest, limit, w + [t.c], quote, false, true, e);
        }
      }
    }
  }

  // ----- the room a token takes -----

  /** Every backslash is followed by a backslash or a quote, as the writer puts them out. */
  predicate Escaped(i: Input) {
    i.More? ==> if i.c == '\\' then i.rest.More? && i.rest.c in {'\\', '"'} && Escaped(i.rest.rest) else Escaped(i.rest)
  }

  lemma {:induction false} EscapedFeed(s: string, rest: Input)
    requires Escaped(rest)
    ensures Escaped(Put(s, rest))
  {
    if s != "" && s[0] != NUL {
      EscapedFeed(s[1..], rest);
      PutChar(s, rest);
    }
  }

  lemma {:induction false} EscapedComment(i: Input)
    requires Escaped(i)
    ensures Escaped(SkipComment(i))
    decreases Size(i)
  {
    if i.More? && i.c != '\n' {
      if i.c == '\\' {
        assert Size(i) == 1 + Size(i.rest);
        EscapedComment(i.rest.rest);
      } else {
        EscapedComment(i.rest);
      }
    }
  }

  /** From the middle of a token: it outgrows its room by one character at most, and only by an
      escape in front of an ordinary character. */
  predicate Fits(r: Scan, limit: nat)
    requires limit > 0
  {
    |r.value| > limit ==> |r.value| == limit + 1 && r.value[limit - 1] == '\\' && r.value[limit] !in {'\\', '"'}
  }

  lemma {:induction false} ScanFits(i: Input, limit: nat, value: string, quote: bool, escape: bool, arg: bool, eol: bool)
    requires limit > 0 && |value| <= limit
    ensures Fits(ScanOn(i, limit, value, quote, escape, arg, eol), limit)
    decreases Size(i)
  {
    if |value| < limit {
      var t := if i.More? && i.c == ';' && !quote then SkipComment(i.rest) else i;
      if t.More? {
        var e := eol || t.c == '\n';
        var v := if escape && t.c != '\\' && t.c != '"' then value + ['\\'] else value;
        if t.c == '\\' && !escape {
          ScanFits(t.rest, limit, value, quote, true, arg, e);
        } else if arg {
          if |v + [t.c]| <= limit {
            ScanFits(t.rest, limit, v + [t.c], quote, false, true, e);
          }
        } else if IsSpace(t.c) {
          ScanFits(t.rest, limit, v, quote, false, false, e);
        } else if t.c == '"' {
          ScanFits(t.rest, limit, v, true, false, true, e);
        } else if |v + [t.c]| <= limit {
          ScanFits(t.rest, limit, v + [t.c], quote, false, true, e);
        }
      }
    }
  }

  /** The token and its terminator take no more than one byte beyond the buffer, and that byte only
      when the token ends with a lone backslash and an ordinary character. */
  lemma TokenFits(i: Input, nvalue: nat)
    requires nvalue > 1
    ensures Fits(Token(i, nvalue), nvalue - 1)
  {
    ScanFits(i, nvalue - 1, "", false, false, false, false);
  }

  lemma {:induction false} EscapedStays(i: Input, limit: nat, value: string, quote: bool, escape: bool, arg: bool, eol: bool)
    requires |value| <= limit
    requires if escape then i.More? && i.c in {'\\', '"'} && Escaped(i.rest) else Escaped(i)
    ensures |ScanOn(i, limit, value, quote, escape, arg, eol).value| <= limit
    decreases Size(i)
  {
    if |value| < limit {
      var t := if i.More? && i.c == ';' && !quote then SkipComment(i.rest) else i;
      if i.More? && i.c == ';' {
        EscapedComment(i.rest);
      }
      if t.More? {
        var e := eol || t.c == '\n';
        if t.c == '\\' && !escape {
          EscapedStays(t.rest, limit, value, quote, true, arg, e);
        } else if arg {
          EscapedStays(t.rest, limit, value + [t.c], quote, false, true, e);
        } else if IsSpace(t.c) {
          EscapedStays(t.rest, limit, value, quote, false, false, e);
        } else if t.c == '"' {
          EscapedStays(t.rest, limit, value, true, false, true, e);
        } else {
          EscapedStays(t.rest, limit, value + [t.c], quote, false, true, e);
        }
      }
    }
  }

  /** A token of a file that the writer has put out never outgrows its buffer. */
  lemma WrittenTokenFits(i: Input, nvalue: nat)
    requires nvalue > 0 && Escaped(i)
    ensures |Token(i, nvalue).value| < nvalue
  {
    EscapedStays(i, nvalue - 1, "", false, false, false, false);
  }

  /** Past a comment, if one starts here. */
  function Shown(i: Input, quote: bool): (t: Input)
    ensures Size(t) <= Size(i)
  {
    if i.More? && i.c == ';' && !quote then SkipComment(i.rest) else i
  }

  /** A backslash before c that is kept. */
  function Kept(escape: bool, c: char): string {
    if escape && c != '\\' && c != '"' then ['\\'] else ""
  }

  /** Whether the token outgrows the room left, found by walking the input and counting places: a
      backslash that escapes nothing is kept and takes a place of its own. */
  predicate Overruns(i: Input, room: nat, quote: bool, escape: bool, arg: bool)
    decreases Size(i)
  {
    var t := Shown(i, quote);
    room > 0 && t.More? &&
    if t.c == '\\' && !escape then Overruns(t.rest, room, quote, true, arg)
    else
      var kept := |Kept(escape, t.c)|;
      if arg && Closes(t.c, quote, escape) then false
      else if !arg && IsSpace(t.c) then Overruns(t.rest, room - kept, quote, false, false)
      else if !arg && t.c == '"' then Overruns(t.rest, room, true, false, true)
      else kept == room || Overruns(t.rest, room - kept - 1, quote, false, true)
  }

  lemma ScanFull(i: Input, limit: nat, v: string, quote: bool, arg: bool, eol: bool)
    requires |v| >= limit
    ensures ScanOn(i, limit, v, quote, false, arg, eol).value == v
  {
  }

  lemma KeptOne(escape: bool, c: char)
    ensures |Kept(escape, c)| <= 1 && (c == '"' ==> Kept(escape, c) == "")
  {
  }

  lemma ScanStep(i: Input, limit: nat, value: string, quote: bool, escape: bool, arg: bool, eol: bool)
    requires |value| < limit && Shown(i, quote).More?
    ensures var t := Shown(i, quote);
      var e := eol || t.c == '\n';
      var v := value + Kept(escape, t.c);
      ScanOn(i, limit, value, quote, escape, arg, eol) ==
        if t.c == '\\' && !escape then ScanOn(t.rest, limit, value, quote, true, arg, e)
        else if arg && Closes(t.c, quote, escape) then Scan(v, t.rest, e, false)
        else if !arg && IsSpace(t.c) then ScanOn(t.rest, limit, v, quote, false, false, e)
        else if !arg && t.c == '"' then ScanOn(t.rest, limit, v, true, false, true, e)
        else ScanOn(t.rest, limit, v + [t.c], quote, false, true, e)
  {
    assert value + "" == value;
  }

  lemma OverrunsStep(i: Input, room: nat, quote: bool, escape: bool, arg: bool)
    requires room > 0 && Shown(i, quote).More?
    ensures var t := Shown(i, quote);
      var kept := |Kept(escape, t.c)|;
      && (t.c == '"' ==> kept == 0)
      && (Overruns(i, room, quote, escape, arg) <==>
            if t.c == '\\' && !escape then Overruns(t.rest, room, quote, true, arg)
            else if arg && Closes(t.c, quote, escape) then false
            else if !arg && IsSpace(t.c) then Overruns(t.rest, room - kept, quote, false, false)
            else if !arg && t.c == '"' then Overruns(t.rest, room, true, false, true)
            else kept == room || Overruns(t.rest, room - kept - 1, quote, false, true))
  {
    hide Shown, Closes, Kept;
    KeptOne(escape, Shown(i, quote).c);
  }

  lemma BothEnd(i: Input, limit: nat, value: string, quote: bool, escape: bool, arg: bool, eol: bool)
    requires |value| == limit || (|value| < limit && Shown(i, quote).End?)
    ensures |ScanOn(i, limit, value, quote, escape, arg, eol).value| == |value|
    ensures !Overruns(i, limit - |value|, quote, escape, arg)
  {
  }

  lemma {:induction false} ScanOverruns(
      i: Input, limit: nat, value: string, quote: bool, escape: bool, arg: bool, eol: bool)
    requires limit > 0 && |value| <= limit
    ensures |ScanOn(i, limit, value, quote, escape, arg, eol).value| == limit + 1
      <==> Overruns(i, limit - |value|, quote, escape, arg)
    decreases Size(i)
  {
    hide ScanOn, Overruns, Kept, Closes, Shown;
    var t := Shown(i, quote);
    if |value| == limit || t.End? {
      BothEnd(i, limit, value, quote, escape, arg, eol);
    } else {
      ScanStep(i, limit, value, quote, escape, arg, eol);
      OverrunsStep(i, limit - |value|, quote, escape, arg);
      KeptOne(escape, t.c);
      var e := eol || t.c == '\n';
      var v := value + Kept(escape, t.c);
      if t.c == '\\' && !escape {
        ScanOverruns(t.rest, limit, value, quote, true, arg, e);
      } else if arg && Closes(t.c, quote, escape) {
      } else if !arg && IsSpace(t.c) {
        ScanOverruns(t.rest, limit, v, quote, false, false, e);
      } else if !arg && t.c == '"' {
        ScanOverruns(t.rest, limit, v, true, false, true, e);
      } else if |v| < limit {
        ScanOverruns(t.rest, limit, v + [t.c], quote, false, true, e);
      } else {
        ScanFull(t.rest, limit, v + [t.c], quote, true, e);
      }
    }
  }

  /** Of any file at all: the token is too long for its buffer exactly when the walk says so. */
  lemma TokenOverruns(i: Input, nvalue: nat)
    requires nvalue > 1
    ensures |Token(i, nvalue).value| >= nvalue <==> Overruns(i, nvalue - 1, false, false, false)
  {
    ScanOverruns(i, nvalue - 1, "", false, false, false, false);
    TokenFits(i, nvalue);
  }

  // ----- the same on the text of a token -----

  /** In the text of a token, a backslash that escapes nothing falls on the last place: an escaped
      backslash or quote takes one place, a kept backslash and its character two. */
  predicate Lands(s: string, room: nat)
    decreases |s|
  {
    room > 0 && s != "" &&
    if s[0] != '\\' then Lands(s[1..], room - 1)
    else if |s| == 1 then false
    else if s[1] in {'\\', '"'} then Lands(s[2..], room - 1)
    else room == 1 || Lands(s[2..], room - 2)
  }

  /** Text that goes on a token without quotes. */
  predicate RawTail(s: string) {
    s == "" || (s[0] != ';' && !IsSpace(s[0]) && RawTail(s[1..]))
  }

  /** Text that makes a token without quotes: it does not open one, escaped or not. */
  predicate RawBare(s: string) {
    s != "" && RawTail(s) && s[0] != '"' && (s[0] == '\\' ==> |s| > 1 && s[1] != '"')
  }

  /** Text that stays between quotes: every quote in it is escaped, and not the one after it. */
  predicate RawQuoted(s: string)
    decreases |s|
  {
    s == "" || (if s[0] == '\\' then |s| > 1 && RawQuoted(s[2..]) else s[0] != '"' && RawQuoted(s[1..]))
  }

  lemma PlainPlace(c: char, i: Input, room: nat, quote: bool, arg: bool)
    requires c != '\\' && c != '"' && (quote || (c != ';' && !IsSpace(c))) && (quote ==> arg)
    ensures Overruns(More(c, i), room, quote, false, arg) <==> room > 0 && Overruns(i, room - 1, quote, false, true)
  {
  }

  lemma QuotePlace(i: Input, room: nat)
    ensures Overruns(More('"', i), room, false, false, true) <==> room > 0 && Overruns(i, room - 1, false, false, true)
  {
  }

  lemma PairPlace(c: char, i: Input, room: nat, quote: bool, arg: bool)
    requires (quote || (c != ';' && !IsSpace(c))) && (quote ==> arg) && (arg || c != '"')
    ensures Overruns(More('\\', More(c, i)), room, quote, false, arg) <==> room > 0 && Overruns(More(c, i), room, quote, true, arg)
    ensures c in {'\\', '"'} && room > 0 ==>
      (Overruns(More(c, i), room, quote, true, arg) <==> Overruns(i, room - 1, quote, false, true))
    ensures c !in {'\\', '"'} && room > 0 ==>
      (Overruns(More(c, i), room, quote, true, arg) <==> room == 1 || Overruns(i, room - 2, quote, false, true))
  {
  }

  /** What closes a token ends the walk, even after a backslash when that is a blank. */
  lemma ClosePlace(i: Input, room: nat)
    ensures !Overruns(More('"', i), room, true, false, true)
    ensures forall w, escape :: IsSpace(w) ==> !Overruns(More(w, i), room, false, escape, true)
  {
  }

  lemma EscapeEnds(w: char, i: Input, room: nat)
    requires IsSpace(w)
    ensures !Overruns(More('\\', More(w, i)), room, false, false, true)
  {
    ClosePlace(i, room);
  }

  lemma FeedOne(s: string, rest: Input)
    requires s != ""
    ensures Feed(s, rest) == More(s[0], Feed(s[1..], rest))
    ensures |s| == 1 ==> Feed(s[1..], rest) == rest
    ensures |s| > 1 ==> Feed(s[1..], rest) == More(s[1], Feed(s[2..], rest))
  {
    assert |s| > 1 ==> s[1..][1..] == s[2..];
  }

  lemma RawTailTwo(s: string)
    requires RawTail(s) && |s| > 1
    ensures s[1] != ';' && !IsSpace(s[1]) && RawTail(s[2..])
  {
    assert s[1..][1..] == s[2..];
  }

  lemma {:induction false} TailLands(s: string, w: char, rest: Input, room: nat)
    requires RawTail(s) && IsSpace(w)
    ensures Overruns(Feed(s, More(w, rest)), room, false, false, true) <==> Lands(s, room)
    decreases |s|
  {
    hide Overruns;
    var tail := More(w, rest);
    ClosePlace(rest, room);
    if s != "" {
      FeedOne(s, tail);
      if s[0] != '\\' {
        if s[0] == '"' {
          QuotePlace(Feed(s[1..], tail), room);
        } else {
          PlainPlace(s[0], Feed(s[1..], tail), room, false, true);
        }
        if room > 0 {
          TailLands(s[1..], w, rest, room - 1);
        }
      } else if |s| == 1 {
        EscapeEnds(w, rest, room);
      } else {
        RawTailTwo(s);
        PairPlace(s[1], Feed(s[2..], tail), room, false, true);
        var cost := if s[1] in {'\\', '"'} then 1 else 2;
        if cost <= room {
          TailLands(s[2..], w, rest, room - cost);
        }
      }
    }
  }

  lemma BareLands(s: string, w: char, rest: Input, room: nat)
    requires RawBare(s) && IsSpace(w)
    ensures Overruns(Feed(s, More(w, rest)), room, false, false, false) <==> Lands(s, room)
  {
    hide Overruns;
    var tail := More(w, rest);
    FeedOne(s, tail);
    if s[0] != '\\' {
      PlainPlace(s[0], Feed(s[1..], tail), room, false, false);
      if room > 0 {
        TailLands(s[1..], w, rest, room - 1);
      }
    } else {
      RawTailTwo(s);
      PairPlace(s[1], Feed(s[2..], tail), room, false, false);
      var cost := if s[1] == '\\' then 1 else 2;
      if cost <= room {
        TailLands(s[2..], w, rest, room - cost);
      }
    }
  }

  lemma {:induction false} QuotedLands(s: string, rest: Input, room: nat)
    requires RawQuoted(s)
    ensures Overruns(Feed(s, More('"', rest)), room, true, false, true) <==> Lands(s, room)
    decreases |s|
  {
    hide Overruns;
    var tail := More('"', rest);
    ClosePlace(rest, room);
    if s != "" {
      FeedOne(s, tail);
      if s[0] != '\\' {
        PlainPlace(s[0], Feed(s[1..], tail), room, true, true);
        if room > 0 {
          QuotedLands(s[1..], rest, room - 1);
        }
      } else {
        PairPlace(s[1], Feed(s[2..], tail), room, true, true);
        var cost := if s[1] in {'\\', '"'} then 1 else 2;
        if cost <= room {
          QuotedLands(s[2..], rest, room - cost);
        }
      }
    }
  }

  /** A token without quotes, whatever escapes are in it, is too long for its buffer exactly when a
      kept backslash falls on its last place. */
  lemma BareOverruns(gap: string, s: string, w: char, rest: Input, nvalue: nat)
    requires Gap(gap, false) && RawBare(s) && IsSpace(w) && nvalue > 1
    ensures |Token(Feed(gap, Feed(s, More(w, rest))), nvalue).value| == nvalue <==> Lands(s, nvalue - 1)
  {
    hide ScanOn, Overruns, Lands;
    var i := Feed(s, More(w, rest));
    SkipGap(gap, i, nvalue - 1, false);
    ScanOverruns(i, nvalue - 1, "", false, false, false, HasNewline(gap));
    BareLands(s, w, rest, nvalue - 1);
  }

  /** And so is a token between quotes, the first of which may be escaped. */
  lemma QuotedOverruns(gap: string, escaped: bool, s: string, rest: Input, nvalue: nat)
    requires Gap(gap, false) && RawQuoted(s) && nvalue > 1
    ensures var q := More('"', Feed(s, More('"', rest)));
      |Token(Feed(gap, if escaped then More('\\', q) else q), nvalue).value| == nvalue <==> Lands(s, nvalue - 1)
  {
    hide ScanOn, Overruns, Lands;
    var body := Feed(s, More('"', rest));
    var q := More('"', body);
    SkipGap(gap, if escaped then More('\\', q) else q, nvalue - 1, false);
    OpenQuote(body, nvalue - 1, escaped, HasNewline(gap));
    ScanOverruns(body, nvalue - 1, "", true, false, true, HasNewline(gap));
    QuotedLands(s, rest, nvalue - 1);
  }

  // ----- what separates tokens -----

  /** Blanks, line ends and whole comments. */
  predicate Gap(s: string, comment: bool) {
    if s == "" then !comment
    else if comment then Gap(s[1..], s[0] != '\n')
    else if s[0] == ';' then Gap(s[1..], true)
    else IsSpace(s[0]) && Gap(s[1..], false)
  }

  predicate HasNewline(s: string) {
    s != "" && (s[0] == '\n' || HasNewline(s[1..]))
  }

  /** The gap from the line end that closes its comment. */
  function AfterComment(s: string): (r: string)
    requires Gap(s, true)
    ensures r != "" && |r| <= |s| && r[0] == '\n' && Gap(r, false) && HasNewline(s)
  {
    if s[0] == '\n' then s else AfterComment(s[1..])
  }

  lemma {:induction false} SkipCommentFeed(s: string, rest: Input)
    requires Gap(s, true)
    ensures SkipComment(Feed(s, rest)) == Feed(AfterComment(s), rest)
  {
    if s[0] != '\n' {
      SkipCommentFeed(s[1..], rest);
    }
  }

  /** A gap before a token only tells whether a line end was passed. */
  lemma {:induction false} SkipGap(s: string, rest: Input, limit: nat, eol: bool)
    requires Gap(s, false) && limit > 0
    ensures ScanOn(Feed(s, rest), limit, "", false, false, false, eol)
         == ScanOn(rest, limit, "", false, false, false, eol || HasNewline(s))
    decreases |s|
  {
    if s == "" {
    } else if s[0] == ';' {
      var t := AfterComment(s[1..]);
      SkipCommentFeed(s[1..], rest);
      SkipGap(t[1..], rest, limit, true);
    } else {
      SkipGap(s[1..], rest, limit, eol || s[0] == '\n');
    }
  }

  // ----- quoted and bare tokens -----

  /** A string that survives between quotes. */
  predicate Clean(s: string) {
    s == "" || (s[0] != NUL && s[0] != CTRL_Z && Clean(s[1..]))
  }

  /** A character that may stand anywhere in a token without quotes. */
  predicate BareChar(c: char) {
    c != NUL && c != CTRL_Z && c != ';' && !IsSpace(c)
  }

  predicate BareTail(s: string) {
    s == "" || (BareChar(s[0]) && BareTail(s[1..]))
  }

  /** A string that survives without quotes. */
  predicate Bare(s: string) {
    s != "" && s[0] != '"' && BareTail(s)
  }

  /** The string as it is printed between two ^Z. */
  function Quoted(s: string, rest: Input): Input {
    More('"', Put(s, More('"', rest)))
  }

  lemma PutQuoted(s: string, rest: Input)
    requires Clean(s)
    ensures Put([CTRL_Z] + s + [CTRL_Z], rest) == Quoted(s, rest)
  {
    CleanHasNoNul(s);
    var t := [CTRL_Z] + s + [CTRL_Z];
    assert t[1..] == s + [CTRL_Z];
    PutChar(t, rest);
    PutCat(s, [CTRL_Z], rest);
    PutChar([CTRL_Z], rest);
  }

  lemma {:induction false} CleanHasNoNul(s: string)
    requires Clean(s)
    ensures NUL !in s && CTRL_Z !in s
  {
    if s != "" {
      CleanHasNoNul(s[1..]);
    }
  }

  /** Inside a token one character printed is one character read. */
  lemma TokenStep(s: string, rest: Input, limit: nat, v: string, quote: bool, eol: bool)
    requires s != "" && s[0] != NUL && s[0] != CTRL_Z && (quote || BareChar(s[0])) && |v| < limit
    ensures ScanOn(Put(s, rest), limit, v, quote, false, true, eol)
         == ScanOn(Put(s[1..], rest), limit, v + [s[0]], quote, false, true, eol || s[0] == '\n')
  {
    PutChar(s, rest);
  }

  /** Inside the quotes, as far as there is room. */
  lemma {:induction false} QuotedBody(s: string, rest: Input, limit: nat, v: string, eol: bool)
    requires Clean(s)
    ensures var r := ScanOn(Put(s, More('"', rest)), limit, v, true, false, true, eol);
      if |v| + |s| < limit then r == Scan(v + s, rest, eol || HasNewline(s), false)
      else Size(r.rest) > Size(rest)
    decreases |s|
  {
    if s == "" {
      assert v + s == v;
    } else {
      if |v| < limit {
        TokenStep(s, More('"', rest), limit, v, true, eol);
        assert (v + [s[0]]) + s[1..] == v + s;
        QuotedBody(s[1..], rest, limit, v + [s[0]], eol || s[0] == '\n');
      } else {
        PutGrows(s, More('"', rest));
      }
    }
  }

  lemma {:induction false} PutGrows(s: string, rest: Input)
    ensures Size(Put(s, rest)) >= Size(rest)
  {
    FeedGrows(Launder(s), rest);
  }

  lemma {:induction false} FeedGrows(s: string, rest: Input)
    ensures Size(Feed(s, rest)) >= Size(rest)
  {
    if s != "" {
      FeedGrows(s[1..], rest);
    }
  }

  /** A quote before a token opens it, even when it is escaped. */
  lemma OpenQuote(i: Input, limit: nat, escaped: bool, eol: bool)
    requires limit > 0
    ensures var q := More('"', i);
      ScanOn(if escaped then More('\\', q) else q, limit, "", false, false, false, eol)
      == ScanOn(i, limit, "", true, false, true, eol)
  {
  }

  /** A quoted string is read back, with what follows it left to read, exactly when the buffer has a
      byte to spare beyond the string and its terminator. */
  lemma QuotedToken(gap: string, s: string, rest: Input, nvalue: nat)
    requires Gap(gap, false) && Clean(s) && nvalue > 1
    ensures var r := Token(Feed(gap, Quoted(s, rest)), nvalue);
      && (|s| + 2 <= nvalue ==> r == Scan(s, rest, HasNewline(gap) || HasNewline(s), false))
      && (r.value == s && r.rest == rest ==> |s| + 2 <= nvalue)
  {
    hide ScanOn;
    SkipGap(gap, Quoted(s, rest), nvalue - 1, false);
    OpenQuote(Put(s, More('"', rest)), nvalue - 1, false, HasNewline(gap));
    QuotedBody(s, rest, nvalue - 1, "", HasNewline(gap));
    assert "" + s == s;
  }

  lemma {:induction false} BareBody(s: string, w: char, rest: Input, limit: nat, v: string, eol: bool)
    requires BareTail(s) && IsSpace(w) && |v| + |s| < limit
    ensures ScanOn(Put(s, More(w, rest)), limit, v, false, false, true, eol) == Scan(v + s, rest, eol || w == '\n', false)
    decreases |s|
  {
    if s == "" {
      assert v + s == v;
    } else {
      TokenStep(s, More(w, rest), limit, v, false, eol);
      assert (v + [s[0]]) + s[1..] == v + s;
      BareBody(s[1..], w, rest, limit, v + [s[0]], eol);
    }
  }

  lemma {:induction false} BareBodyAtEnd(s: string, limit: nat, v: string, eol: bool)
    requires BareTail(s) && |v| + |s| < limit && v != ""
    ensures ScanOn(Put(s, End), limit, v, false, false, true, eol) == Scan(v + s, End, eol, false)
    decreases |s|
  {
    if s == "" {
      assert v + s == v;
    } else {
      TokenStep(s, End, limit, v, false, eol);
      assert (v + [s[0]]) + s[1..] == v + s;
      BareBodyAtEnd(s[1..], limit, v + [s[0]], eol);
    }
  }

  /** The first character of a bare token opens it. */
  lemma BareStart(s: string, rest: Input, limit: nat, eol: bool)
    requires Bare(s) && limit > 1
    ensures ScanOn(Put(s, rest), limit, "", false, false, false, eol)
         == ScanOn(Put(s[1..], rest), limit, [s[0]], false, false, true, eol)
  {
    PutChar(s, rest);
    assert "" + [s[0]] == [s[0]];
  }

  /** A bare token is read back together with the one blank or line end after it. */
  lemma BareToken(gap: string, s: string, w: char, rest: Input, nvalue: nat)
    requires Gap(gap, false) && Bare(s) && IsSpace(w) && |s| + 2 <= nvalue
    ensures Token(Feed(gap, Put(s, More(w, rest))), nvalue) == Scan(s, rest, HasNewline(gap) || w == '\n', false)
  {
    var i := Put(s, More(w, rest));
    SkipGap(gap, i, nvalue - 1, false);
    BareStart(s, More(w, rest), nvalue - 1, HasNewline(gap));
    BareBody(s[1..], w, rest, nvalue - 1, [s[0]], HasNewline(gap));
    assert [s[0]] + s[1..] == s;
  }

  /** A bare token may also end with the file. */
  lemma BareTokenAtEnd(gap: string, s: string, nvalue: nat)
    requires Gap(gap, false) && Bare(s) && |s| + 2 <= nvalue
    ensures Token(Feed(gap, Put(s, End)), nvalue) == Scan(s, End, HasNewline(gap), false)
  {
    SkipGap(gap, Put(s, End), nvalue - 1, false);
    BareStart(s, End, nvalue - 1, HasNewline(gap));
    BareBodyAtEnd(s[1..], nvalue - 1, [s[0]], HasNewline(gap));
    assert [s[0]] + s[1..] == s;
  }

  // ----- sequences of tokens -----

  /** A file as it is written: gaps and items in turn.  A bare item is followed by a blank or by the
      end of the file. */
  datatype Script = Stop(gap: string) | Item(gap: string, quoted: bool, s: string, next: Script)

  ghost predicate Printable(t: Script, nvalue: nat) {
    && Gap(t.gap, false)
    && (t.Item? ==>
          && |t.s| + 2 <= nvalue
          && Printable(t.next, nvalue)
          && (if t.quoted then Clean(t.s)
              else Bare(t.s) && (t.next == Stop("") || (t.next.gap != "" && IsSpace(t.next.gap[0])))))
  }

  /** The formatted text. */
  function Text(t: Script): string {
    if t.Stop? then t.gap
    else t.gap + (if t.quoted then [CTRL_Z] + t.s + [CTRL_Z] else t.s) + Text(t.next)
  }

  /** The file. */
  function Source(t: Script): Input {
    if t.Stop? then Feed(t.gap, End)
    else Feed(t.gap, if t.quoted then Quoted(t.s, Source(t.next)) else Put(t.s, Source(t.next)))
  }

  function Strings(t: Script): seq<string> {
    if t.Stop? then [] else [t.s] + Strings(t.next)
  }

  function Items(t: Script): nat {
    if t.Stop? then 0 else 1 + Items(t.next)
  }

  /** All tokens to the end of the file. */
  function ScanAll(i: Input, nvalue: nat): seq<string>
    requires nvalue > 1
    decreases Size(i)
  {
    var r := Token(i, nvalue);
    if r.eof then [] else [r.value] + ScanAll(r.rest, nvalue)
  }

  /** Whatever blanks, line ends and comments separate the items, they are read back in order. */
  lemma {:induction false} ScanAllReads(t: Script, nvalue: nat)
    requires Printable(t, nvalue) && nvalue > 1
    ensures ScanAll(Source(t), nvalue) == Strings(t)
    decreases Items(t)
  {
    if t.Stop? {
      SkipGap(t.gap, End, nvalue - 1, false);
    } else if t.quoted {
      QuotedToken(t.gap, t.s, Source(t.next), nvalue);
      ScanAllReads(t.next, nvalue);
    } else if t.next == Stop("") {
      BareTokenAtEnd(t.gap, t.s, nvalue);
    } else {
      var n := t.next;
      var m := match n case Stop(g) => Stop(g[1..]) case Item(g, q, x, y) => Item(g[1..], q, x, y);
      assert Items(m) == Items(n);
      BareToken(t.gap, t.s, n.gap[0], Source(m), nvalue);
      ScanAllReads(m, nvalue);
    }
  }
}
