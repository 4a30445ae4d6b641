/** The snapshot reader's primitives (ASQENG/READSYS.C): characters, tokens, lines, and the
    conversions built on them. */
module Reader {
  import opened CText
  import opened Numbers
  import opened Scanner

  const MAXTOKEN: nat := 1024

  /** The next token, into the token buffer. */
  function Next(i: Input): Scan {
    Token(i, MAXTOKEN)
  }

  lemma NothingLeft(i: Input)
    ensures Next(i).eof ==> Next(i).rest == End
  {
    EofLeavesNothing(i, MAXTOKEN - 1, "", false, false, false, false);
  }

  function First(token: string): char {
    if token == "" then NUL else token[0]
  }

  /** A field of `size` bytes filled by `scn_string`: one byte less than its size is copied. */
  function FieldOf(token: string, size: nat): string
    requires size > 0
  {
    if |token| < size then token else token[..size - 1]
  }

  /** The token, or as much of it as leaves room for a terminator. */
  lemma FieldCut(token: string, size: nat)
    requires size > 0
    ensures var f := FieldOf(token, size);
      f <= token && |f| == if |token| < size then |token| else size - 1
  {
  }

  /** The rest after `assert_EOL`; its comparison with EOF also stops at character 255. */
  function SkipLine(i: Input): Input {
    if i.End? then End
    else if i.c == '\n' || i.c == 255 as char then i.rest
    else SkipLine(i.rest)
  }

  /** The line `fgets` takes, its line end with it, and what is left. */
  function LineOf(i: Input, room: nat): (string, Input)
    decreases i
  {
    if room == 0 || i.End? then ("", i)
    else if i.c == '\n' then (['\n'], i.rest)
    else var (s, r) := LineOf(i.rest, room - 1); ([i.c] + s, r)
  }

  function LineOn(done: string, i: Input, room: nat): (string, Input)
    decreases i
  {
    if room == 0 || i.End? then (done, i)
    else if i.c == '\n' then (done + ['\n'], i.rest)
    else LineOn(done + [i.c], i.rest, room - 1)
  }

  lemma {:induction false} LineOnIsLineOf(done: string, i: Input, room: nat)
    ensures var (s, r) := LineOf(i, room); LineOn(done, i, room) == (done + s, r)
    decreases i
  {
    if room == 0 || i.End? {
      assert done + "" == done;
    } else if i.c != '\n' {
      LineOnIsLineOf(done + [i.c], i.rest, room - 1);
      var (s, r) := LineOf(i.rest, room - 1);
      assert (done + [i.c]) + s == done + ([i.c] + s);
    }
  }

  /** Skipping stops behind the line end, and behind a character 255 as well. */
  lemma {:induction false} SkipLineStops(s: string, c: char, rest: Input)
    requires forall x :: x in s ==> x != '\n' && x != 255 as char
    ensures c == '\n' || c == 255 as char ==> SkipLine(Feed(s, More(c, rest))) == rest
    ensures SkipLine(Feed(s, End)) == End
  {
    if s != "" {
      assert s[0] in s && forall x :: x in s[1..] ==> x in s;
      SkipLineStops(s[1..], c, rest);
    }
  }

  /** A line with no room for its end is taken in parts. */
  lemma {:induction false} LineOfLong(s: string, rest: Input, room: nat)
    requires '\n' !in s && room <= |s|
    ensures LineOf(Feed(s, rest), room) == (s[..room], Feed(s[room..], rest))
  {
    if room > 0 {
      assert s[0] in s && '\n' !in s[1..];
      LineOfLong(s[1..], rest, room - 1);
      assert [s[0]] + s[1..][..room - 1] == s[..room] && s[1..][room - 1..] == s[room..];
    } else {
      assert s[..0] == "" && s[0..] == s;
    }
  }

  // ----- escapes in whole lines -----

  /** `ltrnbln` takes the escapes out; a backslash from an older file that escapes nothing stays. */
  function UnescapeOn(done: string, s: string, escape: bool): string
    decreases |s|
  {
    if s == "" || s[0] == NUL then done
    else if s[0] == '\\' && !escape then UnescapeOn(done, s[1..], true)
    else
      var kept := if escape && s[0] != '"' && s[0] != '\\' then done + ['\\'] else done;
      UnescapeOn(kept + [s[0]], s[1..], false)
  }

  /** Without the blanks at its end; a form feed is not taken for one. */
  function Trimmed(s: string): string {
    if s != "" && IsSpace(s[|s| - 1]) && s[|s| - 1] != 12 as char then Trimmed(s[..|s| - 1]) else s
  }

  /** What goes is all blank, with no form feed in it, and what stays does not end in such a blank. */
  lemma {:induction false} TrimmedTail(s: string)
    ensures var t := Trimmed(s);
      && t <= s && !BlankEnd(t)
      && (forall k :: |t| <= k < |s| ==> IsSpace(s[k]) && s[k] != 12 as char)
    decreases |s|
  {
    if BlankEnd(s) {
      TrimmedTail(s[..|s| - 1]);
    }
  }

  /** The line as it comes back: the writer has made ^Z a quote. */
  function Requoted(s: string): string {
    if s == "" then "" else [if s[0] == CTRL_Z then '"' else s[0]] + Requoted(s[1..])
  }

  /** Taking one printed character back. */
  lemma UnescapeChar(done: string, c: char, t: string)
    requires c != NUL
    ensures UnescapeOn(done, LaunderChar(c) + t, false)
         == UnescapeOn(done + [if c == CTRL_Z then '"' else c], t, false)
  {
    var l := LaunderChar(c);
    assert (l + t)[|l|..] == t;
    if |l| == 2 {
      assert (l + t)[1..] == [c] + t && ([c] + t)[1..] == t;
    }
  }

  lemma {:induction false} UnescapeLaundered(done: string, s: string, tail: string)
    requires NUL !in s
    ensures UnescapeOn(done, Launder(s) + tail, false) == UnescapeOn(done + Requoted(s), tail, false)
    decreases s
  {
    hide UnescapeOn, LaunderChar;
    if s == "" {
      assert Launder(s) + tail == tail && done + "" == done;
    } else {
      var q := [if s[0] == CTRL_Z then '"' else s[0]];
      var t := Launder(s[1..]) + tail;
      Regroup(LaunderChar(s[0]), Launder(s[1..]), tail);
      UnescapeChar(done, s[0], t);
      UnescapeLaundered(done + q, s[1..], tail);
      Regroup(done, q, Requoted(s[1..]));
    }
  }

  lemma {:induction false} LaunderBounds(s: string)
    ensures |Launder(s)| <= 2 * |s|
  {
    if s != "" {
      LaunderBounds(s[1..]);
    }
  }

  lemma {:induction false} LaunderNoNewline(s: string)
    requires '\n' !in s
    ensures '\n' !in Launder(s)
  {
    if s != "" {
      LaunderNoNewline(s[1..]);
    }
  }

  lemma {:induction false} LineOfFeed(s: string, rest: Input, room: nat)
    requires '\n' !in s && |s| < room
    ensures LineOf(Feed(s, More('\n', rest)), room) == (s + ['\n'], rest)
  {
    if s == "" {
      assert s + ['\n'] == ['\n'];
    } else {
      assert s[0] in s && '\n' !in s[1..];
      LineOfFeed(s[1..], rest, room - 1);
      assert [s[0]] + (s[1..] + ['\n']) == s + ['\n'];
    }
  }

  /** What `scn_FILE` makes of one line. */
  function Cooked(line: string): string {
    Trimmed(UnescapeOn("", line, false))
  }

  predicate BlankEnd(s: string) {
    s != "" && IsSpace(s[|s| - 1]) && s[|s| - 1] != 12 as char
  }

  lemma {:induction false} RequotedSame(s: string)
    ensures |Requoted(s)| == |s|
    ensures CTRL_Z !in s <==> Requoted(s) == s
  {
    if s != "" {
      RequotedSame(s[1..]);
      assert CTRL_Z in s <==> s[0] == CTRL_Z || CTRL_Z in s[1..];
      assert s == [s[0]] + s[1..];
      if Requoted(s) == s {
        assert Requoted(s)[1..] == Requoted(s[1..]);
      }
    }
  }

  lemma {:induction false} TrimmedShrinks(s: string)
    ensures if BlankEnd(s) then |Trimmed(s)| < |s| else Trimmed(s) == s
  {
    if BlankEnd(s) {
      TrimmedShrinks(s[..|s| - 1]);
    }
  }

  /** The longest line that can be written still fits the buffer it is read into. */
  lemma LineTaken(s: string, rest: Input, room: nat)
    requires NUL !in s && '\n' !in s && |s| < 511 && room + 1 >= MAXTOKEN
    ensures LineOf(Put(s + ['\n'], rest), room) == (Launder(s) + ['\n'], rest)
  {
    PutCat(s, ['\n'], rest);
    PutChar(['\n'], rest);
    LaunderBounds(s);
    LaunderNoNewline(s);
    LineOfFeed(Launder(s), rest, room);
  }

  lemma CookedLine(s: string)
    requires NUL !in s
    ensures Cooked(Launder(s) + ['\n']) == Trimmed(Requoted(s))
  {
    var q := Requoted(s);
    UnescapeLaundered("", s, ['\n']);
    assert "" + q == q;
    UnescapeOne(q, '\n');
    assert (q + ['\n'])[..|q|] == q;
  }

  lemma UnescapeOne(done: string, c: char)
    requires c != '\\' && c != NUL
    ensures UnescapeOn(done, [c], false) == done + [c]
  {
    assert [c][1..] == "";
  }

  /** A line written with `lprintf` and read with `fgets` and `ltrnbln` loses its trailing blanks and
      has its ^Z made quotes; it comes back as it was exactly when there were none of either. */
  lemma LineSurvives(s: string, rest: Input, room: nat)
    requires NUL !in s && '\n' !in s && |s| < 511 && room + 1 >= MAXTOKEN
    ensures var (line, r) := LineOf(Put(s + ['\n'], rest), room);
      && r == rest && Cooked(line) == Trimmed(Requoted(s))
      && (Cooked(line) == s <==> CTRL_Z !in s && !BlankEnd(s))
  {
    LineTaken(s, rest, room);
    CookedLine(s);
    RequotedSame(s);
    TrimmedShrinks(Requoted(s));
  }

  lemma RoomOf(i: Input, nvalue: nat)
    requires nvalue > 0
    ensures |Token(i, nvalue).value| <= nvalue && (Escaped(i) ==> |Token(i, nvalue).value| < nvalue)
    ensures nvalue > 1 ==> (|Token(i, nvalue).value| == nvalue <==> Overruns(i, nvalue - 1, false, false, false))
  {
    if nvalue > 1 {
      TokenFits(i, nvalue);
      TokenOverruns(i, nvalue);
    }
    if Escaped(i) {
      WrittenTokenFits(i, nvalue);
    }
  }

  class Reader {
    var input: Input
    var reachedEOL: bool
    const tokenBuf: array<char>

    constructor (file: string)
      ensures input == Feed(file, End) && !reachedEOL && tokenBuf.Length == MAXTOKEN && fresh(tokenBuf)
    {
      input, reachedEOL, tokenBuf := Feed(file, End), false, new char[MAXTOKEN];
    }

    method Fgetc() returns (eof: bool, c: char)
      modifies this`input
      ensures eof == old(input).End?
      ensures if eof then input == End else old(input) == More(c, input)
    {
      if input.End? {
        return true, NUL;
      }
      eof, c := false, input.c;
      input := input.rest;
    }

    /** `scn_token` */
    method ScnToken(nvalue: nat) returns (eof: bool, value: string)
      modifies this`input, this`reachedEOL
      ensures nvalue == 0 ==> !eof && value == "" && unchanged(this)
      ensures nvalue > 0 ==> Scan(value, input, reachedEOL, eof) == Token(old(input), nvalue)
      ensures |value| <= nvalue && (Escaped(old(input)) && nvalue > 0 ==> |value| < nvalue)
      ensures nvalue > 1 ==> (|value| == nvalue <==> Overruns(old(input), nvalue - 1, false, false, false))
    {
      value := "";
      if nvalue < 1 {
        return false, "";
      }
      var limit := nvalue - 1;
      var quote, escape, arg := false, false, false;
      reachedEOL := false;
      ghost var want := Token(input, nvalue);
      RoomOf(input, nvalue);
      while |value| < limit
        invariant ScanOn(input, limit, value, quote, escape, arg, reachedEOL) == want
        decreases Size(input)
      {
        ghost var before := input;
        var end, c := Fgetc();
        if !end && c == ';' && !quote {
          end, c := SkipRemark();
        }
        if !end && c == '\n' {
          reachedEOL := true;
        }
        if end {
          return value == "", value;
        }
        if c == '\\' && !escape {
          escape := true;
        } else {
          if escape && c != '\\' && c != '"' {
            value := value + ['\\'];
          }
          if arg {
            if quote {
              if c == '"' && !escape {
                return false, value;
              }
              value := value + [c];
            } else {
              if IsSpace(c) {
                return false, value;
              }
              value := value + [c];
            }
          } else if !IsSpace(c) {
            if c == '"' {
              quote := true;
            } else {
              value := value + [c];
            }
            arg := true;
          }
          escape := false;
        }
      }
      eof := false;
    }

    /** Eat a comment: the character after it is the line end, or the file has ended. */
    method SkipRemark() returns (eof: bool, c: char)
      modifies this`input
      ensures eof == SkipComment(old(input)).End?
      ensures if eof then input == End else More(c, input) == SkipComment(old(input)) && c == '\n'
    {
      eof, c := Fgetc();
      while !eof && c != '\n'
        invariant SkipComment(if eof then End else More(c, input)) == SkipComment(old(input))
        invariant eof ==> input == End
        decreases Size(input), !eof
      {
        eof, c := Fgetc();
      }
    }

    /** `assert_EOL`: make sure the line of the last token is read to its end. */
    method AssertEol()
      modifies this`input, this`reachedEOL
      ensures input == if old(reachedEOL) then old(input) else SkipLine(old(input))
      ensures reachedEOL
    {
      if !reachedEOL {
        var eof, c := Fgetc();
        while !eof && c != '\n' && c != 255 as char
          invariant SkipLine(if eof then End else More(c, input)) == SkipLine(old(input))
          invariant eof ==> input == End
          decreases Size(input), !eof
        {
          eof, c := Fgetc();
        }
        reachedEOL := true;
      }
    }

    // ----- conversions -----

    /** One token has been taken from i. */
    ghost predicate Took(i: Input)
      reads this
    {
      input == Next(i).rest && reachedEOL == Next(i).eol
    }

    /** `scn_ichar`: the first character of a token, or its terminator. */
    method ScnChar() returns (ok: bool, c: char)
      modifies this`input, this`reachedEOL
      ensures Took(old(input)) && ok == !Next(old(input)).eof
      ensures ok ==> c == First(Next(old(input)).value)
    {
      var eof, value := ScnToken(MAXTOKEN);
      ok, c := !eof, if value == "" then NUL else value[0];
    }

    /** `scn_string` */
    method ScnString(size: nat) returns (ok: bool, field: string)
      requires size > 0
      modifies this`input, this`reachedEOL
      ensures Took(old(input)) && ok == !Next(old(input)).eof
      ensures ok ==> field == FieldOf(Next(old(input)).value, size)
    {
      var eof, value := ScnToken(MAXTOKEN);
      ok, field := !eof, FieldOf(value, size);
    }

    /** `scn_DECWORD`, `scn_HEXWORD` and their like, before the value is cut to its width: a token
        without a number leaves the variable what it was. */
    method ScnNumber(base: Base, was: int) returns (ok: bool, n: int)
      modifies this`input, this`reachedEOL
      ensures Took(old(input)) && ok == !Next(old(input)).eof
      ensures var token := Next(old(input)).value;
        ok ==> n == if Converts(token, base) then Scanned(token, base) else was
      ensures ok && was == 0 ==> n == Scanned(Next(old(input)).value, base)
    {
      var eof, value := ScnToken(MAXTOKEN);
      ok, n := !eof, was;
      if Converts(value, base) {
        n := Scanned(value, base);
      } else {
        NothingConverted(value, base);
      }
    }

    // ----- lines -----

    /** `fgets` into the token buffer: the line and its terminator. */
    method Fgets(size: nat) returns (ok: bool, n: nat)
      requires 0 < size <= tokenBuf.Length
      modifies this`input, tokenBuf
      ensures ok == !old(input).End?
      ensures n < size && (tokenBuf[..n], input) == LineOf(old(input), size - 1)
      ensures tokenBuf[n] == NUL
    {
      ok, n := !input.End?, 0;
      var more := true;
      LineOnIsLineOf("", input, size - 1);
      ghost var want := LineOn("", input, size - 1);
      assert tokenBuf[..0] == "" && forall x: string :: "" + x == x;
      while more && n < size - 1
        invariant n < size
        invariant if more then LineOn(tokenBuf[..n], input, size - 1 - n) == want else (tokenBuf[..n], input) == want
        decreases more, size - n
      {
        ghost var sofar := tokenBuf[..n];
        var eof, c := Fgetc();
        if eof {
          more := false;
        } else {
          tokenBuf[n] := c;
          n := n + 1;
          assert tokenBuf[..n] == sofar + [c];
          more := c != '\n';
        }
      }
      tokenBuf[n] := NUL;
    }

    /** `ltrnbln` on the n characters in the token buffer: escapes come out in place, then the blanks
        at the end. */
    method Ltrnbln(n: nat) returns (r: nat)
      requires n < tokenBuf.Length
      modifies tokenBuf
      ensures r <= n && tokenBuf[r] == NUL && tokenBuf[..r] == Cooked(old(tokenBuf[..n]))
    {
      ghost var s := tokenBuf[..n];
      ghost var plain := UnescapeOn("", s, false);
      var escape := false;
      var l, m := 0, 0;
      assert tokenBuf[..0] == "";
      while m < n && tokenBuf[m] != NUL
        invariant l <= m <= n && (escape ==> l < m)
        invariant tokenBuf[m..n] == s[m..]
        invariant UnescapeOn(tokenBuf[..l], s[m..], escape) == plain
      {
        ghost var sofar := tokenBuf[..l];
        var c := tokenBuf[m];
        assert c == tokenBuf[m..n][0] && s[m..][1..] == s[m + 1..];
        if c == '\\' && !escape {
          escape := true;
        } else {
          if escape && c != '"' && c != '\\' {
            tokenBuf[l] := '\\';
            l := l + 1;
            assert tokenBuf[..l] == sofar + ['\\'];
          }
          escape := false;
          ghost var kept := tokenBuf[..l];
          tokenBuf[l] := c;
          l := l + 1;
          assert tokenBuf[..l] == kept + [c];
        }
        m := m + 1;
        assert tokenBuf[m..n] == s[m..];
      }
      assert m < n ==> s[m..][0] == tokenBuf[m..n][0] == NUL;
      tokenBuf[l] := NUL;
      r := Trnbln(l);
    }

    /** `trnbln` */
    method Trnbln(n: nat) returns (r: nat)
      requires n < tokenBuf.Length && tokenBuf[n] == NUL
      modifies tokenBuf
      ensures r <= n && tokenBuf[r] == NUL && tokenBuf[..r] == Trimmed(old(tokenBuf[..n]))
    {
      ghost var s := tokenBuf[..n];
      r := n;
      while r > 0 && IsSpace(tokenBuf[r - 1]) && tokenBuf[r - 1] != 12 as char
        invariant r <= n && tokenBuf[r] == NUL && tokenBuf[..r] == s[..r]
        invariant Trimmed(tokenBuf[..r]) == Trimmed(s)
      {
        assert tokenBuf[..r][..r - 1] == tokenBuf[..r - 1];
        tokenBuf[r - 1] := NUL;
        r := r - 1;
        assert tokenBuf[..r] == s[..r];
      }
    }
  }
}
