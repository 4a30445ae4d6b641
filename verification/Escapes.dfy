/** Lines and tokens of files put out by hand or by older writers (ASQENG/READSYS.C, `ltrnbln` and
    `scn_token`): there a backslash need not escape anything. */
module Escapes {
  import opened CText
  import opened Scanner
  import opened Reader

  /** A piece of text: an escaped backslash or quote, a backslash before another character, or any
      other character by itself. */
  datatype Piece = Pair(c: char) | Lone(c: char) | Single(c: char)

  predicate Sound(p: Piece) {
    match p
    case Pair(c) => c == '\\' || c == '"'
    case Lone(c) => c != '\\' && c != '"'
    case Single(c) => c != '\\'
  }

  predicate AllSound(ps: seq<Piece>) {
    forall p :: p in ps ==> Sound(p)
  }

  /** What stands in the file. */
  function Raw(ps: seq<Piece>): string {
    if ps == [] then "" else (if ps[0].Single? then [ps[0].c] else ['\\', ps[0].c]) + Raw(ps[1..])
  }

  /** What is meant: an escape gives the one character it escapes, everything else is itself. */
  function Meant(ps: seq<Piece>): string {
    if ps == [] then "" else (if ps[0].Lone? then ['\\', ps[0].c] else [ps[0].c]) + Meant(ps[1..])
  }

  /** Every text is made of such pieces, but for a backslash at its very end. */
  lemma {:induction false} InPieces(s: string) returns (ps: seq<Piece>)
    ensures AllSound(ps) && (s == Raw(ps) || s == Raw(ps) + "\\")
    ensures |ps| <= |s| && (|s| > 0 && ps == [] ==> s == "\\")
    decreases |s|
  {
    if s == "" || s == "\\" {
      ps := [];
    } else {
      var k := if s[0] == '\\' then 2 else 1;
      var p := if k == 1 then Single(s[0]) else if s[1] == '\\' || s[1] == '"' then Pair(s[1]) else Lone(s[1]);
      var rest := InPieces(s[k..]);
      ps := [p] + rest;
      assert ps[1..] == rest;
      assert s == s[..k] + s[k..];
      assert s[..k] == if k == 1 then [s[0]] else ['\\', s[1]];
      Regroup(s[..k], Raw(rest), "\\");
    }
  }

  predicate Pairless(ps: seq<Piece>) {
    forall p :: p in ps ==> !p.Pair?
  }

  lemma {:induction false} MeantIsText(ps: seq<Piece>)
    requires Pairless(ps)
    ensures Meant(ps) == Raw(ps)
  {
    if ps != [] {
      assert ps[0] in ps;
      MeantIsText(ps[1..]);
    }
  }

  /** Every backslash stands before a character that it does not escape. */
  predicate NothingEscaped(s: string) {
    forall k :: 0 <= k < |s| && s[k] == '\\' ==> k + 1 < |s| && s[k + 1] != '\\' && s[k + 1] != '"'
  }

  lemma {:induction false} NoPairs(ps: seq<Piece>)
    requires NothingEscaped(Raw(ps)) && AllSound(ps)
    ensures Pairless(ps)
    decreases |ps|
  {
    if ps != [] {
      assert ps[0] in ps;
      var s, t := Raw(ps), Raw(ps[1..]);
      var k := |s| - |t|;
      assert s[k - 1] == ps[0].c && (k == 2 ==> s[0] == '\\');
      forall j | 0 <= j < |t| && t[j] == '\\' ensures j + 1 < |t| && t[j + 1] != '\\' && t[j + 1] != '"' {
        assert s[k + j] == t[j] && (j + 1 < |t| ==> s[k + j + 1] == t[j + 1]);
      }
      NoPairs(ps[1..]);
      assert ps == [ps[0]] + ps[1..];
    }
  }

  lemma EndsEscaping(s: string)
    ensures !NothingEscaped(s + "\\")
  {
    assert (s + "\\")[|s|] == '\\';
  }

  /** Where nothing is escaped the text is its own meaning. */
  lemma AsItStands(s: string) returns (ps: seq<Piece>)
    requires NothingEscaped(s)
    ensures AllSound(ps) && Raw(ps) == Meant(ps) == s
  {
    ps := InPieces(s);
    if s == Raw(ps) + "\\" {
      EndsEscaping(Raw(ps));
    }
    NoPairs(ps);
    MeantIsText(ps);
  }

  // ----- lines -----

  lemma UnescapePiece(done: string, p: Piece, tail: string)
    requires Sound(p) && p.c != NUL
    ensures UnescapeOn(done, (if p.Single? then [p.c] else ['\\', p.c]) + tail, false)
         == UnescapeOn(done + (if p.Lone? then ['\\', p.c] else [p.c]), tail, false)
  {
    if p.Single? {
      assert ([p.c] + tail)[1..] == tail;
    } else {
      var s := ['\\', p.c] + tail;
      assert s[1..] == [p.c] + tail && s[1..][1..] == tail;
      assert done + ['\\'] + [p.c] == done + ['\\', p.c];
    }
  }

  lemma {:induction false} UnescapePieces(done: string, ps: seq<Piece>, tail: string)
    requires AllSound(ps) && NUL !in Raw(ps)
    ensures UnescapeOn(done, Raw(ps) + tail, false) == UnescapeOn(done + Meant(ps), tail, false)
    decreases |ps|
  {
    hide UnescapeOn;
    if ps == [] {
      assert "" + tail == tail && done + "" == done;
    } else {
      var p := ps[0];
      var head := if p.Single? then [p.c] else ['\\', p.c];
      var meant := if p.Lone? then ['\\', p.c] else [p.c];
      assert p in ps && p.c in head && head[|head| - 1] == Raw(ps)[|head| - 1];
      Regroup(head, Raw(ps[1..]), tail);
      UnescapePiece(done, p, Raw(ps[1..]) + tail);
      UnescapePieces(done + meant, ps[1..], tail);
      Regroup(done, meant, Meant(ps[1..]));
    }
  }

  lemma UnescapeNothing(done: string)
    ensures UnescapeOn(done, "", false) == done && UnescapeOn(done, "\\", false) == done
  {
    assert "\\"[1..] == "";
  }

  /** An escaped pair of a line gives one character, every other character is kept, a backslash that
      escapes nothing with it; then the blanks at the end go.  A backslash at the very end is lost. */
  lemma CookedPieces(ps: seq<Piece>)
    requires AllSound(ps) && NUL !in Raw(ps)
    ensures Cooked(Raw(ps)) == Cooked(Raw(ps) + "\\") == Trimmed(Meant(ps))
  {
    UnescapePieces("", ps, "");
    UnescapePieces("", ps, "\\");
    assert Raw(ps) + "" == Raw(ps) && "" + Meant(ps) == Meant(ps);
    UnescapeNothing(Meant(ps));
  }

  /** A line in which no backslash escapes anything only loses the blanks at its end. */
  lemma CookedPlain(s: string)
    requires NUL !in s && NothingEscaped(s)
    ensures Cooked(s) == Trimmed(s)
  {
    var ps := AsItStands(s);
    CookedPieces(ps);
  }

  /** Nothing behind a NUL counts. */
  lemma {:induction false} CookedToNul(done: string, s: string, junk: string, escape: bool)
    requires NUL !in s
    ensures UnescapeOn(done, s + [NUL] + junk, escape) == UnescapeOn(done, s, escape)
    decreases |s|
  {
    var t := s + [NUL] + junk;
    if s != "" {
      assert t[0] == s[0] && t[1..] == s[1..] + [NUL] + junk;
      var kept := if escape && s[0] != '"' && s[0] != '\\' then done + ['\\'] else done;
      CookedToNul(kept + [s[0]], s[1..], junk, false);
      CookedToNul(done, s[1..], junk, true);
    }
  }

  // ----- tokens -----

  /** What the piece may be for the token to go on past it: between quotes anything but the quote that
      closes them, otherwise no blank and no start of a comment. */
  predicate GoesOn(p: Piece, quote: bool) {
    if quote then p != Single('"') else p.c != ';' && !IsSpace(p.c)
  }

  predicate AllGoOn(ps: seq<Piece>, quote: bool) {
    forall p :: p in ps ==> Sound(p) && GoesOn(p, quote)
  }

  /** Whether a line end is passed in the token. */
  predicate Wraps(ps: seq<Piece>) {
    ps != [] && (ps[0].c == '\n' || Wraps(ps[1..]))
  }

  lemma {:induction false} NoWrap(ps: seq<Piece>)
    requires AllGoOn(ps, false)
    ensures !Wraps(ps)
  {
    if ps != [] {
      assert ps[0] in ps;
      NoWrap(ps[1..]);
    }
  }

  lemma FeedPiece(ps: seq<Piece>, rest: Input)
    requires ps != []
    ensures var after := Feed(Raw(ps[1..]), rest);
      Feed(Raw(ps), rest) == if ps[0].Single? then More(ps[0].c, after) else More('\\', More(ps[0].c, after))
  {
    var head := if ps[0].Single? then [ps[0].c] else ['\\', ps[0].c];
    FeedCat(head, Raw(ps[1..]), rest);
    if |head| == 2 {
      assert head[1..] == [ps[0].c] && [ps[0].c][1..] == "";
    } else {
      assert head[1..] == "";
    }
  }

  lemma TokenPiece(p: Piece, i: Input, limit: nat, v: string, quote: bool, arg: bool, eol: bool)
    requires Sound(p) && GoesOn(p, quote) && |v| < limit && (quote ==> arg) && (arg || p.c != '"')
    ensures ScanOn(if p.Single? then More(p.c, i) else More('\\', More(p.c, i)), limit, v, quote, false, arg, eol)
         == ScanOn(i, limit, v + (if p.Lone? then ['\\', p.c] else [p.c]), quote, false, true, eol || p.c == '\n')
  {
    assert v + ['\\'] + [p.c] == v + ['\\', p.c];
  }

  /** The body of a token, up to what closes it. */
  lemma {:induction false} BodyPieces(ps: seq<Piece>, close: char, rest: Input, limit: nat, v: string, quote: bool, eol: bool)
    requires AllGoOn(ps, quote) && |v| + |Meant(ps)| < limit && Closes(close, quote, false)
    ensures ScanOn(Feed(Raw(ps), More(close, rest)), limit, v, quote, false, true, eol)
         == Scan(v + Meant(ps), rest, eol || Wraps(ps) || close == '\n', false)
    decreases |ps|
  {
    if ps == [] {
      assert v + "" == v;
    } else {
      hide ScanOn, Feed;
      var p := ps[0];
      assert p in ps;
      var meant := if p.Lone? then ['\\', p.c] else [p.c];
      FeedPiece(ps, More(close, rest));
      TokenPiece(p, Feed(Raw(ps[1..]), More(close, rest)), limit, v, quote, true, eol);
      BodyPieces(ps[1..], close, rest, limit, v + meant, quote, eol || p.c == '\n');
      Regroup(v, meant, Meant(ps[1..]));
    }
  }

  /** A token between quotes, whatever escapes are in it: an escaped pair gives one character, and a
      backslash that escapes nothing stays. */
  lemma QuotedPieces(gap: string, ps: seq<Piece>, rest: Input, nvalue: nat)
    requires Gap(gap, false) && AllGoOn(ps, true) && |Meant(ps)| + 2 <= nvalue
    ensures Token(Feed(gap, More('"', Feed(Raw(ps), More('"', rest)))), nvalue)
         == Scan(Meant(ps), rest, HasNewline(gap) || Wraps(ps), false)
  {
    hide ScanOn, Feed;
    var i := Feed(Raw(ps), More('"', rest));
    SkipGap(gap, More('"', i), nvalue - 1, false);
    OpenQuote(i, nvalue - 1, false, HasNewline(gap));
    BodyPieces(ps, '"', rest, nvalue - 1, "", true, HasNewline(gap));
    assert "" + Meant(ps) == Meant(ps);
  }

  /** And a token without quotes, which must not begin with one, escaped or not. */
  lemma BarePieces(gap: string, ps: seq<Piece>, w: char, rest: Input, nvalue: nat)
    requires Gap(gap, false) && AllGoOn(ps, false) && ps != [] && ps[0].c != '"' && IsSpace(w)
    requires |Meant(ps)| + 2 <= nvalue
    ensures Token(Feed(gap, Feed(Raw(ps), More(w, rest))), nvalue)
         == Scan(Meant(ps), rest, HasNewline(gap) || Wraps(ps) || w == '\n', false)
  {
    hide ScanOn, Feed, Gap, HasNewline;
    var eol, after := HasNewline(gap), More(w, rest);
    SkipGap(gap, Feed(Raw(ps), after), nvalue - 1, false);
    BareBegins(ps, after, nvalue - 1, eol);
    BodyPieces(ps[1..], w, rest, nvalue - 1, Meant([ps[0]]), false, eol || ps[0].c == '\n');
  }

  lemma BareBegins(ps: seq<Piece>, after: Input, limit: nat, eol: bool)
    requires AllGoOn(ps, false) && ps != [] && ps[0].c != '"' && limit > 0
    ensures ScanOn(Feed(Raw(ps), after), limit, "", false, false, false, eol)
         == ScanOn(Feed(Raw(ps[1..]), after), limit, Meant([ps[0]]), false, false, true, eol || ps[0].c == '\n')
    ensures Meant(ps) == Meant([ps[0]]) + Meant(ps[1..])
  {
    hide ScanOn, Feed;
    var p := ps[0];
    assert p in ps;
    FeedPiece(ps, after);
    TokenPiece(p, Feed(Raw(ps[1..]), after), limit, "", false, false, eol);
    assert [p][1..] == [] && Meant([]) == "";
    assert Meant([p]) == (if p.Lone? then ['\\', p.c] else [p.c]) == "" + Meant([p]);
  }

  lemma {:induction false} TextChars(ps: seq<Piece>)
    ensures forall p :: p in ps ==> p.c in Raw(ps)
    ensures ps != [] ==> Raw(ps)[0] == if ps[0].Single? then ps[0].c else '\\'
  {
    if ps != [] {
      TextChars(ps[1..]);
      forall p | p in ps ensures p.c in Raw(ps) {
        assert p == ps[0] || p in ps[1..];
        if p == ps[0] {
          assert Raw(ps)[if p.Single? then 0 else 1] == p.c;
        }
      }
    }
  }

  /** So a path written without escapes is read back as it stands. */
  lemma PathAsItStands(gap: string, s: string, w: char, rest: Input, nvalue: nat)
    requires Gap(gap, false) && NothingEscaped(s) && s != "" && s[0] != '"' && IsSpace(w) && |s| + 2 <= nvalue
    requires forall c :: c in s ==> c != ';' && !IsSpace(c)
    ensures var r := Token(Feed(gap, Feed(s, More(w, rest))), nvalue);
      r == Scan(s, rest, HasNewline(gap) || w == '\n', false)
  {
    var ps := AsItStands(s);
    TextChars(ps);
    assert ps[0] in ps;
    NoWrap(ps);
    BarePieces(gap, ps, w, rest, nvalue);
  }
}
