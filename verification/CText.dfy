/** The character and string primitives of the C run-time library that the modelled files
    call: `isspace`, `isdigit`, `toupper`, `stricmp`. */
module CText {

  const NUL: char := 0 as char

  predicate IsSpace(c: char) {
    c == ' ' || 9 <= c as int <= 13
  }

  predicate IsDigit(c: char) {
    '0' <= c <= '9'
  }

  /** The six blanks of `isspace`. */
  lemma TheBlanks(c: char)
    ensures IsSpace(c) <==>
      c in {' ', '\t', '\n', '\r'} || c == 11 as char || c == 12 as char
    ensures IsDigit(c) <==> c in "0123456789"
  {
    var digits := "0123456789";
    if IsDigit(c) {
      assert c == digits[c as int - 48];
    }
  }

  function ToUpper(c: char): char {
    if 'a' <= c <= 'z' then (c as int - 32) as char else c
  }

  /** `toupper` turns the small letters into the capital ones, in order, and nothing else. */
  lemma ToUpperLetters(c: char)
    ensures var small, capital := "abcdefghijklmnopqrstuvwxyz", "ABCDEFGHIJKLMNOPQRSTUVWXYZ";
      && (forall k :: 0 <= k < 26 ==> ToUpper(small[k]) == ToUpper(capital[k]) == capital[k])
      && (c < 'a' || c > 'z' ==> ToUpper(c) == c)
  {
  }

  lemma ToUpperTwice(c: char)
    ensures ToUpper(ToUpper(c)) == ToUpper(c)
  {
  }

  function Upper(s: string): (r: string)
    ensures |r| == |s|
    ensures forall k :: 0 <= k < |s| ==> r[k] == ToUpper(s[k])
  {
    seq(|s|, i requires 0 <= i < |s| => ToUpper(s[i]))
  }

  lemma Regroup(a: string, b: string, c: string)
    ensures (a + b) + c == a + (b + c)
  {
  }

  /** `skipspace`: the rest of the string from its first nonblank. */
  function SkipSpace(s: string): (r: string)
    ensures |r| <= |s|
    ensures r != "" ==> !IsSpace(r[0])
  {
    if s != "" && IsSpace(s[0]) then SkipSpace(s[1..]) else s
  }

  predicate Blank(s: string) {
    forall c :: c in s ==> IsSpace(c)
  }

  lemma {:induction false} SkipBlank(gap: string, s: string)
    requires Blank(gap)
    ensures SkipSpace(gap + s) == SkipSpace(s)
  {
    if gap == "" {
      assert gap + s == s;
    } else {
      assert gap[0] in gap;
      assert (gap + s)[1..] == gap[1..] + s;
      SkipBlank(gap[1..], s);
    }
  }

  /** `stricmp`: the sign of the first difference after folding case. */
  function StrICmp(a: string, b: string): int {
    if a == [] && b == [] then 0
    else if a == [] then -1
    else if b == [] then 1
    else if ToUpper(a[0]) != ToUpper(b[0]) then ToUpper(a[0]) as int - ToUpper(b[0]) as int
    else StrICmp(a[1..], b[1..])
  }

  lemma {:induction false} StrICmpFlips(a: string, b: string)
    ensures StrICmp(a, b) > 0 <==> StrICmp(b, a) < 0
  {
    if a != [] && b != [] && ToUpper(a[0]) == ToUpper(b[0]) {
      StrICmpFlips(a[1..], b[1..]);
    }
  }

  lemma {:induction false} StrICmpTransitive(a: string, b: string, c: string)
    requires StrICmp(a, b) <= 0 && StrICmp(b, c) <= 0
    ensures StrICmp(a, c) <= 0
    ensures StrICmp(a, c) == 0 ==> StrICmp(a, b) == 0 && StrICmp(b, c) == 0
  {
    if a != [] && b != [] && c != [] && ToUpper(a[0]) == ToUpper(b[0]) && ToUpper(b[0]) == ToUpper(c[0]) {
      StrICmpTransitive(a[1..], b[1..], c[1..]);
    }
  }

  /** `stricmp` of two strings that agree, with case folded, on their first k characters: the shorter
      comes first, otherwise the one with the smaller next character. */
  lemma {:induction false} StrICmpIsLexicographic(a: string, b: string, k: nat)
    requires k <= |a| && k <= |b| && forall i :: 0 <= i < k ==> ToUpper(a[i]) == ToUpper(b[i])
    ensures k == |a| < |b| ==> StrICmp(a, b) < 0 < StrICmp(b, a)
    ensures k < |a| && k < |b| && ToUpper(a[k]) < ToUpper(b[k]) ==> StrICmp(a, b) < 0 < StrICmp(b, a)
  {
    if k > 0 {
      StrICmpIsLexicographic(a[1..], b[1..], k - 1);
    }
  }

  /** `stricmp` finds two strings equal exactly when they are the same with case folded. */
  lemma {:induction false} StrICmpIsUpper(a: string, b: string)
    ensures StrICmp(a, b) == 0 <==> Upper(a) == Upper(b)
  {
    if a != [] && b != [] {
      StrICmpIsUpper(a[1..], b[1..]);
      assert Upper(a) == [ToUpper(a[0])] + Upper(a[1..]);
      assert Upper(b) == [ToUpper(b[0])] + Upper(b[1..]);
      assert Upper(a)[1..] == Upper(a[1..]) && Upper(b)[1..] == Upper(b[1..]);
    }
  }
}
