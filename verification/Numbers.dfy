/** The number formats of the snapshot files: `%u`, `%X` and their padded forms printed,
    `%u` and `%x` read back. */
module Numbers {
  import opened CText
  import opened Scanner

  type Base = b: int | b == 10 || b == 16 witness 10

  type Byte = n: nat | n < 0x100
  type Word = n: nat | n < 0x1_0000
  type Dword = n: nat | n < 0x1_0000_0000

  function Low8(n: int): Byte {
    n % 0x100
  }

  function Low16(n: int): Word {
    n % 0x1_0000
  }

  function Low32(n: int): Dword {
    n % 0x1_0000_0000
  }

  /** The value of a digit; not a digit of the base when it is not below it. */
  function DigitValue(c: char): nat {
    if '0' <= c <= '9' then c as int - '0' as int
    else if 'A' <= c <= 'F' then c as int - 'A' as int + 10
    else if 'a' <= c <= 'f' then c as int - 'a' as int + 10
    else 16
  }

  function DigitChar(d: nat): char
    requires d < 16
  {
    if d < 10 then ('0' as int + d) as char else ('A' as int + d - 10) as char
  }

  /** `%u` and `%X`. */
  function Digits(n: nat, base: Base): (s: string)
    ensures s != ""
  {
    if n < base then [DigitChar(n)] else Digits(n / base, base) + [DigitChar(n % base)]
  }

  /** Zeros put in front up to the width. */
  function Padded(s: string, width: nat): string
    decreases width - |s|
  {
    if width <= |s| then s else Padded(['0'] + s, width)
  }

  /** The leading digits, and their value. */
  function Leading(s: string, base: Base): string {
    if s == "" || DigitValue(s[0]) >= base then "" else [s[0]] + Leading(s[1..], base)
  }

  function ValueOn(acc: nat, s: string, base: Base): nat
    decreases s
  {
    if s == "" then acc else ValueOn(acc * base + DigitValue(s[0]), s[1..], base)
  }

  /** Without a sign; `sscanf` takes one for the unsigned formats as well. */
  function Unsigned(s: string): string {
    if s != "" && s[0] in {'+', '-'} then s[1..] else s
  }

  /** Without the prefix that `%x` takes. */
  function Unprefixed(s: string, base: Base): string {
    if base == 16 && |s| >= 2 && s[0] == '0' && s[1] in {'x', 'X'} then s[2..] else s
  }

  /** Whether `sscanf` finds a number to convert; if not, it leaves the variable alone. */
  predicate Converts(s: string, base: Base) {
    Leading(Unsigned(SkipSpace(s)), base) != ""
  }

  /** The number that `sscanf` converts, before it is cut to the width of the variable. */
  function Scanned(s: string, base: Base): int {
    var t := SkipSpace(s);
    var n: int := ValueOn(0, Leading(Unprefixed(Unsigned(t), base), base), base);
    if t != "" && t[0] == '-' then -n else n
  }

  lemma NothingConverted(s: string, base: Base)
    requires !Converts(s, base)
    ensures Scanned(s, base) == 0
  {
  }

  predicate AllDigits(s: string, base: Base) {
    s == "" || (DigitValue(s[0]) < base && AllDigits(s[1..], base))
  }

  lemma {:induction false} AllDigitsCat(a: string, b: string, base: Base)
    requires AllDigits(a, base) && AllDigits(b, base)
    ensures AllDigits(a + b, base)
  {
    if a == "" {
      assert a + b == b;
    } else {
      assert (a + b)[1..] == a[1..] + b;
      AllDigitsCat(a[1..], b, base);
    }
  }

  lemma {:induction false} LeadingAll(s: string, base: Base)
    requires AllDigits(s, base)
    ensures Leading(s, base) == s
  {
    if s != "" {
      LeadingAll(s[1..], base);
      assert s == [s[0]] + s[1..];
    }
  }

  lemma {:induction false} ValueCat(acc: nat, a: string, b: string, base: Base)
    ensures ValueOn(acc, a + b, base) == ValueOn(ValueOn(acc, a, base), b, base)
    decreases a
  {
    if a == "" {
      assert a + b == b;
    } else {
      assert (a + b)[1..] == a[1..] + b;
      ValueCat(acc * base + DigitValue(a[0]), a[1..], b, base);
    }
  }

  lemma DigitBack(d: nat)
    requires d < 16
    ensures DigitValue(DigitChar(d)) == d
  {
  }

  lemma ValueOfOne(acc: nat, c: char, base: Base)
    ensures ValueOn(acc, [c], base) == acc * base + DigitValue(c)
  {
    assert [c][1..] == "";
  }

  /** The digits printed have the number's value. */
  lemma {:induction false} DigitsValue(n: nat, base: Base)
    ensures AllDigits(Digits(n, base), base) && ValueOn(0, Digits(n, base), base) == n
  {
    if n < base {
      DigitBack(n);
      ValueOfOne(0, DigitChar(n), base);
    } else {
      var c := DigitChar(n % base);
      DigitBack(n % base);
      DigitsValue(n / base, base);
      AllDigitsCat(Digits(n / base, base), [c], base);
      ValueCat(0, Digits(n / base, base), [c], base);
      ValueOfOne(n / base, c, base);
    }
  }

  lemma {:induction false} PaddedZeros(s: string, width: nat, base: Base)
    requires AllDigits(s, base) && s != ""
    ensures var p := Padded(s, width);
      AllDigits(p, base) && p != "" && ValueOn(0, p, base) == ValueOn(0, s, base)
      && |p| == (if |s| < width then width else |s|)
    decreases width - |s|
  {
    if |s| < width {
      var t := ['0'] + s;
      assert t[1..] == s;
      PaddedZeros(t, width, base);
    }
  }

  lemma DigitIsBare(c: char)
    requires DigitValue(c) < 16
    ensures BareChar(c) && c != '"' && c != '\\'
  {
  }

  /** Digits go through the writer unchanged and make a bare token. */
  lemma {:induction false} DigitsAreBare(s: string, base: Base)
    requires AllDigits(s, base)
    ensures BareTail(s) && (s != "" ==> Bare(s)) && NUL !in s
  {
    if s != "" {
      DigitIsBare(s[0]);
      DigitsAreBare(s[1..], base);
    }
  }

  lemma ScannedDigits(s: string, base: Base)
    requires AllDigits(s, base) && s != ""
    ensures Converts(s, base) && Scanned(s, base) == ValueOn(0, s, base)
  {
    DigitIsBare(s[0]);
    if |s| > 1 {
      assert DigitValue(s[1..][0]) < 16;
    }
    LeadingAll(s, base);
  }

  /** How many digits a number takes. */
  lemma {:induction false} DigitsWithin(n: nat, base: Base, width: nat)
    requires n < PowerOf(base, width) && width > 0
    ensures |Digits(n, base)| <= width
    decreases width
  {
    PowerOne(base);
    if n >= base {
      DivLess(n, base, PowerOf(base, width - 1));
      DigitsWithin(n / base, base, width - 1);
    }
  }

  lemma PowerOne(base: Base)
    ensures PowerOf(base, 1) == base
  {
    assert PowerOf(base, 0) == 1;
  }

  lemma DwordDigits(n: Dword, base: Base)
    ensures |Digits(n, base)| <= 10
  {
    assert PowerOf(base, 5) >= 100_000 by {
      assert PowerOf(base, 2) >= 100;
      assert PowerOf(base, 3) >= 1000;
    }
    assert PowerOf(base, 7) >= 10_000_000 by {
      assert PowerOf(base, 6) >= 1_000_000;
    }
    assert PowerOf(base, 10) >= 10_000_000_000 by {
      assert PowerOf(base, 8) >= 100_000_000;
      assert PowerOf(base, 9) >= 1_000_000_000;
    }
    DigitsWithin(n, base, 10);
  }

  function PowerOf(base: Base, k: nat): nat {
    if k == 0 then 1 else base * PowerOf(base, k - 1)
  }

  lemma DivLess(n: nat, base: Base, p: nat)
    requires n < base * p
    ensures n / base < p
  {
    if base == 10 {
      assert n / 10 < p;
    } else {
      assert n / 16 < p;
    }
  }

  /** A printed number is a bare token that reads back as the number. */
  lemma NumberSurvives(n: nat, base: Base, width: nat)
    ensures var s := Padded(Digits(n, base), width);
      Bare(s) && NUL !in s && Converts(s, base) && Scanned(s, base) == n
    ensures n < 0x1_0000_0000 && width <= 10 ==> |Padded(Digits(n, base), width)| <= 10
  {
    if n < 0x1_0000_0000 {
      DwordDigits(n, base);
    }
    DigitsValue(n, base);
    PaddedZeros(Digits(n, base), width, base);
    var s := Padded(Digits(n, base), width);
    DigitsAreBare(s, base);
    ScannedDigits(s, base);
  }

  /** The digits: capital letters are printed, and small ones are read as well. */
  lemma TheDigits(k: nat)
    requires k < 16
    ensures DigitChar(k) == "0123456789ABCDEF"[k]
    ensures DigitValue("0123456789ABCDEF"[k]) == DigitValue("0123456789abcdef"[k]) == k
  {
  }

  lemma FirstDigit(s: string, base: Base)
    requires AllDigits(s, base) && s != ""
    ensures SkipSpace(s) == s && s[0] !in {'+', '-'} && Leading(s, base) == s && Unprefixed(s, base) == s
  {
    DigitIsBare(s[0]);
    if |s| > 1 {
      assert DigitValue(s[1..][0]) < 16;
    }
    LeadingAll(s, base);
  }

  lemma Prefixed(s: string)
    ensures Unprefixed("0x" + s, 16) == Unprefixed("0X" + s, 16) == s
  {
  }

  /** A number may have a sign. */
  lemma ScannedSigned(s: string, base: Base)
    requires AllDigits(s, base) && s != ""
    ensures Scanned("+" + s, base) == ValueOn(0, s, base)
    ensures Scanned("-" + s, base) == 0 - ValueOn(0, s, base)
  {
    hide ValueOn, Leading, Unprefixed, AllDigits;
    FirstDigit(s, base);
    assert ("+" + s)[1..] == s && ("-" + s)[1..] == s;
  }

  /** In base 16 it may have a prefix, behind the sign. */
  lemma ScannedPrefixed(s: string)
    requires AllDigits(s, 16) && s != ""
    ensures Scanned("0x" + s, 16) == Scanned("0X" + s, 16) == ValueOn(0, s, 16)
    ensures Scanned("-0x" + s, 16) == 0 - ValueOn(0, s, 16)
  {
    hide ValueOn, Leading, Unprefixed, AllDigits;
    FirstDigit(s, 16);
    Prefixed(s);
    assert ("-0x" + s)[1..] == "0x" + s;
  }

  /** What a word or a longer variable keeps of a number: the same for numbers that differ by its
      range, and the number itself within it. */
  lemma WidthsWrap(n: int, k: int)
    ensures Low8(n + 0x100 * k) == Low8(n) && (0 <= n < 0x100 ==> Low8(n) == n)
    ensures Low16(n + 0x1_0000 * k) == Low16(n) && (0 <= n < 0x1_0000 ==> Low16(n) == n)
    ensures Low32(n + 0x1_0000_0000 * k) == Low32(n) && (0 <= n < 0x1_0000_0000 ==> Low32(n) == n)
  {
    Wraps(n, k, 0x100);
    Wraps(n, k, 0x1_0000);
    Wraps(n, k, 0x1_0000_0000);
  }

  lemma Wraps(n: int, k: int, m: int)
    requires m > 0
    ensures (n + m * k) % m == n % m
  {
    var q := n / m;
    assert n == m * q + n % m;
    assert n + m * k == m * (q + k) + n % m;
    SameRest(n + m * k, m, q + k, n % m);
  }

  lemma SameRest(a: int, m: int, q: int, r: int)
    requires m > 0 && a == m * q + r && 0 <= r < m
    ensures a % m == r
  {
    var p := a / m;
    assert a == m * p + a % m;
    assert m * (p - q) == r - a % m;
    Multiple(m, p - q);
  }

  lemma Multiple(m: int, d: int)
    requires m > 0
    ensures d == 0 || m * d >= m || m * d <= -m
  {
    if d >= 1 {
      assert m * (d - 1) >= 0;
    } else {
      assert m * -d >= 0;
    }
  }

  predicate Blanks(g: string) {
    g == "" || (g[0] == ' ' && Blanks(g[1..]))
  }
}
