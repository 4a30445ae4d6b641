/** What the operators of the evaluator compute, told of texts and the numbers they evaluate to
    (BATPROC/EVAL.C). */
module EvalMeaning {
  import opened CText
  import opened EvalParser
  import opened EvalTree
  import opened Numbers
  import opened Options

  lemma NatDivision(x: nat, y: nat)
    requires y > 0
    ensures x == y * (x / y) + x % y && 0 <= x % y < y
  {
  }

  lemma Parts(a: int, b: int) returns (q: int, m: int)
    requires b != 0
    ensures Abs(a) == Abs(b) * q + m && 0 <= q && 0 <= m < Abs(b)
    ensures TruncDiv(a, b) == (if (a >= 0) == (b > 0) then q else -q)
    ensures TruncMod(a, b) == (if a >= 0 then m else -m)
  {
    q, m := Abs(a) / Abs(b), Abs(a) % Abs(b);
    NatDivision(Abs(a), Abs(b));
  }

  lemma Signs(a: int, b: int, q: int, m: int)
    requires Abs(a) == Abs(b) * q + m
    ensures a == b * (if (a >= 0) == (b > 0) then q else -q) + (if a >= 0 then m else -m)
  {
    assert (-b) * q == -(b * q) == b * -q;
  }

  /** Quotient and remainder belong together, and the remainder goes with the dividend. */
  lemma QuotientRemainder(a: int, b: int)
    requires b != 0
    ensures a == b * TruncDiv(a, b) + TruncMod(a, b)
    ensures Abs(TruncMod(a, b)) < Abs(b) && (TruncMod(a, b) == 0 || (TruncMod(a, b) > 0 <==> a > 0))
  {
    hide TruncDiv, TruncMod;
    var q, m := Parts(a, b);
    Signs(a, b, q, m);
    if a == 0 {
      ZeroParts(b, q, m);
    }
  }

  lemma ZeroParts(b: int, q: int, m: int)
    requires 0 <= q && 0 <= m && 0 == Abs(b) * q + m
    ensures m == 0
  {
    assert Abs(b) * q >= 0;
  }

  /** The text evaluates to v, whatever code an earlier evaluation left behind. */
  ghost predicate Yields(text: string, v: int) {
    forall delim :: Evaluate(text, delim) == Value(v)
  }

  lemma YieldsMeaning(w: Written)
    requires Proper(w)
    ensures Meaning(w) == None ==> forall delim :: Evaluate(Text(w, 0), delim) == Error(DivideByZero)
    ensures forall v :: Yields(Text(w, 0), v) <==> Meaning(w) == Some(v)
  {
    forall delim ensures Evaluate(Text(w, 0), delim) == AnswerOf(Meaning(w)) {
      EvaluatesText(w, "", delim);
      assert Text(w, 0) + "" == Text(w, 0);
    }
    forall v | Yields(Text(w, 0), v) ensures Meaning(w) == Some(v) {
      assert Evaluate(Text(w, 0), 0) == Value(v);
    }
  }

  /** A text of l, some blanks, the operator, and a text of r. */
  function Joined(l: Written, gap: string, c: char, r: Written): string {
    Text(l, 0) + (gap + [c] + Text(r, 0))
  }

  lemma JoinedYields(l: Written, gap: string, op: int, r: Written, a: int, b: int)
    requires Proper(Two(l, gap, op, r)) && Yields(Text(l, 0), a) && Yields(Text(r, 0), b)
    ensures var t := Joined(l, gap, "+-*/%"[op], r);
      match Arith(op, a, b)
      case None => forall delim :: Evaluate(t, delim) == Error(DivideByZero)
      case Some(v) => Yields(t, v)
  {
    var w := Two(l, gap, op, r);
    assert Text(w, 0) == Joined(l, gap, "+-*/%"[op], r);
    hide Evaluate, Text, Joined, Yields, Arith;
    YieldsMeaning(l);
    YieldsMeaning(r);
    YieldsMeaning(w);
  }

  /** Sums: subtraction takes back what addition has added. */
  lemma SumsOfTexts(l: Written, gap: string, r: Written, a: int, b: int)
    requires Blank(gap) && Proper(l) && Proper(r) && Level(r) >= 2
    requires Yields(Text(l, 0), a) && Yields(Text(r, 0), b)
    ensures Yields(Joined(l, gap, '+', r), a + b)
    ensures exists d :: Yields(Joined(l, gap, '-', r), d) && d + b == a
  {
    hide Evaluate, Text, Joined, Yields;
    JoinedYields(l, gap, ADD, r, a, b);
    JoinedYields(l, gap, SUBTRACT, r, a, b);
    assert Yields(Joined(l, gap, '-', r), a - b);
  }

  /** Products, quotients and remainders; a zero divisor is an error for both. */
  lemma ProductsOfTexts(l: Written, gap: string, r: Written, a: int, b: int)
    requires Blank(gap) && Proper(l) && Proper(r) && Level(l) >= 2 && Level(r) >= 3
    requires Yields(Text(l, 0), a) && Yields(Text(r, 0), b)
    ensures Yields(Joined(l, gap, '*', r), a * b)
    ensures b == 0 ==> forall delim ::
      Evaluate(Joined(l, gap, '/', r), delim) == Evaluate(Joined(l, gap, '%', r), delim) == Error(DivideByZero)
    ensures b != 0 ==> exists q, m ::
      && Yields(Joined(l, gap, '/', r), q) && Yields(Joined(l, gap, '%', r), m)
      && a == b * q + m && Abs(m) < Abs(b) && (m == 0 || (m > 0 <==> a > 0))
  {
    hide Evaluate, Text, Joined, Yields, TruncDiv, TruncMod;
    JoinedYields(l, gap, MULTIPLY, r, a, b);
    JoinedYields(l, gap, DIVIDE, r, a, b);
    JoinedYields(l, gap, MODULO, r, a, b);
    if b != 0 {
      QuotientRemainder(a, b);
      assert Yields(Joined(l, gap, '/', r), TruncDiv(a, b)) && Yields(Joined(l, gap, '%', r), TruncMod(a, b));
    }
  }

  /** Signs. */
  lemma SignsOfTexts(gap: string, x: Written, a: int)
    requires Blank(gap) && Proper(x) && Level(x) == 4 && Yields(Text(x, 0), a)
    ensures Yields(gap + "+" + Text(x, 0), a)
    ensures exists n :: Yields(gap + "-" + Text(x, 0), n) && n + a == 0
  {
    var plus, minus := Signed(gap, false, x), Signed(gap, true, x);
    YieldsMeaning(x);
    YieldsMeaning(plus);
    YieldsMeaning(minus);
    assert Text(plus, 0) == gap + "+" + Text(x, 0) && Text(minus, 0) == gap + "-" + Text(x, 0);
    assert Yields(gap + "-" + Text(x, 0), -a);
  }

  // ----- errors -----

  /** A text that does not begin with a digit or an operator is no expression; the empty one is 0. */
  lemma NothingToEvaluate(s: string, delim: int)
    requires var t := SkipSpace(s); t == "" || (!IsDigit(t[0]) && t[0] !in "+-*/%()")
    ensures Evaluate(s, delim) == if s == "" then Value(0) else Error(NoExpression)
  {
    if SkipSpace(s) != "" {
      TheOperators(SkipSpace(s)[0]);
    }
  }

  lemma TheOperators(c: char)
    ensures OpCode(c) >= 0 <==> c in "+-*/%()"
  {
    if OpCode(c) >= 0 {
      assert "+-*/%()"[OpCode(c)] == c;
    }
  }

  /** What stands behind an operand and is neither digit nor operator. */
  predicate Junk(rest: string) {
    var t := SkipSpace(rest);
    t != "" && !IsDigit(t[0]) && OpCode(t[0]) < 0 && rest[0] != ','
  }

  lemma AtJunk(rest: string, d: int)
    requires Junk(rest)
    ensures At(rest, d).tok == NoTok && At(rest, d).line != "" && At(rest, d).token == "" && At(rest, d).delim == d
  {
  }

  lemma JunkAfterNumber(gap: string, s: string, rest: string, d: int)
    requires Blank(gap) && IsNumber(s) && Junk(rest)
    ensures At(gap + s + rest, d) == PState(rest, NoCommas(s), Number, d) && NoCommas(s) != ""
  {
    SkipBlank(gap, s + rest);
    assert gap + s + rest == gap + (s + rest);
    assert SkipSpace(s + rest) == s + rest;
    NoCommasIn(s);
    assert !IsDigit(rest[0]);
    DigitsTaken(s, rest, MAX_DIGITS);
  }

  lemma JunkRead(w: Written, rest: string, d: int, r: int)
    requires Proper(w) && Level(w) == 4 && Junk(rest)
    ensures var p := At(Text(w, 0) + rest, d);
      && p.token != "" && !IsDelim(p, {ADD, SUBTRACT})
      && Level4(p, r) == Fail(if Meaning(w) == None then DivideByZero else BadSyntax)
  {
    if w.Num? {
      JunkAfterNumber(w.gap, w.number, rest, d);
      NextTok(PState(rest, NoCommas(w.number), Number, d));
      AtJunk(rest, d);
    } else {
      var closing := w.close + OpText(CLOSE_PAREN) + rest;
      TextParen(w, rest);
      AtOp(w.gap, OPEN_PAREN, Text(w.x, 0) + closing, d);
      NextTok(PState(Text(w.x, 0) + closing, OpText(OPEN_PAREN), Delimiter, OPEN_PAREN));
      OpFollows(w.close, CLOSE_PAREN, rest);
      var hold := Reads1(w.x, closing, OPEN_PAREN, r);
      AtOp(w.close, CLOSE_PAREN, rest, LastCode(w.x, OPEN_PAREN));
      NextTok(At(closing, LastCode(w.x, OPEN_PAREN)));
      AtJunk(rest, CLOSE_PAREN);
      NextTok(PState(rest, OpText(CLOSE_PAREN), Delimiter, CLOSE_PAREN));
    }
  }

  /** A number or a text in parentheses with something else behind it is an error. */
  lemma JunkIsBadSyntax(w: Written, rest: string, delim: int)
    requires Proper(w) && Level(w) == 4 && Junk(rest)
    ensures Evaluate(Text(w, 0) + rest, delim) == Error(if Meaning(w) == None then DivideByZero else BadSyntax)
  {
    hide Level4, Text;
    JunkRead(w, rest, delim, 0);
    assert |Text(w, 0) + rest| >= |rest| > 0;
    var p := At(Text(w, 0) + rest, delim);
    assert Level2(p, 0) == Level3(p, 0) == Level4(p, 0);
  }

  // ----- numbers -----

  lemma {:induction false} AtolDigits(n: nat)
    ensures var s := Digits(n, 10);
      (forall c :: c in s ==> IsDigit(c)) && Atol(s) == n
  {
    var s := Digits(n, 10);
    if n >= 10 {
      AtolDigits(n / 10);
      assert s[..|s| - 1] == Digits(n / 10, 10);
    } else {
      assert s[..0] == "";
    }
  }

  /** A number written with up to 20 digits, and commas anywhere after the first, evaluates to the
      number. */
  lemma NumberOfText(n: nat, gap: string, s: string)
    requires Blank(gap) && IsNumber(s) && NoCommas(s) == Digits(n, 10)
    ensures Yields(gap + s, n)
  {
    AtolDigits(n);
    YieldsMeaning(Num(gap, s));
  }
}
