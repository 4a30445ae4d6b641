/** What an expression means, how it may be written, and the proof that the parser computes the one
    from the other (BATPROC/EVAL.C). */
module EvalTree {
  import opened CText
  import opened EvalParser
  import opened Options

  datatype Expr =
    | Lit(digits: string)
    | Sign(minus: bool, e: Expr)
    | Bin(op: int, l: Expr, r: Expr)

  /** Literals have 1 to 20 digits, operators are the five binary ones. */
  predicate WellFormed(e: Expr) {
    match e
    case Lit(s) => IsLiteral(s)
    case Sign(_, x) => WellFormed(x)
    case Bin(op, l, r) => ADD <= op <= MODULO && WellFormed(l) && WellFormed(r)
  }

  predicate IsLiteral(s: string) {
    1 <= |s| <= MAX_DIGITS && forall c :: c in s ==> IsDigit(c)
  }

  /** The digits of a number as it is written. */
  function NoCommas(s: string): (r: string)
    ensures |r| <= |s|
  {
    if s == "" then "" else if s[0] == ',' then NoCommas(s[1..]) else [s[0]] + NoCommas(s[1..])
  }

  /** A number may be written with commas after its first digit; after its 20th nothing more is
      taken for a part of it. */
  predicate IsNumber(s: string) {
    && s != "" && IsDigit(s[0]) && (forall c :: c in s ==> IsDigit(c) || c == ',')
    && (|NoCommas(s)| < MAX_DIGITS || (|NoCommas(s)| == MAX_DIGITS && IsDigit(s[|s| - 1])))
  }

  lemma {:induction false} NoCommasIn(s: string)
    requires forall c :: c in s ==> IsDigit(c) || c == ','
    ensures forall c :: c in NoCommas(s) ==> IsDigit(c)
    ensures ',' !in s ==> NoCommas(s) == s
    ensures s != "" && IsDigit(s[0]) ==> NoCommas(s) != ""
  {
    if s != "" {
      assert s[0] in s;
      NoCommasIn(s[1..]);
      assert s == [s[0]] + s[1..];
    }
  }

  lemma LiteralIsNumber(s: string)
    requires IsLiteral(s)
    ensures IsNumber(s) && NoCommas(s) == s
  {
    NoCommasIn(s);
    assert s[0] in s && s[|s| - 1] in s;
  }

  /** The value, or None when some divisor is zero. */
  function Eval(e: Expr): Option<int> {
    match e
    case Lit(s) => Some(Atol(s))
    case Sign(minus, x) =>
      (match Eval(x)
       case None => None
       case Some(v) => Some(if minus then -v else v))
    case Bin(op, l, r) =>
      match (Eval(l), Eval(r))
      case (Some(a), Some(b)) => Arith(op, a, b)
      case _ => None
  }

  // ----- written expressions -----

  /** An expression as it is written: the blanks before each token, and the parentheses. */
  datatype Written =
    | Num(gap: string, number: string)
    | Signed(gap: string, minus: bool, x: Written)
    | Two(l: Written, gap: string, op: int, r: Written)
    | Paren(gap: string, x: Written, close: string)

  /** 1: sums; 2: products; 3: signed operands; 4: literals and parentheses. */
  function Level(w: Written): nat {
    match w
    case Num(_, _) => 4
    case Signed(_, _, _) => 3
    case Two(_, _, op, _) => if op <= SUBTRACT then 1 else 2
    case Paren(_, _, _) => 4
  }

  /** Gaps are blank, and every operand that binds less tightly than its place asks for is in
      parentheses; others may be as well. */
  predicate Proper(w: Written) {
    match w
    case Num(gap, s) => Blank(gap) && IsNumber(s)
    case Signed(gap, _, x) => Blank(gap) && Proper(x) && Level(x) == 4
    case Two(l, gap, op, r) =>
      && Blank(gap) && ADD <= op <= MODULO && Proper(l) && Proper(r)
      && Level(l) >= Level(w) && Level(r) > Level(w)
    case Paren(gap, x, close) => Blank(gap) && Blank(close) && Proper(x)
  }

  /** What is written. */
  function Tree(w: Written): Expr {
    match w
    case Num(_, s) => Lit(NoCommas(s))
    case Signed(_, minus, x) => Sign(minus, Tree(x))
    case Two(l, _, op, r) => Bin(op, Tree(l), Tree(r))
    case Paren(_, x, _) => Tree(x)
  }

  function Meaning(w: Written): Option<int> {
    Eval(Tree(w))
  }

  function OpText(op: int): string {
    if op == ADD then "+"
    else if op == SUBTRACT then "-"
    else if op == MULTIPLY then "*"
    else if op == DIVIDE then "/"
    else if op == MODULO then "%"
    else if op == OPEN_PAREN then "("
    else ")"
  }

  function SignOp(minus: bool): int {
    if minus then SUBTRACT else ADD
  }

  /** How many parentheses are closed at the very end. */
  function Closings(w: Written): nat {
    match w
    case Num(_, _) => 0
    case Signed(_, _, x) => Closings(x)
    case Two(_, _, _, r) => Closings(r)
    case Paren(_, x, _) => Closings(x) + 1
  }

  /** The text of w without the last m of the parentheses closed at its end. */
  function Text(w: Written, m: nat): string
    requires m <= Closings(w)
  {
    match w
    case Num(gap, s) => gap + s
    case Signed(gap, minus, x) => gap + OpText(SignOp(minus)) + Text(x, m)
    case Two(l, gap, op, r) => Text(l, 0) + (gap + OpText(op) + Text(r, m))
    case Paren(gap, x, close) =>
      gap + OpText(OPEN_PAREN) + (if m == 0 then Text(x, 0) + (close + OpText(CLOSE_PAREN)) else Text(x, m - 1))
  }

  /** The operator code in place when w has been read, d being the one before. */
  function LastCode(w: Written, d: int): int {
    match w
    case Num(_, _) => d
    case Signed(_, minus, x) => LastCode(x, SignOp(minus))
    case Two(_, _, op, r) => LastCode(r, op)
    case Paren(_, _, _) => CLOSE_PAREN
  }

  lemma {:induction false} EndsClosed(w: Written, d: int)
    requires Proper(w) && d != CLOSE_PAREN
    ensures LastCode(w, d) == CLOSE_PAREN <==> Closings(w) > 0
  {
    match w
    case Num(_, _) =>
    case Signed(_, minus, x) => EndsClosed(x, SignOp(minus));
    case Two(_, _, op, r) => EndsClosed(r, op);
    case Paren(_, _, _) =>
  }

  /** Every tree can be written: parentheses only where they are needed, the same blanks before
      every token. */
  function Minimal(e: Expr, k: nat, gap: string): Written
    decreases e, 4 - k
  {
    match e
    case Lit(s) => Num(gap, s)
    case Sign(minus, x) =>
      if 3 < k then Paren(gap, Signed(gap, minus, Minimal(x, 4, gap)), gap) else Signed(gap, minus, Minimal(x, 4, gap))
    case Bin(op, l, r) =>
      var level := if op <= SUBTRACT then 1 else 2;
      var w := Two(Minimal(l, level, gap), gap, op, Minimal(r, level + 1, gap));
      if level < k then Paren(gap, w, gap) else w
  }

  lemma {:induction false} EveryTreeCanBeWritten(e: Expr, k: nat, gap: string)
    requires WellFormed(e) && Blank(gap) && k <= 4
    ensures var w := Minimal(e, k, gap); Proper(w) && Level(w) >= k && Tree(w) == e
  {
    match e
    case Lit(s) => LiteralIsNumber(s);
    case Sign(_, x) => EveryTreeCanBeWritten(x, 4, gap);
    case Bin(op, l, r) =>
      EveryTreeCanBeWritten(l, if op <= SUBTRACT then 1 else 2, gap);
      EveryTreeCanBeWritten(r, if op <= SUBTRACT then 2 else 3, gap);
  }

  // ----- tokens -----

  /** The parser about to read s, with d the last operator code. */
  function At(s: string, d: int): PState {
    GetTok(PState(s, "", NoTok, d))
  }

  /** After an operand comes nothing, or an operator other than '('. */
  predicate Follows(rest: string) {
    var t := SkipSpace(rest);
    t == "" || (OpCode(t[0]) >= 0 && t[0] != '(')
  }

  /** What follows a product: not another factor. */
  predicate FollowsTerm(rest: string) {
    var t := SkipSpace(rest);
    Follows(rest) && (t == "" || OpCode(t[0]) !in {MULTIPLY, DIVIDE, MODULO})
  }

  lemma SkipToOp(gap: string, op: int, rest: string)
    requires Blank(gap) && ADD <= op <= CLOSE_PAREN
    ensures SkipSpace(gap + OpText(op) + rest) == OpText(op) + rest
  {
    var s := OpText(op) + rest;
    SkipBlank(gap, s);
    assert gap + OpText(op) + rest == gap + s;
    assert SkipSpace(s) == s;
  }

  lemma AtOp(gap: string, op: int, rest: string, d: int)
    requires Blank(gap) && ADD <= op <= CLOSE_PAREN
    ensures At(gap + OpText(op) + rest, d) == PState(rest, OpText(op), Delimiter, op)
  {
    var s := OpText(op) + rest;
    SkipToOp(gap, op, rest);
    assert s[1..] == rest;
    assert [s[0]] == OpText(op);
  }

  lemma OpFollows(gap: string, op: int, rest: string)
    requires Blank(gap) && ADD <= op <= CLOSE_PAREN && op != OPEN_PAREN
    ensures Follows(gap + OpText(op) + rest)
    ensures op !in {MULTIPLY, DIVIDE, MODULO} ==> FollowsTerm(gap + OpText(op) + rest)
  {
    SkipToOp(gap, op, rest);
  }

  lemma {:induction false} DigitsTaken(s: string, rest: string, n: nat)
    requires forall c :: c in s ==> IsDigit(c) || c == ','
    requires |NoCommas(s)| < n || (|NoCommas(s)| == n && (s == "" || IsDigit(s[|s| - 1])))
    requires |NoCommas(s)| == n || rest == "" || (!IsDigit(rest[0]) && rest[0] != ',')
    ensures TakeDigits(s + rest, n) == (NoCommas(s), rest)
    decreases |s|
  {
    if s == "" {
      assert s + rest == rest;
    } else {
      assert s[0] in s;
      assert (s + rest)[1..] == s[1..] + rest;
      if s[0] == ',' {
        if IsDigit(s[|s| - 1]) {
          LastIsDigit(s);
        }
        DigitsTaken(s[1..], rest, n);
      } else {
        DigitsTaken(s[1..], rest, n - 1);
      }
    }
  }

  lemma {:induction false} LastIsDigit(s: string)
    requires s != "" && IsDigit(s[|s| - 1])
    ensures NoCommas(s) != ""
  {
    if |s| > 1 {
      LastIsDigit(s[1..]);
    }
  }

  lemma AtLit(gap: string, s: string, rest: string, d: int)
    requires Blank(gap) && IsNumber(s) && Follows(rest)
    ensures At(gap + s + rest, d) == PState(rest, NoCommas(s), Number, d) && NoCommas(s) != ""
  {
    SkipBlank(gap, s + rest);
    assert gap + s + rest == gap + (s + rest);
    assert SkipSpace(s + rest) == s + rest;
    NoCommasIn(s);
    DigitsTaken(s, rest, MAX_DIGITS);
  }

  lemma NextTok(p: PState)
    ensures GetTok(p) == At(p.line, p.delim)
  {
  }

  lemma BlankEnd(tail: string, d: int)
    requires Blank(tail)
    ensures At(tail, d) == PState("", "", NoTok, d) && FollowsTerm(tail)
  {
    SkipBlank(tail, "");
    assert tail + "" == tail;
  }

  lemma OperandOk(v: int, rest: string, d: int)
    requires Follows(rest)
    ensures CheckSyntax(v, At(rest, d)) == Ok(v, At(rest, d))
  {
  }

  /** A sum is not continued at the end, nor a product by what may follow a term. */
  lemma TermEnds(v: int, rest: string, d: int, hold: int)
    requires FollowsTerm(rest)
    ensures Loop2(v, At(rest, d), hold) == Ok(v, At(rest, d))
  {
  }

  // ----- the levels parse what is written -----

  /** A level has read exactly w. */
  predicate Parsed(res: Parse, w: Written, rest: string, d: int) {
    match Meaning(w)
    case None => res == Fail(DivideByZero)
    case Some(v) => res == Ok(v, At(rest, LastCode(w, d)))
  }

  /** A level has read w and is in its loop, about to look for more of the same. */
  predicate Reached1(res: Parse, w: Written, rest: string, d: int, hold: int) {
    match Meaning(w)
    case None => res == Fail(DivideByZero)
    case Some(v) => res == Loop1(v, At(rest, LastCode(w, d)), hold)
  }

  predicate Reached2(res: Parse, w: Written, rest: string, d: int, hold: int) {
    match Meaning(w)
    case None => res == Fail(DivideByZero)
    case Some(v) => res == Loop2(v, At(rest, LastCode(w, d)), hold)
  }

  lemma TextParen(w: Written, rest: string)
    requires w.Paren?
    ensures Text(w, 0) + rest == w.gap + OpText(OPEN_PAREN) + (Text(w.x, 0) + (w.close + OpText(CLOSE_PAREN) + rest))
  {
    Regroup(Text(w.x, 0), w.close + OpText(CLOSE_PAREN), rest);
    Regroup(w.gap + OpText(OPEN_PAREN), Text(w.x, 0) + (w.close + OpText(CLOSE_PAREN)), rest);
  }

  lemma TextCut(w: Written, m: nat, rest: string)
    requires w.Paren? && 0 < m <= Closings(w)
    ensures Text(w, m) + rest == w.gap + OpText(OPEN_PAREN) + (Text(w.x, m - 1) + rest)
  {
    Regroup(w.gap + OpText(OPEN_PAREN), Text(w.x, m - 1), rest);
  }

  lemma TextSigned(w: Written, m: nat, rest: string)
    requires w.Signed? && m <= Closings(w)
    ensures Text(w, m) + rest == w.gap + OpText(SignOp(w.minus)) + (Text(w.x, m) + rest)
  {
    Regroup(w.gap + OpText(SignOp(w.minus)), Text(w.x, m), rest);
  }

  lemma TextTwo(w: Written, m: nat, rest: string)
    requires w.Two? && m <= Closings(w)
    ensures Text(w, m) + rest == Text(w.l, 0) + (w.gap + OpText(w.op) + (Text(w.r, m) + rest))
  {
    Regroup(w.gap + OpText(w.op), Text(w.r, m), rest);
    Regroup(Text(w.l, 0), w.gap + OpText(w.op) + Text(w.r, m), rest);
  }

  lemma {:induction false} Reads4(w: Written, rest: string, d: int, r: int)
    requires Proper(w) && Level(w) == 4 && Follows(rest)
    ensures Parsed(Level4(At(Text(w, 0) + rest, d), r), w, rest, d)
    decreases w, 0
  {
    if w.Num? {
      AtLit(w.gap, w.number, rest, d);
      NextTok(PState(rest, NoCommas(w.number), Number, d));
      OperandOk(Atol(NoCommas(w.number)), rest, d);
    } else {
      var closing := w.close + OpText(CLOSE_PAREN) + rest;
      TextParen(w, rest);
      AtOp(w.gap, OPEN_PAREN, Text(w.x, 0) + closing, d);
      NextTok(PState(Text(w.x, 0) + closing, OpText(OPEN_PAREN), Delimiter, OPEN_PAREN));
      OpFollows(w.close, CLOSE_PAREN, rest);
      var _ := Reads1(w.x, closing, OPEN_PAREN, r);
      AtOp(w.close, CLOSE_PAREN, rest, LastCode(w.x, OPEN_PAREN));
      NextTok(At(closing, LastCode(w.x, OPEN_PAREN)));
      if Meaning(w).Some? {
        OperandOk(Meaning(w).value, rest, CLOSE_PAREN);
      }
    }
  }

  /** An operand that is not signed starts with a digit or a parenthesis. */
  lemma FirstToken(w: Written, m: nat, rest: string, d: int)
    requires Proper(w) && Level(w) == 4 && m <= Closings(w) && Follows(rest)
    ensures !IsDelim(At(Text(w, m) + rest, d), {ADD, SUBTRACT})
  {
    if w.Num? {
      AtLit(w.gap, w.number, rest, d);
    } else if m == 0 {
      TextParen(w, rest);
      AtOp(w.gap, OPEN_PAREN, Text(w.x, 0) + (w.close + OpText(CLOSE_PAREN) + rest), d);
    } else {
      TextCut(w, m, rest);
      AtOp(w.gap, OPEN_PAREN, Text(w.x, m - 1) + rest, d);
    }
  }

  lemma {:induction false} Reads3(w: Written, rest: string, d: int, r: int)
    requires Proper(w) && Level(w) >= 3 && Follows(rest)
    ensures Parsed(Level3(At(Text(w, 0) + rest, d), r), w, rest, d)
    decreases w, 1
  {
    if w.Signed? {
      var op := SignOp(w.minus);
      TextSigned(w, 0, rest);
      AtOp(w.gap, op, Text(w.x, 0) + rest, d);
      NextTok(PState(Text(w.x, 0) + rest, OpText(op), Delimiter, op));
      Reads4(w.x, rest, op, r);
    } else {
      Reads4(w, rest, d, r);
      FirstToken(w, 0, rest, d);
    }
  }

  lemma {:induction false} Reads2(w: Written, rest: string, d: int, r: int) returns (hold: int)
    requires Proper(w) && Level(w) >= 2 && Follows(rest)
    ensures Reached2(Level2(At(Text(w, 0) + rest, d), r), w, rest, d, hold)
    decreases w, 2
  {
    if Level(w) == 2 {
      var more := w.gap + OpText(w.op) + (Text(w.r, 0) + rest);
      TextTwo(w, 0, rest);
      OpFollows(w.gap, w.op, Text(w.r, 0) + rest);
      var hold2 := Reads2(w.l, more, d, r);
      AtOp(w.gap, w.op, Text(w.r, 0) + rest, LastCode(w.l, d));
      NextTok(At(more, LastCode(w.l, d)));
      Reads3(w.r, rest, w.op, hold2);
      hold := if Meaning(w.r).Some? then Meaning(w.r).value else 0;
    } else {
      Reads3(w, rest, d, r);
      hold := 0;
    }
  }

  lemma {:induction false} Reads1(w: Written, rest: string, d: int, r: int) returns (hold: int)
    requires Proper(w) && FollowsTerm(rest)
    ensures Reached1(Level1(At(Text(w, 0) + rest, d), r), w, rest, d, hold)
    decreases w, 3
  {
    if Level(w) == 1 {
      var more := w.gap + OpText(w.op) + (Text(w.r, 0) + rest);
      TextTwo(w, 0, rest);
      OpFollows(w.gap, w.op, Text(w.r, 0) + rest);
      var hold2 := Reads1(w.l, more, d, r);
      AtOp(w.gap, w.op, Text(w.r, 0) + rest, LastCode(w.l, d));
      NextTok(At(more, LastCode(w.l, d)));
      var hold3 := Reads2(w.r, rest, w.op, hold2);
      hold := if Meaning(w.r).Some? then Meaning(w.r).value else 0;
      TermEnds(hold, rest, LastCode(w.r, w.op), hold3);
    } else {
      var hold2 := Reads2(w, rest, d, r);
      hold := 0;
      if Meaning(w).Some? {
        TermEnds(Meaning(w).value, rest, LastCode(w, d), hold2);
      }
    }
  }

  function AnswerOf(m: Option<int>): Answer {
    match m
    case Some(v) => Value(v)
    case None => Error(DivideByZero)
  }

  /** The evaluator computes every written expression, whatever blanks and needless parentheses it
      has: the value of the tree, or the divide-by-zero error exactly when some divisor evaluates to
      zero. */
  lemma EvaluatesText(w: Written, tail: string, delim: int)
    requires Proper(w) && Blank(tail)
    ensures Evaluate(Text(w, 0) + tail, delim) == AnswerOf(Meaning(w))
  {
    BlankEnd(tail, LastCode(w, delim));
    var _ := Reads1(w, tail, delim, 0);
    StartsWithToken(w, 0, tail, delim);
  }

  lemma {:induction false} StartsWithToken(w: Written, m: nat, rest: string, d: int)
    requires Proper(w) && Follows(rest) && m <= Closings(w)
    ensures At(Text(w, m) + rest, d).token != ""
  {
    match w
    case Num(gap, s) =>
      AtLit(gap, s, rest, d);
    case Signed(gap, minus, x) =>
      TextSigned(w, m, rest);
      AtOp(gap, SignOp(minus), Text(x, m) + rest, d);
    case Two(l, gap, op, r) =>
      TextTwo(w, m, rest);
      OpFollows(gap, op, Text(r, m) + rest);
      StartsWithToken(l, 0, gap + OpText(op) + (Text(r, m) + rest), d);
    case Paren(gap, x, close) =>
      if m == 0 {
        TextParen(w, rest);
        AtOp(gap, OPEN_PAREN, Text(x, 0) + (close + OpText(CLOSE_PAREN) + rest), d);
      } else {
        TextCut(w, m, rest);
        AtOp(gap, OPEN_PAREN, Text(x, m - 1) + rest, d);
      }
  }

  /** A text with a closing parenthesis too many is evaluated up to it, and what stands behind it is
      not looked at. */
  lemma SurplusPasses(w: Written, gap: string, junk: string, delim: int)
    requires Proper(w) && Blank(gap)
    ensures Evaluate(Text(w, 0) + (gap + OpText(CLOSE_PAREN) + junk), delim) == AnswerOf(Meaning(w))
  {
    var rest := gap + OpText(CLOSE_PAREN) + junk;
    OpFollows(gap, CLOSE_PAREN, junk);
    AtOp(gap, CLOSE_PAREN, junk, LastCode(w, delim));
    var _ := Reads1(w, rest, delim, 0);
    StartsWithToken(w, 0, rest, delim);
  }

  // ----- texts that lack closing parentheses -----

  /** With every closing parenthesis at the end missing: whether all divisions before the end of
      the text can be done. */
  predicate EndReached(w: Written) {
    match w
    case Num(_, _) => true
    case Signed(_, _, x) => EndReached(x)
    case Two(l, _, _, r) => Meaning(l).Some? && EndReached(r)
    case Paren(_, x, _) => if Closings(x) == 0 then Meaning(x).Some? else EndReached(x)
  }

  /** A level has read w without the last m of its closing parentheses, up to the end of the text:
      as if they were there when a parenthesis is still closed at the end, an error when none is. */
  predicate CutParsed(res: Parse, w: Written, m: nat) {
    if m < Closings(w) then
      match Meaning(w)
      case None => res == Fail(DivideByZero)
      case Some(v) => res == Ok(v, PState("", "", NoTok, CLOSE_PAREN))
    else
      res == Fail(if EndReached(w) then UnbalancedParens else DivideByZero)
  }

  lemma EndStops(v: int, hold: int)
    ensures var end := PState("", "", NoTok, CLOSE_PAREN); Loop1(v, end, hold) == Loop2(v, end, hold) == Ok(v, end)
  {
  }

  lemma {:induction false} Cut4(w: Written, m: nat, tail: string, d: int, r: int)
    requires Proper(w) && Level(w) == 4 && 0 < m <= Closings(w) && Blank(tail)
    ensures CutParsed(Level4(At(Text(w, m) + tail, d), r), w, m)
    decreases w, 0
  {
    TextCut(w, m, tail);
    AtOp(w.gap, OPEN_PAREN, Text(w.x, m - 1) + tail, d);
    NextTok(PState(Text(w.x, m - 1) + tail, OpText(OPEN_PAREN), Delimiter, OPEN_PAREN));
    BlankEnd(tail, LastCode(w.x, OPEN_PAREN));
    BlankEnd("", CLOSE_PAREN);
    NextTok(PState("", "", NoTok, CLOSE_PAREN));
    if m == 1 {
      var _ := Reads1(w.x, tail, OPEN_PAREN, r);
      EndsClosed(w.x, OPEN_PAREN);
    } else {
      Cut1(w.x, m - 1, tail, OPEN_PAREN, r);
    }
  }

  lemma {:induction false} Cut3(w: Written, m: nat, tail: string, d: int, r: int)
    requires Proper(w) && Level(w) >= 3 && 0 < m <= Closings(w) && Blank(tail)
    ensures CutParsed(Level3(At(Text(w, m) + tail, d), r), w, m)
    decreases w, 1
  {
    if w.Signed? {
      var op := SignOp(w.minus);
      TextSigned(w, m, tail);
      AtOp(w.gap, op, Text(w.x, m) + tail, d);
      NextTok(PState(Text(w.x, m) + tail, OpText(op), Delimiter, op));
      Cut4(w.x, m, tail, op, r);
    } else {
      Cut4(w, m, tail, d, r);
      BlankEnd(tail, d);
      FirstToken(w, m, tail, d);
    }
  }

  lemma {:induction false} Cut2(w: Written, m: nat, tail: string, d: int, r: int)
    requires Proper(w) && Level(w) >= 2 && 0 < m <= Closings(w) && Blank(tail)
    ensures CutParsed(Level2(At(Text(w, m) + tail, d), r), w, m)
    decreases w, 2
  {
    if Level(w) == 2 {
      var more := w.gap + OpText(w.op) + (Text(w.r, m) + tail);
      TextTwo(w, m, tail);
      OpFollows(w.gap, w.op, Text(w.r, m) + tail);
      var hold := Reads2(w.l, more, d, r);
      AtOp(w.gap, w.op, Text(w.r, m) + tail, LastCode(w.l, d));
      NextTok(At(more, LastCode(w.l, d)));
      Cut3(w.r, m, tail, w.op, hold);
      if Meaning(w).Some? {
        EndStops(Meaning(w).value, Meaning(w.r).value);
      }
    } else {
      Cut3(w, m, tail, d, r);
      if Meaning(w).Some? {
        EndStops(Meaning(w).value, 0);
      }
    }
  }

  lemma {:induction false} Cut1(w: Written, m: nat, tail: string, d: int, r: int)
    requires Proper(w) && 0 < m <= Closings(w) && Blank(tail)
    ensures CutParsed(Level1(At(Text(w, m) + tail, d), r), w, m)
    decreases w, 3
  {
    if Level(w) == 1 {
      var more := w.gap + OpText(w.op) + (Text(w.r, m) + tail);
      TextTwo(w, m, tail);
      OpFollows(w.gap, w.op, Text(w.r, m) + tail);
      var hold := Reads1(w.l, more, d, r);
      AtOp(w.gap, w.op, Text(w.r, m) + tail, LastCode(w.l, d));
      NextTok(At(more, LastCode(w.l, d)));
      Cut2(w.r, m, tail, w.op, hold);
      if Meaning(w).Some? {
        EndStops(Meaning(w).value, Meaning(w.r).value);
      }
    } else {
      Cut2(w, m, tail, d, r);
      if Meaning(w).Some? {
        EndStops(Meaning(w).value, 0);
      }
    }
  }

  /** Of the parentheses closed at the end of a text the last m are missing.  As long as the text
      still ends in a closing one, its code stays in place for all that are missing, and the text is
      evaluated as if they were there; when none is left the text is rejected. */
  lemma UnbalancedPasses(w: Written, m: nat, tail: string, delim: int)
    requires Proper(w) && 0 < m <= Closings(w) && Blank(tail)
    ensures m < Closings(w) ==> Evaluate(Text(w, m) + tail, delim) == AnswerOf(Meaning(w))
    ensures m == Closings(w) ==>
      Evaluate(Text(w, m) + tail, delim) == Error(if EndReached(w) then UnbalancedParens else DivideByZero)
    ensures Meaning(w).Some? ==>
      (Evaluate(Text(w, m) + tail, delim) == Error(UnbalancedParens) <==> m == Closings(w))
  {
    BlankEnd(tail, delim);
    Cut1(w, m, tail, delim, 0);
    StartsWithToken(w, m, tail, delim);
    if Meaning(w).Some? {
      MeaningReaches(w);
    }
  }

  lemma {:induction false} MeaningReaches(w: Written)
    requires Meaning(w).Some?
    ensures EndReached(w)
  {
    match w
    case Num(_, _) =>
    case Signed(_, _, x) => MeaningReaches(x);
    case Two(_, _, _, r) => MeaningReaches(r);
    case Paren(_, x, _) => if Closings(x) > 0 { MeaningReaches(x); }
  }

  /** The shortest such text. */
  lemma OneOfTwoIsEnough(delim: int)
    ensures Evaluate("((1)", delim) == Value(1)
  {
    var w := Paren("", Paren("", Num("", "1"), ""), "");
    UnbalancedPasses(w, 1, "", delim);
    assert Text(w, 1) + "" == "((1)";
    assert Atol("1") == 1;
  }
}
