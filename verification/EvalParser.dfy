/** The expression evaluator (BATPROC/EVAL.C): a recursive-descent parser whose levels share the
    rest of the line, the current token, and the code of the last operator seen. */
module EvalParser {
  import opened CText
  import opened Options

  const ADD := 0
  const SUBTRACT := 1
  const MULTIPLY := 2
  const DIVIDE := 3
  const MODULO := 4
  const OPEN_PAREN := 5
  const CLOSE_PAREN := 6
  const MAX_DIGITS: nat := 20

  datatype Tok = NoTok | Number | Delimiter

  datatype Error = DivideByZero | UnbalancedParens | BadSyntax | NoExpression

  /** The statics `line`, `token`, `tok_type` and `delim_type`. */
  datatype PState = PState(line: string, token: string, tok: Tok, delim: int)

  datatype Parse = Ok(value: int, p: PState) | Fail(error: Error)

  // ----- tokens -----

  function OpCode(c: char): int {
    match c
    case '+' => ADD
    case '-' => SUBTRACT
    case '*' => MULTIPLY
    case '/' => DIVIDE
    case '%' => MODULO
    case '(' => OPEN_PAREN
    case ')' => CLOSE_PAREN
    case _ => -1
  }

  /** At most n digits from the front, commas passed over, and the rest of the string. */
  function TakeDigits(s: string, n: nat): (r: (string, string))
    ensures |r.0| <= n && |r.1| <= |s|
    ensures n > 0 && s != "" && IsDigit(s[0]) ==> |r.1| < |s|
  {
    if n == 0 || s == "" then ("", s)
    else if IsDigit(s[0]) then var (t, rest) := TakeDigits(s[1..], n - 1); ([s[0]] + t, rest)
    else if s[0] == ',' then TakeDigits(s[1..], n)
    else ("", s)
  }

  function GetTok(p: PState): (q: PState)
    ensures Left(q) <= 2 * |p.line|
    ensures p.tok != NoTok ==> Left(q) < Left(p)
  {
    var s := SkipSpace(p.line);
    if s != "" && IsDigit(s[0]) then
      var (t, rest) := TakeDigits(s, MAX_DIGITS);
      PState(rest, t, Number, p.delim)
    else if s != "" && OpCode(s[0]) >= 0 then PState(s[1..], [s[0]], Delimiter, OpCode(s[0]))
    else PState(s, "", NoTok, p.delim)
  }

  /** What is still to be parsed: the rest of the line and the current token. */
  function Left(p: PState): nat {
    2 * |p.line| + if p.tok == NoTok then 0 else 1
  }

  // ----- arithmetic -----

  /** Division truncates toward zero, and the remainder has the sign of the dividend. */
  function TruncDiv(a: int, b: int): int
    requires b != 0
  {
    if (a >= 0) == (b > 0) then Abs(a) / Abs(b) else -(Abs(a) / Abs(b))
  }

  function TruncMod(a: int, b: int): int
    requires b != 0
  {
    if a >= 0 then Abs(a) % Abs(b) else -(Abs(a) % Abs(b))
  }

  function Abs(a: int): nat {
    if a < 0 then -a else a
  }

  function Arith(op: int, a: int, b: int): Option<int> {
    if op == ADD then Some(a + b)
    else if op == SUBTRACT then Some(a - b)
    else if op == MULTIPLY then Some(a * b)
    else if b == 0 then None
    else if op == DIVIDE then Some(TruncDiv(a, b))
    else Some(TruncMod(a, b))
  }

  /** `atol` on a string of digits. */
  function Atol(s: string): nat {
    if s == "" || !IsDigit(s[|s| - 1]) then 0
    else 10 * Atol(s[..|s| - 1]) + (s[|s| - 1] as nat - '0' as nat)
  }

  predicate IsDelim(p: PState, codes: set<int>) {
    p.tok == Delimiter && p.delim in codes
  }

  // ----- the levels -----
  // Each level takes the value its result variable holds on entry, which it returns when there
  // is nothing to parse.

  function Level1(p: PState, r: int): (res: Parse)
    ensures res.Ok? ==> Left(res.p) <= Left(p)
    decreases Left(p), 6
  {
    match Level2(p, r)
    case Fail(e) => Fail(e)
    case Ok(v, q) => Loop1(v, q, 0)
  }

  function Loop1(v: int, p: PState, hold: int): (res: Parse)
    ensures res.Ok? ==> Left(res.p) <= Left(p)
    decreases Left(p), 5
  {
    if IsDelim(p, {ADD, SUBTRACT}) then
      match Level2(GetTok(p), hold)
      case Fail(e) => Fail(e)
      case Ok(h, q) =>
        match Arith(p.delim, v, h)
        case None => Fail(DivideByZero)
        case Some(w) => Loop1(w, q, h)
    else Ok(v, p)
  }

  function Level2(p: PState, r: int): (res: Parse)
    ensures res.Ok? ==> Left(res.p) <= Left(p)
    decreases Left(p), 4
  {
    match Level3(p, r)
    case Fail(e) => Fail(e)
    case Ok(v, q) => Loop2(v, q, 0)
  }

  function Loop2(v: int, p: PState, hold: int): (res: Parse)
    ensures res.Ok? ==> Left(res.p) <= Left(p)
    decreases Left(p), 3
  {
    if IsDelim(p, {MULTIPLY, DIVIDE, MODULO}) then
      match Level3(GetTok(p), hold)
      case Fail(e) => Fail(e)
      case Ok(h, q) =>
        match Arith(p.delim, v, h)
        case None => Fail(DivideByZero)
        case Some(w) => Loop2(w, q, h)
    else Ok(v, p)
  }

  function Level3(p: PState, r: int): (res: Parse)
    ensures res.Ok? ==> Left(res.p) <= Left(p)
    decreases Left(p), 2
  {
    if IsDelim(p, {ADD, SUBTRACT}) then
      match Level4(GetTok(p), r)
      case Fail(e) => Fail(e)
      case Ok(v, q) => Ok(if p.delim == SUBTRACT then -v else v, q)
    else Level4(p, r)
  }

  function Level4(p: PState, r: int): (res: Parse)
    ensures res.Ok? ==> Left(res.p) <= Left(p)
    decreases Left(p), 1
  {
    if IsDelim(p, {OPEN_PAREN}) then
      match Level1(GetTok(p), r)
      case Fail(e) => Fail(e)
      case Ok(v, q) => if q.delim != CLOSE_PAREN then Fail(UnbalancedParens) else CheckSyntax(v, GetTok(q))
    else if p.tok == Number then CheckSyntax(Atol(p.token), GetTok(p))
    else CheckSyntax(r, p)
  }

  /** What follows an operand must be a token, or nothing. */
  function CheckSyntax(v: int, p: PState): Parse {
    if p.tok == NoTok && p.line != "" then Fail(BadSyntax) else Ok(v, p)
  }

  datatype Answer = Value(value: int) | Error(error: Error)

  /** `evaluate`, given the operator code an earlier evaluation left behind. */
  function Evaluate(expr: string, delim: int): Answer {
    if expr == "" then Value(0)
    else
      var p := GetTok(PState(expr, "", NoTok, delim));
      if p.token == "" then Error(NoExpression)
      else
        match Level1(p, 0)
        case Fail(e) => Error(e)
        case Ok(v, _) => Value(v)
  }
}
