/** The evaluator with its shared state (BATPROC/EVAL.C), level by level as in the parser. */
module Evaluator {
  import opened CText
  import opened EvalParser
  import opened Options

  /** The result of a level: its error, if it jumped out. */
  datatype Outcome = Fine | Jumped(error: EvalParser.Error)

  class Parser {
    var line: string
    var token: string
    var tokType: Tok
    var delimType: int

    function State(): PState
      reads this
    {
      PState(line, token, tokType, delimType)
    }

    /** A level ended as the specification says: with this value and state, or this error. */
    ghost predicate Ended(spec: Parse, value: int, out: Outcome)
      reads this
    {
      match spec
      case Ok(v, p) => out == Fine && value == v && State() == p
      case Fail(e) => out == Jumped(e)
    }

    constructor ()
      ensures line == "" && token == "" && tokType == NoTok
    {
      line, token, tokType, delimType := "", "", NoTok, ADD;
    }

    /** `get_token`: the next number or operator of the line. */
    method GetToken()
      modifies this
      ensures State() == GetTok(old(State()))
    {
      token, tokType := "", NoTok;
      while line != "" && IsSpace(line[0])
        invariant SkipSpace(line) == SkipSpace(old(line))
        invariant token == "" && tokType == NoTok && delimType == old(delimType)
        decreases |line|
      {
        line := line[1..];
      }
      if line != "" && IsDigit(line[0]) {
        tokType := Number;
        ghost var s := line;
        while |token| < MAX_DIGITS && line != "" && (IsDigit(line[0]) || line[0] == ',')
          invariant |token| <= MAX_DIGITS && tokType == Number && delimType == old(delimType)
          invariant token + TakeDigits(line, MAX_DIGITS - |token|).0 == TakeDigits(s, MAX_DIGITS).0
          invariant TakeDigits(line, MAX_DIGITS - |token|).1 == TakeDigits(s, MAX_DIGITS).1
          decreases |line|
        {
          if IsDigit(line[0]) {
            token := token + [line[0]];
          }
          line := line[1..];
        }
      } else if line != "" && OpCode(line[0]) >= 0 {
        delimType := OpCode(line[0]);
        token := [line[0]];
        tokType := Delimiter;
        line := line[1..];
      }
    }

    method Sum(result: int) returns (value: int, out: Outcome)
      modifies this
      ensures Ended(Level1(old(State()), result), value, out)
      decreases Left(State()), 6
    {
      ghost var p0 := State();
      value, out := Product(result);
      if out != Fine { return; }
      ghost var spec := Level1(p0, result);
      var hold := 0;
      while tokType == Delimiter && delimType in {ADD, SUBTRACT}
        invariant out == Fine && Loop1(value, State(), hold) == spec && Left(State()) <= Left(p0)
        decreases Left(State())
      {
        var op := delimType;
        GetToken();
        hold, out := Product(hold);
        if out != Fine { return; }
        value, out := Apply(op, value, hold);
        if out != Fine { return; }
      }
    }

    method Product(result: int) returns (value: int, out: Outcome)
      modifies this
      ensures Ended(Level2(old(State()), result), value, out)
      decreases Left(State()), 4
    {
      ghost var p0 := State();
      value, out := Signed(result);
      if out != Fine { return; }
      ghost var spec := Level2(p0, result);
      var hold := 0;
      while tokType == Delimiter && delimType in {MULTIPLY, DIVIDE, MODULO}
        invariant out == Fine && Loop2(value, State(), hold) == spec && Left(State()) <= Left(p0)
        decreases Left(State())
      {
        var op := delimType;
        GetToken();
        hold, out := Signed(hold);
        if out != Fine { return; }
        value, out := Apply(op, value, hold);
        if out != Fine { return; }
      }
    }

    method Signed(result: int) returns (value: int, out: Outcome)
      modifies this
      ensures Ended(Level3(old(State()), result), value, out)
      decreases Left(State()), 2
    {
      var isUnary := -1;
      if tokType == Delimiter && delimType in {ADD, SUBTRACT} {
        isUnary := delimType;
        GetToken();
      }
      value, out := Operand(result);
      if out == Fine && isUnary == SUBTRACT {
        value := -value;
      }
    }

    method Operand(result: int) returns (value: int, out: Outcome)
      modifies this
      ensures Ended(Level4(old(State()), result), value, out)
      decreases Left(State()), 1
    {
      value, out := result, Fine;
      if tokType == Delimiter && delimType == OPEN_PAREN {
        GetToken();
        value, out := Sum(result);
        if out != Fine { return; }
        if delimType != CLOSE_PAREN {
          out := Jumped(UnbalancedParens);
          return;
        }
        GetToken();
      } else if tokType == Number {
        value := Atol(token);
        GetToken();
      }
      if tokType == NoTok && line != "" {
        out := Jumped(BadSyntax);
      }
    }

    /** `arith`. */
    method Apply(op: int, r: int, h: int) returns (value: int, out: Outcome)
      ensures out == (if Arith(op, r, h) == None then Jumped(DivideByZero) else Fine)
      ensures Arith(op, r, h).Some? ==> value == Arith(op, r, h).value
    {
      var a := Arith(op, r, h);
      match a
      case None => value, out := r, Jumped(DivideByZero);
      case Some(v) => value, out := v, Fine;
    }

    /** `evaluate`. */
    method Run(expr: string) returns (answer: Answer)
      modifies this
      ensures answer == Evaluate(expr, old(delimType))
    {
      line := expr;
      if line == "" {
        return Value(0);
      }
      token, tokType := "", NoTok;
      GetToken();
      if token == "" {
        return Error(NoExpression);
      }
      var value, out := Sum(0);
      match out
      case Fine => answer := Value(value);
      case Jumped(e) => answer := Error(e);
    }
  }
}
