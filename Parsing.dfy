/** The recursive-descent parser of `src/cmath/expr_parser.cc`.

    The first half states, as functions over a cursor, what each grammar
    rule produces: `ParseAt(p, ..)` is the rule for the precedence level
    `p` (`addExpr` for Addition, `mulExpr` for Multiplication, `powExpr`
    for Power, `primaryExpr` for Number) and `FoldLoop` is the loop those
    rules share.  The second half is the parser object itself, whose
    methods are proved to compute exactly these functions.

    A thrown error code is an `Err` result. */
module Parsing {
  import Numbers
  import opened Wrappers
  import opened Ast
  import opened Lexer

  datatype Parsed = Parsed(e: Expr, c: Cursor)

  /** What is left to read: twice the unread characters, plus one while a
      real token is still waiting to be consumed.  Consuming any token other
      than `Eof` lowers it. */
  function Measure(input: string, c: Cursor): nat
    requires c.pos <= |input|
  {
    2 * (|input| - c.pos) + (if c.tok == Eof then 0 else 1)
  }

  /** A rule's result stays inside the input and never moves back. */
  predicate Progress(input: string, c: Cursor, r: Result<Parsed, ErrorCode>)
    requires c.pos <= |input|
  {
    r.Ok? ==> c.pos <= r.value.c.pos <= |input| && Measure(input, r.value.c) <= Measure(input, c)
  }

  /** The codes a rule can fail with: the tokenizer's and the parser's own,
      never `UnexpectedEof`. */
  predicate Raisable(r: Result<Parsed, ErrorCode>) {
    r.Err? ==> r.error == UnexpectedCharacter || r.error == UnexpectedToken
  }

  /** The level whose rule parses an operand of the level `p`. */
  function Above(p: Precedence): (q: Precedence)
    ensures p != Number ==> Rank(q) == Rank(p) + 1
  {
    match p
    case Relation => Addition
    case Addition => Multiplication
    case Multiplication => Power
    case Power => Number
    case Number => Number
  }

  /** The operator tokens the loop of level `p` folds, with the node each
      one builds. */
  function LevelOp(p: Precedence, t: Token): (r: Option<BinOp>)
    ensures r.Some? ==> OpPrecedence(r.value) == p
    ensures r.Some? <==>
      (p == Addition && t in {Plus, Minus}) || (p == Multiplication && t in {Mul, Div}) || (p == Power && t == Pow)
  {
    match (p, t)
    case (Addition, Plus) => Some(PlusOp)
    case (Addition, Minus) => Some(MinusOp)
    case (Multiplication, Mul) => Some(MulOp)
    case (Multiplication, Div) => Some(DivOp)
    case (Power, Pow) => Some(PowOp)
    case _ => None
  }

  /** The rule of level `p`: an operand of the next level, then the loop. */
  function ParseAt(p: Precedence, input: string, c: Cursor): (r: Result<Parsed, ErrorCode>)
    requires c.pos <= |input|
    ensures Progress(input, c, r) && Raisable(r)
    decreases Measure(input, c), 2 * (4 - Rank(p)) + 1
  {
    if p == Number then ParsePrimary(input, c)
    else
      match ParseAt(Above(p), input, c)
      case Err(code) => Err(code)
      case Ok(lhs) => FoldLoop(p, input, lhs.e, lhs.c)
  }

  /** `while (!eof())` over the operators of level `p`: each one found is
      consumed, an operand of the next level is parsed, and the two sides
      become the new left operand.  Any other token, or the end of the
      input, ends the loop. */
  function FoldLoop(p: Precedence, input: string, lhs: Expr, c: Cursor): (r: Result<Parsed, ErrorCode>)
    requires c.pos <= |input|
    ensures Progress(input, c, r) && Raisable(r)
    ensures (c.pos == |input| || LevelOp(p, c.tok).None?) ==> r == Ok(Parsed(lhs, c))
    decreases Measure(input, c), 0
  {
    if c.pos == |input| then Ok(Parsed(lhs, c))
    else
      match LevelOp(p, c.tok)
      case None => Ok(Parsed(lhs, c))
      case Some(op) =>
        match Next(input, c.pos)
        case Err(code) => Err(code)
        case Ok(c1) =>
          match ParseAt(Above(p), input, c1)
          case Err(code) => Err(code)
          case Ok(rhs) => FoldLoop(p, input, BinaryExpr(op, lhs, rhs.e), rhs.c)
  }

  /** `primaryExpr`: a parenthesised expression, a number or a symbol;
      any other token is `UnexpectedToken`. */
  function ParsePrimary(input: string, c: Cursor): (r: Result<Parsed, ErrorCode>)
    requires c.pos <= |input|
    ensures Progress(input, c, r) && Raisable(r)
    ensures r.Ok? ==> c.tok in {RndOpen} || c.tok.Num? || c.tok.Sym?
    ensures !(c.tok == RndOpen || c.tok.Num? || c.tok.Sym?) ==> r == Err(UnexpectedToken)
    decreases Measure(input, c), 0
  {
    match c.tok
    case RndOpen =>
      (match Next(input, c.pos)
       case Err(code) => Err(code)
       case Ok(c1) =>
         match ParseAt(Addition, input, c1)
         case Err(code) => Err(code)
         case Ok(inner) =>
           if inner.c.tok != RndClose then Err(UnexpectedToken)
           else
             match Next(input, inner.c.pos)
             case Err(code) => Err(code)
             case Ok(c2) => Ok(Parsed(inner.e, c2)))
    case Num(n) =>
      (match Next(input, c.pos)
       case Err(code) => Err(code)
       case Ok(c1) => Ok(Parsed(NumberExpr(Numbers.FromReal(n as real)), c1)))
    case Sym(letter) =>
      (match Next(input, c.pos)
       case Err(code) => Err(code)
       case Ok(c1) => Ok(Parsed(SymbolExpr([letter]), c1)))
    case _ => Err(UnexpectedToken)
  }

  /** `parse` with every error returned as a value: read the first token,
      parse a sum, and accept it only if the cursor then stands at the end
      of the input. */
  function ParseSpec(input: string): (r: Result<Expr, ErrorCode>)
    ensures r.Err? ==> r.error == UnexpectedCharacter || r.error == UnexpectedToken
    ensures Next(input, 0).Err? ==> r == Err(UnexpectedCharacter)
  {
    match Next(input, 0)
    case Err(code) => Err(code)
    case Ok(c) =>
      match ParseAt(Addition, input, c)
      case Err(code) => Err(code)
      case Ok(top) => if top.c.pos == |input| then Ok(top.e) else Err(UnexpectedToken)
  }

  /** How `parse` ends as written: with a result, or with an error code
      thrown out of it. */
  datatype Ending = Returned(result: Result<Expr, ErrorCode>) | Thrown(code: ErrorCode)

  /** `parse` as written: the first `nextToken()` runs before the `try`, so
      an error it throws leaves `parse` instead of becoming its result. */
  function ParseAsWritten(input: string): (r: Ending)
    ensures r.Thrown? <==> Next(input, 0).Err?
    ensures r.Returned? ==> r.result == ParseSpec(input)
  {
    match Next(input, 0)
    case Err(code) => Thrown(code)
    case Ok(c) =>
      Returned(
        match ParseAt(Addition, input, c)
        case Err(code) => Err(code)
        case Ok(top) => if top.c.pos == |input| then Ok(top.e) else Err(UnexpectedToken))
  }

  /** An input whose first character starts no token throws from `parse`
      as written, where the corrected `parse` returns the error. */
  lemma LeadingBadCharacterEscapes(input: string)
    requires |input| > 0 && !IsTokenStart(input[0])
    ensures ParseAsWritten(input) == Thrown(UnexpectedCharacter)
    ensures ParseSpec(input) == Err(UnexpectedCharacter)
  {
  }

  /** The parser object: the input, the cursor into it and the current
      token (with the number or letter it carries). */
  class ExprParser {
    var expression: string
    var position: nat
    var token: Token

    /** The cursor the specification functions work on. */
    function State(): Cursor
      reads this
    {
      Cursor(position, token)
    }

    predicate Valid()
      reads this
    {
      position <= |expression|
    }

    /** A rule's result agrees with the specification's: the same tree and
        the parser left at the cursor the specification reaches, or the
        same error. */
    predicate Agrees(r: Result<Expr, ErrorCode>, s: Result<Parsed, ErrorCode>)
      reads this
    {
      (r.Ok? <==> s.Ok?) &&
      (s.Ok? ==> r.value == s.value.e && State() == s.value.c) &&
      (s.Err? ==> r.error == s.error)
    }

    /** `ExprParser()`: no input yet. The token member is value-initialised;
        `Eof` stands for that value, which `Parse` overwrites before reading. */
    constructor ()
      ensures Valid() && expression == [] && position == 0 && token == Eof
    {
      expression := [];
      position := 0;
      token := Eof;
    }

    /** `nextToken`: read the token at the cursor and move past it.  On an
        unknown character nothing changes and the error is thrown. */
    method NextToken() returns (r: Outcome<ErrorCode>)
      requires Valid()
      modifies this
      ensures Valid() && expression == old(expression)
      ensures var n := Next(expression, old(position));
        (n.Ok? ==> r == Pass && State() == n.value) &&
        (n.Err? ==> r == Fail(n.error) && State() == old(State()))
    {
      if position == |expression| {
        token := Eof;
        return Pass;
      }
      var c := expression[position];
      var single := OperatorToken(c);
      if single.Some? {
        position, token := position + 1, single.value;
      } else if IsAlpha(c) {
        position, token := position + 1, Sym(c);
      } else if IsDigit(c) {
        ScanNumber();
      } else {
        return Fail(UnexpectedCharacter);
      }
      return Pass;
    }

    /** The decimal branch of `nextToken`: the first digit starts the
        number, and every further digit before the end of the input
        multiplies it by ten and adds itself. */
    method ScanNumber()
      requires position < |expression| && IsDigit(expression[position])
      modifies this
      ensures expression == old(expression)
      ensures var j := DigitRunEnd(expression, old(position) + 1);
        State() == Cursor(j, Num(DigitsValue(expression[old(position)..j])))
    {
      var s, start := expression, position;
      var pos, n := start + 1, DigitValue(s[start]);
      assert s[start..pos] == [s[start]];
      assert s[start..pos][..0] == [];
      while pos != |s| && IsDigit(s[pos])
        invariant expression == s && start < pos <= |s|
        invariant DigitRunEnd(s, pos) == DigitRunEnd(s, start + 1)
        invariant AllDigits(s[start..pos])
        invariant n == DigitsValue(s[start..pos])
        decreases |s| - pos
      {
        DigitsStep(s, start, pos);
        n := n * 10 + DigitValue(s[pos]);
        pos := pos + 1;
      }
      assert DigitRunEnd(s, pos) == pos;
      position := pos;
      token := Num(n);
    }

    /** `consumeToken(t)`: the current token must be `t`; then read the
        next one. */
    method ConsumeToken(t: Token) returns (r: Outcome<ErrorCode>)
      requires Valid()
      modifies this
      ensures Valid() && expression == old(expression)
      ensures old(token) != t ==> r == Fail(UnexpectedToken) && State() == old(State())
      ensures old(token) == t ==> var n := Next(expression, old(position));
        (n.Ok? ==> r == Pass && State() == n.value) &&
        (n.Err? ==> r == Fail(n.error) && State() == old(State()))
    {
      if token != t {
        return Fail(UnexpectedToken);
      }
      r := NextToken();
    }

    /** `primaryExpr`. */
    method PrimaryExpr() returns (r: Result<Expr, ErrorCode>)
      requires Valid()
      modifies this
      ensures Valid() && expression == old(expression)
      ensures Agrees(r, ParsePrimary(expression, old(State())))
      decreases Measure(expression, State()), 0
    {
      match token
      case RndOpen =>
        var o := NextToken();
        if o.Fail? {
          return Err(o.error);
        }
        r := AddExpr();
        if r.Err? {
          return;
        }
        o := ConsumeToken(RndClose);
        if o.Fail? {
          return Err(o.error);
        }
      case Num(n) =>
        var e := NumberExpr(Numbers.FromReal(n as real));
        var o := NextToken();
        if o.Fail? {
          return Err(o.error);
        }
        r := Ok(e);
      case Sym(letter) =>
        var e := SymbolExpr([letter]);
        var o := NextToken();
        if o.Fail? {
          return Err(o.error);
        }
        r := Ok(e);
      case _ =>
        r := Err(UnexpectedToken);
    }

    /** `powExpr`: primaries joined by `^`, folded to the left. */
    method PowExpr() returns (r: Result<Expr, ErrorCode>)
      requires Valid()
      modifies this
      ensures Valid() && expression == old(expression)
      ensures Agrees(r, ParseAt(Power, expression, old(State())))
      decreases Measure(expression, State()), 3
    {
      r := PrimaryExpr();
      if r.Err? {
        return;
      }
      var lhs := r.value;
      while position != |expression|
        invariant Valid() && expression == old(expression)
        invariant ParseAt(Power, expression, old(State())) == FoldLoop(Power, expression, lhs, State())
        invariant Measure(expression, State()) <= Measure(expression, old(State()))
        decreases Measure(expression, State())
      {
        if token != Pow {
          return Ok(lhs);
        }
        var o := NextToken();
        if o.Fail? {
          return Err(o.error);
        }
        var rhs := PrimaryExpr();
        if rhs.Err? {
          return rhs;
        }
        lhs := BinaryExpr(PowOp, lhs, rhs.value);
      }
      r := Ok(lhs);
    }

    /** `mulExpr`: powers joined by `*` and `/`, folded to the left. */
    method MulExpr() returns (r: Result<Expr, ErrorCode>)
      requires Valid()
      modifies this
      ensures Valid() && expression == old(expression)
      ensures Agrees(r, ParseAt(Multiplication, expression, old(State())))
      decreases Measure(expression, State()), 5
    {
      r := PowExpr();
      if r.Err? {
        return;
      }
      var lhs := r.value;
      while position != |expression|
        invariant Valid() && expression == old(expression)
        invariant ParseAt(Multiplication, expression, old(State())) == FoldLoop(Multiplication, expression, lhs, State())
        invariant Measure(expression, State()) <= Measure(expression, old(State()))
        decreases Measure(expression, State())
      {
        if token != Mul && token != Div {
          return Ok(lhs);
        }
        var op := if token == Mul then MulOp else DivOp;
        var o := NextToken();
        if o.Fail? {
          return Err(o.error);
        }
        var rhs := PowExpr();
        if rhs.Err? {
          return rhs;
        }
        lhs := BinaryExpr(op, lhs, rhs.value);
      }
      r := Ok(lhs);
    }

    /** `addExpr`: products joined by `+` and `-`, folded to the left. */
    method AddExpr() returns (r: Result<Expr, ErrorCode>)
      requires Valid()
      modifies this
      ensures Valid() && expression == old(expression)
      ensures Agrees(r, ParseAt(Addition, expression, old(State())))
      decreases Measure(expression, State()), 7
    {
      r := MulExpr();
      if r.Err? {
        return;
      }
      var lhs := r.value;
      while position != |expression|
        invariant Valid() && expression == old(expression)
        invariant ParseAt(Addition, expression, old(State())) == FoldLoop(Addition, expression, lhs, State())
        invariant Measure(expression, State()) <= Measure(expression, old(State()))
        decreases Measure(expression, State())
      {
        if token != Plus && token != Minus {
          return Ok(lhs);
        }
        var op := if token == Plus then PlusOp else MinusOp;
        var o := NextToken();
        if o.Fail? {
          return Err(o.error);
        }
        var rhs := MulExpr();
        if rhs.Err? {
          return rhs;
        }
        lhs := BinaryExpr(op, lhs, rhs.value);
      }
      r := Ok(lhs);
    }

    /** `parse`, with the first `nextToken()` inside the error handling, so
        that every error comes back as the result. */
    method Parse(input: string) returns (r: Result<Expr, ErrorCode>)
      modifies this
      ensures r == ParseSpec(input)
    {
      expression := input;
      position := 0;
      var o := NextToken();
      if o.Fail? {
        return Err(o.error);
      }
      r := AddExpr();
      if r.Ok? && position != |expression| {
        r := Err(UnexpectedToken);
      }
    }
  }
}
