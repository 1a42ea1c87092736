/** What the grammar of `src/cmath/expr_parser.cc` accepts and builds.

    `Text` writes a tree with the fewest parentheses the grammar needs: a
    left operand is parenthesised when it binds more loosely than its
    node, a right operand when it binds no tighter (every operator folds to
    the left, and `^` takes only a primary on its right).  The central
    theorem, `ParseText`, says `parse` reads that text back as the same
    tree, which pins down precedence and associativity for every tree at
    once; the examples and error cases follow from it or are checked
    directly. */
module ParsingProofs {
  import Numbers
  import opened Wrappers
  import opened Ast
  import opened Lexer
  import opened Parsing

  /** The trees `parse` builds: natural-number literals, one-letter
      symbols, and the five operators of the grammar. */
  predicate Parseable(x: Expr) {
    match x
    case NumberExpr(v) => v.Complex? && 0.0 <= v.re && v == Numbers.FromReal(v.re.Floor as real)
    case SymbolExpr(name) => |name| == 1 && IsAlpha(name[0])
    case NegExpr(_) => false
    case FacExpr(_) => false
    case BinaryExpr(op, l, r) => op in {PlusOp, MinusOp, MulOp, DivOp, PowOp} && Parseable(l) && Parseable(r)
  }

  function LiteralValue(v: Numbers.Number): nat
    requires v.Complex? && 0.0 <= v.re
  {
    v.re.Floor
  }

  /** The compact text of a tree. */
  function Text(x: Expr): (s: string)
    requires Parseable(x)
    ensures |s| >= 1
    decreases x, 0
  {
    match x
    case NumberExpr(v) => NatToDigits(LiteralValue(v))
    case SymbolExpr(name) => name
    case BinaryExpr(op, l, r) =>
      var p := OpPrecedence(op);
      LevelText(p, l) + OpText(op) + LevelText(Above(p), r)
  }

  /** The text of `x` where the rule of level `p` reads it: in parentheses
      when `x` binds more loosely than `p`. */
  function LevelText(p: Precedence, x: Expr): (s: string)
    requires Parseable(x)
    ensures |s| >= 1
    decreases x, 1
  {
    if Below(PrecedenceOf(x), p) then "(" + Text(x) + ")" else Text(x)
  }

  /** The level whose loop folds the token `t`, if any. */
  function TokenLevel(t: Token): Option<Precedence> {
    match t
    case Plus => Some(Addition)
    case Minus => Some(Addition)
    case Mul => Some(Multiplication)
    case Div => Some(Multiplication)
    case Pow => Some(Power)
    case _ => None
  }

  /** The token `t` ends the loop of level `p`. */
  predicate Ends(p: Precedence, t: Token) {
    TokenLevel(t).None? || Below(TokenLevel(t).value, p)
  }

  /** What may follow a text read at level `p`: no digit (which would
      lengthen a number), and a token that ends the loops of `p` and the
      levels above, or that brings the cursor to the end of the input. */
  predicate Stops(p: Precedence, input: string, j: nat) {
    j <= |input| && (j < |input| ==> !IsDigit(input[j])) && Next(input, j).Ok? &&
    (Next(input, j).value.pos == |input| || Ends(p, Next(input, j).value.tok))
  }

  /** The cursor after reading the token at `i`. */
  function At(input: string, i: nat): Cursor
    requires i <= |input| && Next(input, i).Ok?
  {
    Next(input, i).value
  }

  // ---------------------------------------------------------------------------
  // Small facts

  /** An operator of the grammar is one character, read as the token that
      the loop of its own level folds back into it. */
  lemma OperatorText(op: BinOp)
    requires op in {PlusOp, MinusOp, MulOp, DivOp, PowOp}
    ensures |OpText(op)| == 1 && OperatorToken(OpText(op)[0]).Some?
    ensures var t := OperatorToken(OpText(op)[0]).value;
      LevelOp(OpPrecedence(op), t) == Some(op) && TokenLevel(t) == Some(OpPrecedence(op))
  {
  }

  lemma StopsAbove(p: Precedence, input: string, j: nat)
    requires p != Number && Stops(p, input, j)
    ensures Stops(Above(p), input, j)
  {
  }

  /** A text starts with a digit, a letter or `(`. */
  lemma {:induction false} TextStart(x: Expr)
    requires Parseable(x)
    ensures IsDigit(Text(x)[0]) || IsAlpha(Text(x)[0]) || Text(x)[0] == '('
  {
    match x
    case NumberExpr(_) =>
    case SymbolExpr(_) =>
    case BinaryExpr(op, l, r) =>
      var p := OpPrecedence(op);
      if !Below(PrecedenceOf(l), p) {
        TextStart(l);
      }
      assert Text(x)[0] == LevelText(p, l)[0];
  }

  lemma Split3(input: string, i: nat, j: nat, a: string, b: string, c: string)
    requires i <= j <= |input| && input[i..j] == a + b + c
    ensures i + |a| + |b| + |c| == j
    ensures input[i..i + |a|] == a
    ensures input[i + |a|..i + |a| + |b|] == b
    ensures input[i + |a| + |b|..j] == c
  {
    var s, m := input[i..j], |a| + |b|;
    assert s == (a + b) + c;
    assert s[..m] == a + b && s[m..] == c;
    assert (a + b)[..|a|] == a && (a + b)[|a|..] == b;
    var u := input[i..i + m];
    assert u == s[..m];
    assert input[i..i + |a|] == u[..|a|];
    assert input[i + |a|..i + m] == u[|a|..];
    assert input[i + m..j] == s[m..];
  }

  /** The loop of level `p` ends at once at the end of the input or on a
      token it does not fold. */
  lemma FoldStops(p: Precedence, input: string, lhs: Expr, c: Cursor)
    requires c.pos <= |input| && (c.pos == |input| || LevelOp(p, c.tok).None?)
    ensures FoldLoop(p, input, lhs, c) == Ok(Parsed(lhs, c))
  {
  }

  /** One turn of the loop of level `p`. */
  lemma FoldStep(p: Precedence, input: string, lhs: Expr, c: Cursor, op: BinOp, rhs: Expr, c2: Cursor)
    requires c.pos < |input| && LevelOp(p, c.tok) == Some(op) && Next(input, c.pos).Ok?
    requires ParseAt(Above(p), input, Next(input, c.pos).value) == Ok(Parsed(rhs, c2))
    ensures FoldLoop(p, input, lhs, c) == FoldLoop(p, input, BinaryExpr(op, lhs, rhs), c2)
  {
  }

  /** A rule other than the primary one hands its first operand to its loop. */
  lemma RuleToLoop(p: Precedence, input: string, c: Cursor, x: Expr, c1: Cursor)
    requires p != Number && c.pos <= |input| && ParseAt(Above(p), input, c) == Ok(Parsed(x, c1))
    ensures ParseAt(p, input, c) == FoldLoop(p, input, x, c1)
  {
  }

  /** The whole-expression rule reads every text without parentheses. */
  lemma TopLevelText(x: Expr)
    requires Parseable(x)
    ensures LevelText(Addition, x) == Text(x)
  {
    assert !Below(PrecedenceOf(x), Addition);
  }

  /** A `(` whose inner expression is not followed by `)`. */
  lemma PrimaryUnclosed(input: string, c: Cursor, x: Expr, inner: Cursor)
    requires c.pos <= |input| && c.tok == RndOpen && Next(input, c.pos).Ok?
    requires ParseAt(Addition, input, Next(input, c.pos).value) == Ok(Parsed(x, inner))
    requires inner.tok != RndClose
    ensures ParsePrimary(input, c) == Err(UnexpectedToken)
  {
  }

  /** An error in the first operand is the error of the whole parse. */
  lemma FirstPrimaryFails(input: string)
    requires Next(input, 0).Ok? && ParsePrimary(input, At(input, 0)).Err?
    ensures ParseSpec(input) == Err(ParsePrimary(input, At(input, 0)).error)
  {
    var c := At(input, 0);
    assert ParseAt(Power, input, c) == ParsePrimary(input, c);
    assert ParseAt(Multiplication, input, c) == ParsePrimary(input, c);
  }

  /** A text read at level `p` starts a token. */
  lemma LevelTextStart(p: Precedence, x: Expr, input: string, i: nat, j: nat)
    requires Parseable(x) && i <= j <= |input| && input[i..j] == LevelText(p, x)
    ensures Next(input, i).Ok?
  {
    var s := LevelText(p, x);
    assert input[i] == s[0];
    if Below(PrecedenceOf(x), p) {
      assert s[0] == '(';
    } else {
      TextStart(x);
    }
  }

  // ---------------------------------------------------------------------------
  // Reading a text back

  /** The rule of level `p`, started on the first token of the text of `x`,
      returns `x` and leaves the cursor on the token after the text. */
  lemma {:induction false} Rt(p: Precedence, x: Expr, input: string, i: nat, j: nat)
    requires p != Relation && Parseable(x)
    requires i <= j <= |input| && input[i..j] == LevelText(p, x)
    requires Stops(p, input, j)
    ensures Next(input, i).Ok?
    ensures ParseAt(p, input, At(input, i)) == Ok(Parsed(x, At(input, j)))
    decreases j - i, 2 * (4 - Rank(p)) + 2, 0
  {
    LevelTextStart(p, x, input, i, j);
    var c, cj := At(input, i), At(input, j);
    if p == Number {
      RtPrimary(x, input, i, j);
    } else {
      if !Below(PrecedenceOf(x), p) {
        Spine(p, x, input, i, j);
      } else {
        StopsAbove(p, input, j);
        Rt(Above(p), x, input, i, j);
        RuleToLoop(p, input, c, x, cj);
      }
      FoldStops(p, input, x, cj);
    }
  }

  /** `primaryExpr` on a number or letter token. */
  lemma PrimaryLeaf(input: string, c: Cursor)
    requires c.pos <= |input| && (c.tok.Num? || c.tok.Sym?) && Next(input, c.pos).Ok?
    ensures c.tok.Num? ==>
      ParsePrimary(input, c) == Ok(Parsed(NumberExpr(Numbers.FromReal(c.tok.value as real)), Next(input, c.pos).value))
    ensures c.tok.Sym? ==>
      ParsePrimary(input, c) == Ok(Parsed(SymbolExpr([c.tok.letter]), Next(input, c.pos).value))
  {
  }

  /** `primaryExpr` on `(`: a sum, then `)`. */
  lemma PrimaryParen(input: string, c: Cursor, x: Expr, inner: Cursor)
    requires c.pos <= |input| && c.tok == RndOpen && Next(input, c.pos).Ok?
    requires ParseAt(Addition, input, Next(input, c.pos).value) == Ok(Parsed(x, inner))
    requires inner.tok == RndClose && inner.pos <= |input| && Next(input, inner.pos).Ok?
    ensures ParsePrimary(input, c) == Ok(Parsed(x, Next(input, inner.pos).value))
  {
  }

  /** `primaryExpr` on the text of `x` as an operand: a number, a letter,
      or the text in parentheses. */
  lemma {:induction false} RtPrimary(x: Expr, input: string, i: nat, j: nat)
    requires Parseable(x)
    requires i <= j <= |input| && input[i..j] == LevelText(Number, x)
    requires Stops(Number, input, j)
    ensures Next(input, i).Ok?
    ensures ParsePrimary(input, At(input, i)) == Ok(Parsed(x, At(input, j)))
    decreases j - i, 1, 1
  {
    match x
    case NumberExpr(v) => RtNumber(x, input, i, j);
    case SymbolExpr(name) => RtSymbol(x, input, i, j);
    case BinaryExpr(_, _, _) => RtParen(x, input, i, j);
  }

  lemma RtNumber(x: Expr, input: string, i: nat, j: nat)
    requires Parseable(x) && x.NumberExpr?
    requires i <= j <= |input| && input[i..j] == Text(x)
    requires Stops(Number, input, j)
    ensures Next(input, i).Ok?
    ensures ParsePrimary(input, At(input, i)) == Ok(Parsed(x, At(input, j)))
  {
    var n := LiteralValue(x.value);
    NextNumberText(input, i, n);
    PrimaryLeaf(input, At(input, i));
  }

  lemma RtSymbol(x: Expr, input: string, i: nat, j: nat)
    requires Parseable(x) && x.SymbolExpr?
    requires i <= j <= |input| && input[i..j] == Text(x)
    requires Stops(Number, input, j)
    ensures Next(input, i).Ok?
    ensures ParsePrimary(input, At(input, i)) == Ok(Parsed(x, At(input, j)))
  {
    assert input[i] == x.name[0];
    NextLetter(input, i);
    assert [input[i]] == x.name;
    PrimaryLeaf(input, At(input, i));
  }

  lemma {:induction false} RtParen(x: Expr, input: string, i: nat, j: nat)
    requires Parseable(x) && x.BinaryExpr?
    requires i <= j <= |input| && input[i..j] == "(" + Text(x) + ")"
    requires Stops(Number, input, j)
    ensures Next(input, i).Ok?
    ensures ParsePrimary(input, At(input, i)) == Ok(Parsed(x, At(input, j)))
    decreases j - i, 1, 0
  {
    var k := j - 1;
    Split3(input, i, j, "(", Text(x), ")");
    assert input[i] == input[i..i + 1][0] == '(';
    assert input[k] == input[k..j][0] == ')';
    NextOperator(input, i);
    NextOperator(input, k);
    var open, close := At(input, i), At(input, k);
    assert open == Cursor(i + 1, RndOpen) && close == Cursor(j, RndClose);
    TopLevelText(x);
    assert Stops(Addition, input, k);
    Rt(Addition, x, input, i + 1, k);
    PrimaryParen(input, open, x, close);
  }

  /** An operator character of level `p` is read as the token the loop of
      `p` folds, and it ends every rule above `p`. */
  lemma OperatorAt(op: BinOp, input: string, k: nat)
    requires op in {PlusOp, MinusOp, MulOp, DivOp, PowOp}
    requires k < |input| && input[k] == OpText(op)[0]
    ensures Next(input, k).Ok? && At(input, k).pos == k + 1
    ensures LevelOp(OpPrecedence(op), At(input, k).tok) == Some(op)
    ensures Stops(Above(OpPrecedence(op)), input, k)
  {
    OperatorText(op);
    NextOperator(input, k);
  }

  /** The rule of level `p`, started on the text of a tree that binds at
      least as tightly as `p`, reaches its loop with that tree as the left
      operand and the cursor on the token after the text. */
  lemma {:induction false} Spine(p: Precedence, x: Expr, input: string, i: nat, j: nat)
    requires p in {Addition, Multiplication, Power} && Parseable(x) && !Below(PrecedenceOf(x), p)
    requires i <= j <= |input| && input[i..j] == Text(x)
    requires Stops(Above(p), input, j)
    ensures Next(input, i).Ok?
    ensures ParseAt(p, input, At(input, i)) == FoldLoop(p, input, x, At(input, j))
    decreases j - i, 2 * (4 - Rank(p)) + 1, 2
  {
    if PrecedenceOf(x) == p {
      var k := NodeSplit(x, input, i, j);
      SpineNode(p, x.op, x.left, x.right, input, i, k, j);
    } else {
      Rt(Above(p), x, input, i, j);
      RuleToLoop(p, input, At(input, i), x, At(input, j));
    }
  }

  /** Where the operator of a binary node stands in its text. */
  lemma NodeSplit(x: Expr, input: string, i: nat, j: nat) returns (k: nat)
    requires Parseable(x) && x.BinaryExpr? && i <= j <= |input| && input[i..j] == Text(x)
    ensures var p := OpPrecedence(x.op);
      i <= k < j && input[k] == OpText(x.op)[0] &&
      input[i..k] == LevelText(p, x.left) && input[k + 1..j] == LevelText(Above(p), x.right)
  {
    var p := OpPrecedence(x.op);
    var lt, rt := LevelText(p, x.left), LevelText(Above(p), x.right);
    k := i + |lt|;
    Split3(input, i, j, lt, OpText(x.op), rt);
    OperatorText(x.op);
    assert input[k] == input[k..k + 1][0];
  }

  /** `Spine` for a node `l op r` of level `p` itself, written from `i` to
      `j` with the operator at `k`: its left operand is read first (by the
      same loop when it is of level `p` too), then the operator and the
      right operand make one more turn of the loop. */
  lemma {:induction false} SpineNode(p: Precedence, op: BinOp, l: Expr, r: Expr, input: string, i: nat, k: nat, j: nat)
    requires op in {PlusOp, MinusOp, MulOp, DivOp, PowOp} && OpPrecedence(op) == p
    requires Parseable(l) && Parseable(r)
    requires i <= k < j <= |input| && input[k] == OpText(op)[0]
    requires input[i..k] == LevelText(p, l) && input[k + 1..j] == LevelText(Above(p), r)
    requires Stops(Above(p), input, j)
    ensures Next(input, i).Ok?
    ensures ParseAt(p, input, At(input, i)) == FoldLoop(p, input, BinaryExpr(op, l, r), At(input, j))
    decreases j - i, 2 * (4 - Rank(p)) + 1, 1
  {
    OperatorAt(op, input, k);
    SpineLeft(p, l, input, i, k, j);
    Rt(Above(p), r, input, k + 1, j);
    FoldStep(p, input, l, At(input, k), op, r, At(input, j));
  }

  /** The left operand of a node of level `p`, read by the rule of level
      `p` up to the node's operator at `k`, before the text's end `j`. */
  lemma {:induction false} SpineLeft(p: Precedence, l: Expr, input: string, i: nat, k: nat, j: nat)
    requires p in {Addition, Multiplication, Power} && Parseable(l)
    requires i <= k < j <= |input| && input[i..k] == LevelText(p, l)
    requires Stops(Above(p), input, k)
    ensures Next(input, i).Ok?
    ensures ParseAt(p, input, At(input, i)) == FoldLoop(p, input, l, At(input, k))
    decreases j - i, 2 * (4 - Rank(p)) + 1, 0
  {
    if !Below(PrecedenceOf(l), p) {
      Spine(p, l, input, i, k);
    } else {
      assert LevelText(Above(p), l) == LevelText(p, l);
      Rt(Above(p), l, input, i, k);
      RuleToLoop(p, input, At(input, i), l, At(input, k));
    }
  }

  /** `parse` on an input that starts with the text of `x`: it accepts `x`
      exactly when the cursor then stands at the end. */
  lemma TopLevel(x: Expr, s: string, j: nat)
    requires Parseable(x) && j <= |s| && s[..j] == Text(x) && Stops(Addition, s, j)
    ensures ParseSpec(s) == if At(s, j).pos == |s| then Ok(x) else Err(UnexpectedToken)
  {
    assert s[0..j] == s[..j];
    Rt(Addition, x, s, 0, j);
  }

  /** `parse` reads the text of every tree it can build back as that tree:
      `*` and `/` bind tighter than `+` and `-`, `^` tighter still, and all
      of them group to the left. */
  lemma ParseText(x: Expr)
    requires Parseable(x)
    ensures ParseSpec(Text(x)) == Ok(x)
  {
    var s := Text(x);
    assert s[..|s|] == s;
    TopLevel(x, s, |s|);
  }

  // ---------------------------------------------------------------------------
  // Every tree `parse` builds is a grammar tree

  /** A symbol token carries a letter, as every token `Next` reads does. */
  predicate LetterToken(c: Cursor) {
    c.tok.Sym? ==> IsAlpha(c.tok.letter)
  }

  lemma {:induction false} RuleBuildsParseable(p: Precedence, input: string, c: Cursor)
    requires c.pos <= |input| && LetterToken(c)
    ensures var r := ParseAt(p, input, c); r.Ok? ==> Parseable(r.value.e) && LetterToken(r.value.c)
    decreases Measure(input, c), 2 * (4 - Rank(p)) + 1
  {
    if p == Number {
      PrimaryBuildsParseable(input, c);
    } else {
      RuleBuildsParseable(Above(p), input, c);
      var r := ParseAt(Above(p), input, c);
      if r.Ok? {
        LoopBuildsParseable(p, input, r.value.e, r.value.c);
      }
    }
  }

  lemma {:induction false} LoopBuildsParseable(p: Precedence, input: string, lhs: Expr, c: Cursor)
    requires c.pos <= |input| && Parseable(lhs) && LetterToken(c)
    ensures var r := FoldLoop(p, input, lhs, c); r.Ok? ==> Parseable(r.value.e) && LetterToken(r.value.c)
    decreases Measure(input, c), 0
  {
    if c.pos < |input| && LevelOp(p, c.tok).Some? && Next(input, c.pos).Ok? {
      var c1 := Next(input, c.pos).value;
      RuleBuildsParseable(Above(p), input, c1);
      var r := ParseAt(Above(p), input, c1);
      if r.Ok? {
        LoopBuildsParseable(p, input, BinaryExpr(LevelOp(p, c.tok).value, lhs, r.value.e), r.value.c);
      }
    }
  }

  lemma {:induction false} PrimaryBuildsParseable(input: string, c: Cursor)
    requires c.pos <= |input| && LetterToken(c)
    ensures var r := ParsePrimary(input, c); r.Ok? ==> Parseable(r.value.e) && LetterToken(r.value.c)
    decreases Measure(input, c), 0
  {
    if c.tok == RndOpen && Next(input, c.pos).Ok? {
      RuleBuildsParseable(Addition, input, Next(input, c.pos).value);
    } else if c.tok.Num? {
      var v := Numbers.FromReal(c.tok.value as real);
      assert v == Numbers.FromReal(v.re.Floor as real);
    }
  }

  /** Conversely to `ParseText`, every tree `parse` returns is a grammar
      tree: natural-number literals, one-letter symbols and the five
      operators, with no negation, factorial, relation, definition or call
      node. */
  lemma ParsedIsParseable(s: string, x: Expr)
    requires ParseSpec(s) == Ok(x)
    ensures Parseable(x)
  {
    RuleBuildsParseable(Addition, s, Next(s, 0).value);
  }

  /** A one-character token after a text. */
  lemma TokenAfter(x: Expr, ch: char, rest: string)
    requires Parseable(x) && (ch in "+-*/^()" || IsAlpha(ch))
    ensures var s, j := Text(x) + [ch] + rest, |Text(x)|;
      s[..j] == Text(x) && Next(s, j).Ok? && At(s, j).pos == j + 1 &&
      (rest == [] || ch in "()" || IsAlpha(ch) ==> Stops(Addition, s, j))
  {
    var s, j := Text(x) + [ch] + rest, |Text(x)|;
    assert s[..j] == Text(x);
    assert s[j] == ch;
    if IsAlpha(ch) {
      NextLetter(s, j);
    } else {
      NextOperator(s, j);
    }
  }

  /** With `eof()` meaning "the cursor is at the end", the loops stop as
      soon as the last token has been read, so one operator, parenthesis or
      letter after a complete expression is never looked at: `1+`, `1)`
      and `ab` are accepted as `1`, `1` and `a`. */
  lemma LastTokenIgnored(x: Expr, ch: char)
    requires Parseable(x) && (ch in "+-*/^()" || IsAlpha(ch))
    ensures ParseSpec(Text(x) + [ch]) == Ok(x)
  {
    TokenAfter(x, ch, []);
    assert Text(x) + [ch] + [] == Text(x) + [ch];
    TopLevel(x, Text(x) + [ch], |Text(x)|);
  }

  /** A parenthesis or a letter after a complete expression, with more
      input behind it, leaves the cursor short of the end: `UnexpectedToken`
      (`abc`, `1)2`, `(1)(2)`). */
  lemma UnconsumedTokenRejected(x: Expr, ch: char, rest: string)
    requires Parseable(x) && (ch in "()" || IsAlpha(ch)) && rest != []
    ensures ParseSpec(Text(x) + [ch] + rest) == Err(UnexpectedToken)
  {
    TokenAfter(x, ch, rest);
    TopLevel(x, Text(x) + [ch] + rest, |Text(x)|);
  }

  /** A `(` whose `)` never comes: the parenthesised rule finds `Eof`. */
  lemma MissingCloseRejected(x: Expr, s: string)
    requires Parseable(x) && s == "(" + Text(x)
    ensures ParseSpec(s) == Err(UnexpectedToken)
  {
    TopLevelText(x);
    assert s[1..|s|] == Text(x);
    assert Stops(Addition, s, |s|);
    Rt(Addition, x, s, 1, |s|);
    assert s[0] == '(';
    NextOperator(s, 0);
    PrimaryUnclosed(s, At(s, 0), x, At(s, |s|));
    FirstPrimaryFails(s);
  }

  /** A primary position holding an operator or `)`, here the first one:
      `UnexpectedToken`, whatever follows. */
  lemma LeadingOperatorRejected(ch: char, rest: string)
    requires ch in "+-*/^)"
    ensures ParseSpec([ch] + rest) == Err(UnexpectedToken)
  {
    var s := [ch] + rest;
    var c := At(s, 0);
    assert c.tok in {Plus, Minus, Mul, Div, Pow, RndClose};
    assert ParsePrimary(s, c) == Err(UnexpectedToken);
    FirstPrimaryFails(s);
  }

  /** An error of a rule is the error of every rule below it, which
      starts by calling it. */
  lemma {:induction false} RuleFails(p: Precedence, q: Precedence, input: string, c: Cursor)
    requires c.pos <= |input| && Rank(p) <= Rank(q) && ParseAt(q, input, c).Err?
    ensures ParseAt(p, input, c) == ParseAt(q, input, c)
    decreases Rank(q) - Rank(p)
  {
    if p != q {
      RuleFails(Above(p), q, input, c);
    }
  }

  /** An error in the operand after a folded operator ends the loop with it. */
  lemma FoldFails(p: Precedence, input: string, lhs: Expr, c: Cursor)
    requires c.pos < |input| && LevelOp(p, c.tok).Some? && Next(input, c.pos).Ok?
    requires ParseAt(Above(p), input, Next(input, c.pos).value).Err?
    ensures FoldLoop(p, input, lhs, c) == ParseAt(Above(p), input, Next(input, c.pos).value)
  {
  }

  /** The token at `k` starts no operand `primaryExpr` can complete: an
      operator or `)`, or a `(` whose `)` never comes. */
  predicate NoOperandAt(input: string, k: nat) {
    k < |input| && Next(input, k).Ok? && ParsePrimary(input, At(input, k)) == Err(UnexpectedToken)
  }

  /** An operator followed by no operand: the loop of the operator's level
      folds it and fails. */
  lemma OperatorFails(op: BinOp, lhs: Expr, input: string, j: nat)
    requires op in {PlusOp, MinusOp, MulOp, DivOp, PowOp}
    requires j < |input| && input[j] == OpText(op)[0] && NoOperandAt(input, j + 1)
    ensures Next(input, j).Ok? && Stops(Above(OpPrecedence(op)), input, j)
    ensures FoldLoop(OpPrecedence(op), input, lhs, At(input, j)) == Err(UnexpectedToken)
  {
    var q := OpPrecedence(op);
    OperatorAt(op, input, j);
    assert ParseAt(Number, input, At(input, j + 1)) == Err(UnexpectedToken);
    RuleFails(Above(q), Number, input, At(input, j + 1));
    OperatorThenError(op, lhs, input, j);
  }

  /** An operator whose operand fails: the loop of the operator's level
      folds it and fails with the operand's error. */
  lemma OperatorThenError(op: BinOp, lhs: Expr, input: string, k: nat)
    requires op in {PlusOp, MinusOp, MulOp, DivOp, PowOp}
    requires k + 1 < |input| && input[k] == OpText(op)[0] && Next(input, k + 1).Ok?
    requires ParseAt(Above(OpPrecedence(op)), input, At(input, k + 1)).Err?
    ensures Next(input, k).Ok?
    ensures FoldLoop(OpPrecedence(op), input, lhs, At(input, k)) == ParseAt(Above(OpPrecedence(op)), input, At(input, k + 1))
  {
    OperatorAt(op, input, k);
    assert Next(input, At(input, k).pos).value == At(input, k + 1);
    FoldFails(OpPrecedence(op), input, lhs, At(input, k));
  }

  /** The text of `x`, read by the rule of level `p`, followed by an
      operator the rules from `p` on fold and then by no operand: the rule
      fails with `UnexpectedToken`. */
  lemma {:induction false} OperandMissing(p: Precedence, x: Expr, op: BinOp, input: string, i: nat, j: nat)
    requires p in {Addition, Multiplication, Power} && Parseable(x)
    requires op in {PlusOp, MinusOp, MulOp, DivOp, PowOp} && Rank(p) <= Rank(OpPrecedence(op))
    requires i <= j < |input| && input[i..j] == LevelText(p, x)
    requires input[j] == OpText(op)[0] && NoOperandAt(input, j + 1)
    ensures Next(input, i).Ok?
    ensures ParseAt(p, input, At(input, i)) == Err(UnexpectedToken)
    decreases j - i, 1
  {
    var q := OpPrecedence(op);
    LevelTextStart(p, x, input, i, j);
    OperatorFails(op, x, input, j);
    if !Below(PrecedenceOf(x), q) {
      Spine(q, x, input, i, j);
    } else if Below(PrecedenceOf(x), p) {
      assert LevelText(Above(q), x) == LevelText(p, x);
      Rt(Above(q), x, input, i, j);
      RuleToLoop(q, input, At(input, i), x, At(input, j));
    } else {
      OperandMissingInside(p, x, op, input, i, j);
      return;
    }
    RuleFails(p, q, input, At(input, i));
  }

  /** `OperandMissing` for a node `x` binding more loosely than the
      operator after it: the missing operand is in its right operand. */
  lemma {:induction false} OperandMissingInside(p: Precedence, x: Expr, op: BinOp, input: string, i: nat, j: nat)
    requires p in {Addition, Multiplication, Power} && Parseable(x)
    requires op in {PlusOp, MinusOp, MulOp, DivOp, PowOp} && Rank(p) <= Rank(OpPrecedence(op))
    requires i <= j < |input| && input[i..j] == LevelText(p, x)
    requires input[j] == OpText(op)[0] && NoOperandAt(input, j + 1)
    requires !Below(PrecedenceOf(x), p) && Below(PrecedenceOf(x), OpPrecedence(op))
    ensures Next(input, i).Ok?
    ensures ParseAt(p, input, At(input, i)) == Err(UnexpectedToken)
    decreases j - i, 0
  {
    var px := PrecedenceOf(x);
    assert x.BinaryExpr? && input[i..j] == Text(x);
    var k := NodeSplit(x, input, i, j);
    OperandMissing(Above(px), x.right, op, input, k + 1, j);
    NodeFails(p, x, input, i, k, j);
  }

  /** A node whose right operand fails: the rule of any level up to the
      node's own fails with the operand's error. */
  lemma NodeFails(p: Precedence, x: Expr, input: string, i: nat, k: nat, j: nat)
    requires p in {Addition, Multiplication, Power} && Parseable(x) && x.BinaryExpr?
    requires Rank(p) <= Rank(OpPrecedence(x.op))
    requires i <= k < j < |input| && input[k] == OpText(x.op)[0]
    requires input[i..k] == LevelText(OpPrecedence(x.op), x.left)
    requires Next(input, k + 1).Ok?
    requires ParseAt(Above(OpPrecedence(x.op)), input, At(input, k + 1)) == Err(UnexpectedToken)
    ensures Next(input, i).Ok?
    ensures ParseAt(p, input, At(input, i)) == Err(UnexpectedToken)
  {
    var px := OpPrecedence(x.op);
    OperatorAt(x.op, input, k);
    SpineLeft(px, x.left, input, i, k, j);
    OperatorThenError(x.op, x.left, input, k);
    RuleFails(p, px, input, At(input, i));
  }

  /** `parse` of the text of `x`, an operator and no operand. */
  lemma TextOperatorNoOperand(x: Expr, op: BinOp, s: string)
    requires Parseable(x) && op in {PlusOp, MinusOp, MulOp, DivOp, PowOp}
    requires |Text(x)| < |s| && s[..|Text(x)|] == Text(x) && s[|Text(x)|] == OpText(op)[0]
    requires NoOperandAt(s, |Text(x)| + 1)
    ensures ParseSpec(s) == Err(UnexpectedToken)
  {
    var j := |Text(x)|;
    assert s[0..j] == s[..j];
    TopLevelText(x);
    OperandMissing(Addition, x, op, s, 0, j);
  }

  /** A primary position after an operator, holding an operator or `)`:
      `UnexpectedToken` after any text, whatever follows (`1+*2`, `2^)`,
      `1+2*)`). */
  lemma OperatorWithoutOperandRejected(x: Expr, op: BinOp, ch: char, rest: string)
    requires Parseable(x) && op in {PlusOp, MinusOp, MulOp, DivOp, PowOp} && ch in "+-*/^)"
    ensures ParseSpec(Text(x) + OpText(op) + [ch] + rest) == Err(UnexpectedToken)
  {
    OperatorText(op);
    var s := Text(x) + OpText(op) + [ch] + rest;
    AfterOperator(Text(x), OpText(op), ch, rest);
    OperatorNoOperand(s, |Text(x)| + 1);
    TextOperatorNoOperand(x, op, s);
  }

  /** Where the parts of `a + o + [ch] + rest` lie, for a one-character `o`. */
  lemma AfterOperator(a: string, o: string, ch: char, rest: string)
    requires |o| == 1
    ensures var s := a + o + [ch] + rest;
      |a| + 1 < |s| && s[..|a|] == a && s[|a|] == o[0] && s[|a| + 1] == ch && s[|a| + 2..] == rest
  {
    var s := a + o + [ch] + rest;
    assert s[..|a|] == a;
    assert s[|a| + 2..] == rest;
  }

  /** An operator or `)` is no operand. */
  lemma OperatorNoOperand(input: string, k: nat)
    requires k < |input| && input[k] in "+-*/^)"
    ensures NoOperandAt(input, k)
  {
    NextOperator(input, k);
    assert At(input, k).tok in {Plus, Minus, Mul, Div, Pow, RndClose};
  }

  /** A `(` followed by the text of `y` and nothing more is no operand. */
  lemma UnclosedNoOperand(input: string, k: nat, y: Expr)
    requires Parseable(y) && k < |input| && input[k] == '(' && input[k + 1..] == Text(y)
    ensures NoOperandAt(input, k)
  {
    NextOperator(input, k);
    TopLevelText(y);
    assert input[k + 1..|input|] == input[k + 1..];
    assert Stops(Addition, input, |input|);
    Rt(Addition, y, input, k + 1, |input|);
    PrimaryUnclosed(input, At(input, k), y, At(input, |input|));
  }

  /** An operand `(` after an operator whose `)` never comes, after any
      text: `UnexpectedToken` (`1+(2`, `2*(3+4`, `a^(b`). */
  lemma MissingCloseAfterOperator(x: Expr, op: BinOp, y: Expr)
    requires Parseable(x) && Parseable(y) && op in {PlusOp, MinusOp, MulOp, DivOp, PowOp}
    ensures ParseSpec(Text(x) + OpText(op) + "(" + Text(y)) == Err(UnexpectedToken)
  {
    OperatorText(op);
    var s := Text(x) + OpText(op) + "(" + Text(y);
    AfterOperator(Text(x), OpText(op), '(', Text(y));
    UnclosedNoOperand(s, |Text(x)| + 1, y);
    TextOperatorNoOperand(x, op, s);
  }

  /** The empty input has no primary: `UnexpectedToken`. */
  lemma EmptyRejected()
    ensures ParseSpec("") == Err(UnexpectedToken)
  {
    var c := At("", 0);
    assert ParsePrimary("", c) == Err(UnexpectedToken);
    FirstPrimaryFails("");
  }

  /** A space is no token: `1 2` fails on the space. */
  lemma SpaceRejected(s: string)
    requires s == "1 2"
    ensures ParseSpec(s) == Err(UnexpectedCharacter)
  {
    NextDigits(s, 0, 1);
    assert s[0..1] == "1";
    var c := At(s, 0);
    assert c == Cursor(1, Num(1));
    assert ParsePrimary(s, c) == Err(UnexpectedCharacter);
    FirstPrimaryFails(s);
  }

  function Lit(n: nat): Expr {
    NumberExpr(Numbers.FromReal(n as real))
  }

  /** A one-digit literal is written as its digit. */
  lemma LitText(n: nat)
    requires n < 10
    ensures Parseable(Lit(n)) && Text(Lit(n)) == [DigitChar(n)]
  {
    assert LiteralValue(Lit(n).value) == n;
  }

  /** `1-2-3` is `(1-2)-3`. */
  lemma MinusGroupsLeft(s: string)
    requires s == "1-2-3"
    ensures ParseSpec(s) == Ok(BinaryExpr(MinusOp, BinaryExpr(MinusOp, Lit(1), Lit(2)), Lit(3)))
  {
    LitText(1);
    LitText(2);
    LitText(3);
    var l := BinaryExpr(MinusOp, Lit(1), Lit(2));
    assert Text(l) == "1-2";
    var x := BinaryExpr(MinusOp, l, Lit(3));
    assert Text(x) == "1-2" + "-" + "3" == s;
    ParseText(x);
  }

  /** `1+2*3` is `1+(2*3)`. */
  lemma MulBindsTighter(s: string)
    requires s == "1+2*3"
    ensures ParseSpec(s) == Ok(BinaryExpr(PlusOp, Lit(1), BinaryExpr(MulOp, Lit(2), Lit(3))))
  {
    LitText(1);
    LitText(2);
    LitText(3);
    var r := BinaryExpr(MulOp, Lit(2), Lit(3));
    assert Text(r) == "2*3";
    var x := BinaryExpr(PlusOp, Lit(1), r);
    assert Text(x) == "1" + "+" + "2*3" == s;
    ParseText(x);
  }

  /** `a^b^c` is `(a^b)^c`. */
  lemma PowGroupsLeft(s: string)
    requires s == "a^b^c"
    ensures ParseSpec(s) ==
      Ok(BinaryExpr(PowOp, BinaryExpr(PowOp, SymbolExpr("a"), SymbolExpr("b")), SymbolExpr("c")))
  {
    var l := BinaryExpr(PowOp, SymbolExpr("a"), SymbolExpr("b"));
    assert Text(l) == "a^b";
    var x := BinaryExpr(PowOp, l, SymbolExpr("c"));
    assert Text(x) == "a^b" + "^" + "c" == s;
    ParseText(x);
  }

  /** The parser object computes what the specification says, so all of
      the above holds of `ExprParser.Parse` too. */
  method ParseObjectReadsText(x: Expr) returns (r: Result<Expr, ErrorCode>)
    requires Parseable(x)
    ensures r == Ok(x)
  {
    var p := new ExprParser();
    r := p.Parse(Text(x));
    ParseText(x);
  }

  // ---------------------------------------------------------------------------
  // Rendering and reading back

  /** The text with every space removed. */
  function Unspaced(s: string): (t: string)
    ensures ' ' !in t
  {
    if s == [] then [] else (if s[0] == ' ' then [] else [s[0]]) + Unspaced(s[1..])
  }

  lemma {:induction false} UnspacedConcat(a: string, b: string)
    ensures Unspaced(a + b) == Unspaced(a) + Unspaced(b)
  {
    if a == [] {
      assert a + b == b;
    } else {
      var h := if a[0] == ' ' then [] else [a[0]];
      assert (a + b)[0] == a[0];
      assert (a + b)[1..] == a[1..] + b;
      UnspacedConcat(a[1..], b);
      calc {
        Unspaced(a + b);
        h + Unspaced(a[1..] + b);
        h + (Unspaced(a[1..]) + Unspaced(b));
        (h + Unspaced(a[1..])) + Unspaced(b);
        Unspaced(a) + Unspaced(b);
      }
    }
  }

  lemma {:induction false} UnspacedKeeps(s: string)
    requires ' ' !in s
    ensures Unspaced(s) == s
  {
    if s != [] {
      assert s[0] in s;
      assert forall k :: 0 <= k < |s| - 1 ==> s[1..][k] == s[k + 1];
      UnspacedKeeps(s[1..]);
    }
  }

  /** Parentheses carry no spaces. */
  lemma UnspacedGroup(t: string)
    ensures Unspaced("(" + t + ")") == "(" + Unspaced(t) + ")"
  {
    UnspacedConcat("(" + t, ")");
    UnspacedConcat("(", t);
  }

  /** The spaces around an operator disappear. */
  lemma UnspacedAround(ls: string, o: string, rs: string)
    requires ' ' !in o
    ensures Unspaced(ls + " " + o + " " + rs) == Unspaced(ls) + o + Unspaced(rs)
  {
    assert Unspaced(" ") == [] by {
      assert " "[1..] == [];
    }
    UnspacedKeeps(o);
    UnspacedConcat(ls, " ");
    var a := ls + " ";
    assert Unspaced(a) == Unspaced(ls);
    UnspacedConcat(a, o);
    var b := a + o;
    assert Unspaced(b) == Unspaced(ls) + o;
    UnspacedConcat(b, " ");
    var c := b + " ";
    assert Unspaced(c) == Unspaced(ls) + o;
    UnspacedConcat(c, rs);
  }

  /** Stream output of a double at the default precision (six significant
      digits) writes a whole number below this bound as its decimal digits,
      and from the bound on in exponent form (`1e+06`, `1.23457e+06`). */
  const FormatLimit: nat := 1000000

  /** `fmt` writes every natural number below `FormatLimit` as its decimal
      digits, as `NumberExpr::str` does for a real literal. */
  ghost predicate DecimalFormat(fmt: Numbers.Number -> string) {
    forall n: nat :: n < FormatLimit ==> fmt(Numbers.FromReal(n as real)) == NatToDigits(n)
  }

  /** Every literal of the tree is below `FormatLimit`. */
  predicate SmallLiterals(x: Expr) {
    match x
    case NumberExpr(v) => v.Complex? && v.re < FormatLimit as real
    case SymbolExpr(_) => true
    case NegExpr(y) => SmallLiterals(y)
    case FacExpr(y) => SmallLiterals(y)
    case BinaryExpr(_, l, r) => SmallLiterals(l) && SmallLiterals(r)
  }

  lemma FormatLit(fmt: Numbers.Number -> string, n: nat)
    requires DecimalFormat(fmt) && n < FormatLimit
    ensures fmt(Lit(n).value) == NatToDigits(n)
  {
  }

  /** The grouped rendering of an operand, spaces removed, is its text at
      that level. */
  lemma {:induction false} OperandUnspaced(x: Expr, fmt: Numbers.Number -> string, grouped: bool, q: Precedence)
    requires Parseable(x) && SmallLiterals(x) && DecimalFormat(fmt)
    requires grouped == Below(PrecedenceOf(x), q)
    ensures Unspaced(if grouped then "(" + StrGrouped(x, fmt) + ")" else StrGrouped(x, fmt)) == LevelText(q, x)
    decreases x, 1
  {
    StrGroupedIsSpacedText(x, fmt);
    if grouped {
      UnspacedGroup(StrGrouped(x, fmt));
    }
  }

  /** With the right operand also grouped when it binds as loosely as its
      node, the rendering is the compact text plus spaces. */
  lemma {:induction false} StrGroupedIsSpacedText(x: Expr, fmt: Numbers.Number -> string)
    requires Parseable(x) && SmallLiterals(x) && DecimalFormat(fmt)
    ensures Unspaced(StrGrouped(x, fmt)) == Text(x)
    decreases x, 0
  {
    match x
    case NumberExpr(v) =>
      var n := LiteralValue(v);
      FormatLit(fmt, n);
      assert Lit(n).value == v;
      assert forall k :: 0 <= k < |NatToDigits(n)| ==> IsDigit(NatToDigits(n)[k]);
      UnspacedKeeps(NatToDigits(n));
    case SymbolExpr(name) =>
      UnspacedKeeps(name);
    case BinaryExpr(op, l, r) =>
      var p := OpPrecedence(op);
      OperandUnspaced(l, fmt, Below(PrecedenceOf(l), p), p);
      OperandUnspaced(r, fmt, !Below(p, PrecedenceOf(r)), Above(p));
      var ls := if Below(PrecedenceOf(l), p) then "(" + StrGrouped(l, fmt) + ")" else StrGrouped(l, fmt);
      var rs := if !Below(p, PrecedenceOf(r)) then "(" + StrGrouped(r, fmt) + ")" else StrGrouped(r, fmt);
      assert StrGrouped(x, fmt) == ls + " " + OpText(op) + " " + rs;
      UnspacedAround(ls, OpText(op), rs);
  }

  /** The grouped rendering, spaces aside, reads back as the tree it came
      from. */
  lemma StrGroupedReparses(x: Expr, fmt: Numbers.Number -> string)
    requires Parseable(x) && SmallLiterals(x) && DecimalFormat(fmt)
    ensures ParseSpec(Unspaced(StrGrouped(x, fmt))) == Ok(x)
  {
    StrGroupedIsSpacedText(x, fmt);
    ParseText(x);
  }

  /** The rendering as written reads back for every tree in which no
      binary node has a right operand of its own precedence. */
  lemma StrReparsesWithoutSameRight(x: Expr, fmt: Numbers.Number -> string)
    requires Parseable(x) && SmallLiterals(x) && DecimalFormat(fmt) && NoSameRight(x)
    ensures ParseSpec(Unspaced(Str(x, fmt))) == Ok(x)
  {
    StrIsGroupedIff(x, fmt);
    StrGroupedReparses(x, fmt);
  }

  /** The rendering as written does not: `1 - (2 - 3)` is printed as
      `1 - 2 - 3`, which reads back as `(1 - 2) - 3`. */
  lemma StrReparsesRegrouped(fmt: Numbers.Number -> string)
    requires fmt(Lit(1).value) == "1" && fmt(Lit(2).value) == "2" && fmt(Lit(3).value) == "3"
    ensures var nested := BinaryExpr(MinusOp, Lit(1), BinaryExpr(MinusOp, Lit(2), Lit(3)));
      var folded := BinaryExpr(MinusOp, BinaryExpr(MinusOp, Lit(1), Lit(2)), Lit(3));
      nested != folded && ParseSpec(Unspaced(Str(nested, fmt))) == Ok(folded)
  {
    var inner := BinaryExpr(MinusOp, Lit(2), Lit(3));
    var nested := BinaryExpr(MinusOp, Lit(1), inner);
    UnspacedKeeps("1");
    UnspacedKeeps("2");
    UnspacedKeeps("3");
    assert Str(inner, fmt) == "2" + " " + "-" + " " + "3";
    UnspacedAround("2", "-", "3");
    assert Str(nested, fmt) == "1" + " " + "-" + " " + Str(inner, fmt);
    UnspacedAround("1", "-", Str(inner, fmt));
    assert Unspaced(Str(nested, fmt)) == "1-2-3";
    MinusGroupsLeft("1-2-3");
  }
}
