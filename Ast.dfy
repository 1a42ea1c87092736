/** The expression tree of `src/cmath/expr.cc`: one constructor per node
    class, the precedence each node is built with, its textual form (`str`)
    and the structural comparison (`compare`).  Trees are immutable values,
    so `clone` is the identity and operands are never shared. */
module Ast {
  import opened Numbers
  import opened Wrappers

  /** Binding strength, weakest first (`enum class Precedence`). */
  datatype Precedence = Relation | Addition | Multiplication | Power | Number

  function Rank(p: Precedence): nat {
    match p
    case Relation => 0
    case Addition => 1
    case Multiplication => 2
    case Power => 3
    case Number => 4
  }

  /** `p < q` on the enum, the comparison that rendering relies on. */
  predicate Below(p: Precedence, q: Precedence) {
    Rank(p) < Rank(q)
  }

  /** The eight `BinaryExpr` subclasses. */
  datatype BinOp = PlusOp | MinusOp | MulOp | DivOp | PowOp | EquOp | LessOp | DefineOp

  datatype Expr =
    | NumberExpr(value: Number)
    | SymbolExpr(name: string)
    | NegExpr(sub: Expr)
    | FacExpr(sub: Expr)
    | BinaryExpr(op: BinOp, left: Expr, right: Expr)

  /** The precedence each `BinaryExpr` subclass passes to its base constructor. */
  function OpPrecedence(op: BinOp): (p: Precedence)
    ensures p != Number
    ensures p == Relation <==> op in {EquOp, LessOp, DefineOp}
    ensures p == Addition <==> op in {PlusOp, MinusOp}
    ensures p == Multiplication <==> op in {MulOp, DivOp}
    ensures p == Power <==> op == PowOp
  {
    match op
    case PlusOp => Addition
    case MinusOp => Addition
    case MulOp => Multiplication
    case DivOp => Multiplication
    case PowOp => Power
    case EquOp => Relation
    case LessOp => Relation
    case DefineOp => Relation
  }

  /** The operator label each `BinaryExpr` subclass stores. */
  function OpText(op: BinOp): (s: string)
    ensures 1 <= |s| <= 2
  {
    match op
    case PlusOp => "+"
    case MinusOp => "-"
    case MulOp => "*"
    case DivOp => "/"
    case PowOp => "^"
    case EquOp => "="
    case LessOp => "<"
    case DefineOp => ":="
  }

  /** `Expr::precedence()`: fixed by the node's kind when it is built.
      Leaves and the unary nodes are Number-level; only binary nodes bind
      more loosely. */
  function PrecedenceOf(e: Expr): (p: Precedence)
    ensures (p == Number) <==> !e.BinaryExpr?
    ensures e.BinaryExpr? ==> p == OpPrecedence(e.op)
  {
    match e
    case BinaryExpr(op, _, _) => OpPrecedence(op)
    case _ => Number
  }

  lemma PrecedenceIsStrictTotalOrder(p: Precedence, q: Precedence, s: Precedence)
    ensures Below(Relation, Addition) && Below(Addition, Multiplication)
    ensures Below(Multiplication, Power) && Below(Power, Number)
    ensures !Below(p, p)
    ensures Below(p, q) && Below(q, s) ==> Below(p, s)
    ensures p != q ==> Below(p, q) || Below(q, p)
  {
  }

  // ---------------------------------------------------------------------------
  // Rendering

  /** `Expr::str()`.  Number literals are formatted by `fmt` (the source's
      stream formatting of doubles).  An operand is put in parentheses
      exactly when its precedence is strictly below the node's own. */
  function Str(e: Expr, fmt: Number -> string): string {
    match e
    case NumberExpr(v) => fmt(v)
    case SymbolExpr(n) => n
    case NegExpr(x) =>
      "-" + (if Below(PrecedenceOf(x), Number) then "(" + Str(x, fmt) + ")" else Str(x, fmt))
    case FacExpr(x) =>
      (if Below(PrecedenceOf(x), Number) then "(" + Str(x, fmt) + ")" else Str(x, fmt)) + "!"
    case BinaryExpr(op, l, r) =>
      var p := OpPrecedence(op);
      (if Below(PrecedenceOf(l), p) then "(" + Str(l, fmt) + ")" else Str(l, fmt))
      + " " + OpText(op) + " " +
      (if Below(PrecedenceOf(r), p) then "(" + Str(r, fmt) + ")" else Str(r, fmt))
  }

  /** How `Str` lays out one node, stated operand by operand: a binary node
      is `L op R` with single spaces, a negation is `-` before its operand
      and a factorial `!` after it; an operand is parenthesised iff its
      precedence is strictly lower than the node's. */
  lemma StrLayout(e: Expr, fmt: Number -> string)
    ensures e.BinaryExpr? ==>
      Str(e, fmt) == Operand(e.left, OpPrecedence(e.op), fmt) + " " + OpText(e.op) + " "
                     + Operand(e.right, OpPrecedence(e.op), fmt)
    ensures e.NegExpr? ==> Str(e, fmt) == "-" + Operand(e.sub, Number, fmt)
    ensures e.FacExpr? ==> Str(e, fmt) == Operand(e.sub, Number, fmt) + "!"
  {
  }

  /** An operand as rendered inside a node of precedence `p`. */
  function Operand(x: Expr, p: Precedence, fmt: Number -> string): (s: string)
    ensures Below(PrecedenceOf(x), p) ==> s == "(" + Str(x, fmt) + ")"
    ensures !Below(PrecedenceOf(x), p) ==> s == Str(x, fmt)
  {
    if Below(PrecedenceOf(x), p) then "(" + Str(x, fmt) + ")" else Str(x, fmt)
  }

  /** Two different trees that `Str` renders identically: a right operand of
      the same precedence is not parenthesised, so `1 - (2 - 3)` and
      `(1 - 2) - 3` both become `1 - 2 - 3`, and so do any three numbers
      in place of 1, 2 and 3. */
  lemma StrLosesRightGrouping(one: Expr, two: Expr, three: Expr, fmt: Number -> string)
    requires one.NumberExpr? && two.NumberExpr? && three.NumberExpr?
    ensures var nested := BinaryExpr(MinusOp, one, BinaryExpr(MinusOp, two, three));
      var folded := BinaryExpr(MinusOp, BinaryExpr(MinusOp, one, two), three);
      nested != folded && Str(nested, fmt) == Str(folded, fmt)
  {
    var a, b, c := fmt(one.value), fmt(two.value), fmt(three.value);
    var minus := " " + OpText(MinusOp) + " ";
    var right, left := BinaryExpr(MinusOp, two, three), BinaryExpr(MinusOp, one, two);
    assert Str(right, fmt) == b + minus + c;
    assert Str(left, fmt) == a + minus + b;
    assert Str(BinaryExpr(MinusOp, one, right), fmt) == a + minus + (b + minus + c);
    assert Str(BinaryExpr(MinusOp, left, three), fmt) == (a + minus + b) + minus + c;
  }

  /** `Str` with the right operand also parenthesised when its precedence
      equals the node's, which every binary operator of the grammar needs
      because all of them fold to the left. */
  function StrGrouped(e: Expr, fmt: Number -> string): string {
    match e
    case NumberExpr(v) => fmt(v)
    case SymbolExpr(n) => n
    case NegExpr(x) =>
      "-" + (if Below(PrecedenceOf(x), Number) then "(" + StrGrouped(x, fmt) + ")" else StrGrouped(x, fmt))
    case FacExpr(x) =>
      (if Below(PrecedenceOf(x), Number) then "(" + StrGrouped(x, fmt) + ")" else StrGrouped(x, fmt)) + "!"
    case BinaryExpr(op, l, r) =>
      var p := OpPrecedence(op);
      (if Below(PrecedenceOf(l), p) then "(" + StrGrouped(l, fmt) + ")" else StrGrouped(l, fmt))
      + " " + OpText(op) + " " +
      (if !Below(p, PrecedenceOf(r)) then "(" + StrGrouped(r, fmt) + ")" else StrGrouped(r, fmt))
  }

  /** No binary node has a right operand of its own precedence: the trees
      on which `Str` and `StrGrouped` can differ are exactly the others. */
  predicate NoSameRight(e: Expr) {
    match e
    case NumberExpr(_) => true
    case SymbolExpr(_) => true
    case NegExpr(x) => NoSameRight(x)
    case FacExpr(x) => NoSameRight(x)
    case BinaryExpr(op, l, r) => PrecedenceOf(r) != OpPrecedence(op) && NoSameRight(l) && NoSameRight(r)
  }

  /** `Str` writes a tree as `StrGrouped` does exactly when no binary node
      has a right operand of its own precedence; otherwise it drops at
      least one pair of parentheses. */
  lemma {:induction false} StrIsGroupedIff(e: Expr, fmt: Number -> string)
    ensures |Str(e, fmt)| <= |StrGrouped(e, fmt)|
    ensures !NoSameRight(e) ==> |Str(e, fmt)| < |StrGrouped(e, fmt)|
    ensures Str(e, fmt) == StrGrouped(e, fmt) <==> NoSameRight(e)
  {
    match e
    case NumberExpr(_) =>
    case SymbolExpr(_) =>
    case NegExpr(x) =>
      StrIsGroupedIff(x, fmt);
    case FacExpr(x) =>
      StrIsGroupedIff(x, fmt);
    case BinaryExpr(op, l, r) =>
      StrIsGroupedIff(l, fmt);
      StrIsGroupedIff(r, fmt);
      var p := OpPrecedence(op);
      var ls := if Below(PrecedenceOf(l), p) then "(" + Str(l, fmt) + ")" else Str(l, fmt);
      var lg := if Below(PrecedenceOf(l), p) then "(" + StrGrouped(l, fmt) + ")" else StrGrouped(l, fmt);
      var rs := if Below(PrecedenceOf(r), p) then "(" + Str(r, fmt) + ")" else Str(r, fmt);
      var rg := if !Below(p, PrecedenceOf(r)) then "(" + StrGrouped(r, fmt) + ")" else StrGrouped(r, fmt);
      assert Str(e, fmt) == ls + " " + OpText(op) + " " + rs;
      assert StrGrouped(e, fmt) == lg + " " + OpText(op) + " " + rg;
      assert |ls| <= |lg| && |rs| <= |rg|;
      if PrecedenceOf(r) == p {
        assert |rs| + 2 <= |rg|;
      }
  }

  // ---------------------------------------------------------------------------
  // Construction of a definition node

  const DefineWithoutSymbol: string := "DefineExpr: no symbol found on left-hand side, but expects one"

  /** The `DefineExpr` constructor: it refuses a left operand that is not a
      `SymbolExpr`. */
  function MakeDefine(left: Expr, right: Expr): (r: Result<Expr, string>)
    ensures r.Ok? <==> left.SymbolExpr?
    ensures r.Ok? ==> r.value.BinaryExpr? && r.value.op == DefineOp
                      && r.value.left == left && r.value.right == right
    ensures r.Err? ==> r.error == DefineWithoutSymbol
  {
    if left.SymbolExpr? then Ok(BinaryExpr(DefineOp, left, right)) else Err(DefineWithoutSymbol)
  }

  /** `DefineExpr::symbolName()`: the name being defined. */
  function SymbolName(d: Expr): (name: string)
    requires d.BinaryExpr? && d.op == DefineOp && d.left.SymbolExpr?
    ensures d.left == SymbolExpr(name)
  {
    d.left.name
  }

  // ---------------------------------------------------------------------------
  // Structural comparison

  function Size(e: Expr): nat {
    match e
    case NumberExpr(_) => 1
    case SymbolExpr(_) => 1
    case NegExpr(x) => 1 + Size(x)
    case FacExpr(x) => 1 + Size(x)
    case BinaryExpr(_, l, r) => 1 + Size(l) + Size(r)
  }

  /** `a->compare(b)` as written.  A node matches only a node of the same
      class, and the operands are compared as `other.operand->compare(this
      operand)`.  `NegExpr` compares the other node itself (not its operand)
      against its own operand. */
  function Compare(a: Expr, b: Expr): bool
    decreases Size(a) + Size(b)
  {
    match a
    case NumberExpr(v) => b.NumberExpr? && Equal(b.value, v)
    case SymbolExpr(n) => b.SymbolExpr? && b.name == n
    case NegExpr(x) => b.NegExpr? && Compare(b, x)
    case FacExpr(x) => b.FacExpr? && Compare(b.sub, x)
    case BinaryExpr(op, l, r) =>
      b.BinaryExpr? && b.op == op && Compare(b.left, l) && Compare(b.right, r)
  }

  /** As written, a negation never compares equal to anything, itself included. */
  lemma {:induction false} NegCompareIsFalse(x: Expr, b: Expr)
    ensures !Compare(NegExpr(x), b)
    decreases Size(x) + Size(b)
  {
    if b.NegExpr? {
      match x
      case NegExpr(y) => NegCompareIsFalse(y, b.sub);
      case _ =>
    }
  }

  /** No negation and no NaN literal anywhere in the tree. */
  predicate NoNegNoNaN(e: Expr) {
    match e
    case NumberExpr(v) => v.Complex?
    case SymbolExpr(_) => true
    case NegExpr(_) => false
    case FacExpr(x) => NoNegNoNaN(x)
    case BinaryExpr(_, l, r) => NoNegNoNaN(l) && NoNegNoNaN(r)
  }

  /** When `Compare` succeeds the trees are equal. */
  lemma {:induction false} CompareIsSound(a: Expr, b: Expr)
    requires Compare(a, b)
    ensures a == b && NoNegNoNaN(a)
    decreases Size(a) + Size(b)
  {
    match a
    case NumberExpr(_) =>
    case SymbolExpr(_) =>
    case NegExpr(x) => NegCompareIsFalse(x, b);
    case FacExpr(x) => CompareIsSound(b.sub, x);
    case BinaryExpr(_, l, r) => CompareIsSound(b.left, l); CompareIsSound(b.right, r);
  }

  /** A tree compares equal to itself exactly when it holds no negation and
      no NaN literal. */
  lemma {:induction false} CompareReflexiveIff(e: Expr)
    ensures Compare(e, e) <==> NoNegNoNaN(e)
  {
    match e
    case NumberExpr(_) =>
    case SymbolExpr(_) =>
    case NegExpr(x) => NegCompareIsFalse(x, e);
    case FacExpr(x) => CompareReflexiveIff(x);
    case BinaryExpr(_, l, r) => CompareReflexiveIff(l); CompareReflexiveIff(r);
  }

  /** `compare` with `NegExpr` comparing operand against operand, as every
      other node class does. */
  function CompareFixed(a: Expr, b: Expr): bool
    decreases Size(a) + Size(b)
  {
    match a
    case NumberExpr(v) => b.NumberExpr? && Equal(b.value, v)
    case SymbolExpr(n) => b.SymbolExpr? && b.name == n
    case NegExpr(x) => b.NegExpr? && CompareFixed(b.sub, x)
    case FacExpr(x) => b.FacExpr? && CompareFixed(b.sub, x)
    case BinaryExpr(op, l, r) =>
      b.BinaryExpr? && b.op == op && CompareFixed(b.left, l) && CompareFixed(b.right, r)
  }

  /** No NaN literal anywhere in the tree. */
  predicate NoNaN(e: Expr) {
    match e
    case NumberExpr(v) => v.Complex?
    case SymbolExpr(_) => true
    case NegExpr(x) => NoNaN(x)
    case FacExpr(x) => NoNaN(x)
    case BinaryExpr(_, l, r) => NoNaN(l) && NoNaN(r)
  }

  /** With the fix, comparison is structural equality, up to NaN literals
      (which IEEE equality never matches). */
  lemma {:induction false} CompareFixedIsEquality(a: Expr, b: Expr)
    ensures CompareFixed(a, b) <==> a == b && NoNaN(a)
    decreases Size(a) + Size(b)
  {
    match a
    case NumberExpr(_) =>
    case SymbolExpr(_) =>
    case NegExpr(x) =>
      if b.NegExpr? { CompareFixedIsEquality(b.sub, x); }
    case FacExpr(x) =>
      if b.FacExpr? { CompareFixedIsEquality(b.sub, x); }
    case BinaryExpr(_, l, r) =>
      if b.BinaryExpr? { CompareFixedIsEquality(b.left, l); CompareFixedIsEquality(b.right, r); }
  }
}
