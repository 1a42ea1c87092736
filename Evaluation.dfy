/** `calculate` of every node class of `src/cmath/expr.cc`, and the two
    ways a function is called with arguments (`NativeFunction::call`,
    `CustomFunction::call`).

    A `SymbolExpr` bound to a user function evaluates that function's body
    in the same table, so a body that names its own function recurses
    without end in the source.  `Eval` therefore takes a `fuel` bound on
    such nested bodies and answers `None` when it runs out. */
module Evaluation {
  import opened Numbers
  import opened Wrappers
  import opened Ast
  import opened SymbolTables

  // ---------------------------------------------------------------------------
  // Factorial

  function Fact(k: nat): (r: nat)
    ensures r >= 1
  {
    if k == 0 then 1 else k * Fact(k - 1)
  }

  /** How many times the loop of `FacExpr::calculate` runs: the number of
      integers i >= 1 with i <= Re(n).  A NaN operand compares false. */
  function Steps(n: Number): nat {
    if n.Complex? && n.re >= 1.0 then n.re.Floor else 0
  }

  /** `Steps` counts exactly the integers 1, 2, ... that do not exceed the
      real part. */
  lemma StepsCounts(n: Number, i: int)
    requires 1 <= i
    ensures i <= Steps(n) <==> n.Complex? && i as real <= n.re
  {
  }

  /** The value `FacExpr::calculate` produces for operand `n`. */
  function FacValue(n: Number): Number {
    FromReal(Fact(Steps(n)) as real)
  }

  /** `FacExpr::calculate`: multiply `y` by 1, 2, ... while the counter's
      real part does not exceed the operand's. */
  method FacCalculate(n: Number) returns (y: Number)
    ensures y == FromReal(Fact(Steps(n)) as real)
  {
    y := FromReal(1.0);
    var i := FromReal(1.0);
    ghost var k: nat := 0;
    while i.Complex? && n.Complex? && i.re <= n.re
      invariant i == FromReal((k + 1) as real)
      invariant y == FromReal(Fact(k) as real)
      invariant k <= Steps(n)
      decreases Steps(n) - k
    {
      assert (Fact(k) * (k + 1)) as real == Fact(k) as real * (k + 1) as real;
      y := Mul(y, i);
      i := Add(i, FromReal(1.0));
      k := k + 1;
    }
  }

  /** 0! = 1 and 5! = 120; an operand below 1 (or NaN) gives 1, a
      fractional one is cut down, and the imaginary part is ignored. */
  lemma FactorialExamples()
    ensures FacValue(FromReal(0.0)) == FromReal(1.0)
    ensures FacValue(FromReal(5.0)) == FromReal(120.0)
    ensures FacValue(FromReal(-3.0)) == FromReal(1.0)
    ensures FacValue(NaN) == FromReal(1.0)
    ensures FacValue(Complex(3.5, 7.0)) == FromReal(6.0)
  {
    assert Steps(FromReal(5.0)) == 5;
    assert Steps(Complex(3.5, 7.0)) == 3;
  }

  // ---------------------------------------------------------------------------
  // Binary operators

  /** `PowExpr::calculate`: `exp(b)` when the base is exactly the real
      number `M_E`, `pow(a, b)` otherwise. */
  function PowValue(lib: Numerics, a: Number, b: Number): (r: Number)
    ensures a == FromReal(EulerE) ==> r == lib.exp(b)
    ensures a != FromReal(EulerE) ==> r == lib.pow(a, b)
  {
    if a.Complex? && a.im == 0.0 && a.re == EulerE then lib.exp(b) else lib.pow(a, b)
  }

  /** `LessExpr::calculate`: the left value when both are real and it is
      the smaller, otherwise the NaN sentinel. */
  function LessValue(a: Number, b: Number): (r: Number)
    ensures r != NaN <==> a.Complex? && b.Complex? && a.im == 0.0 && b.im == 0.0 && a.re < b.re
    ensures r != NaN ==> r == a
  {
    if a.Complex? && b.Complex? && a.im == 0.0 && b.im == 0.0 && a.re < b.re then a else NaN
  }

  /** `EquExpr::calculate`: the left value when both are equal, otherwise
      the NaN sentinel. */
  function EquValue(a: Number, b: Number): (r: Number)
    ensures r != NaN <==> Equal(a, b)
    ensures r != NaN ==> r == a && r == b
  {
    if Equal(a, b) then a else NaN
  }

  /** `DefineExpr::calculate`: 1 when both sides are equal, 0 otherwise. */
  function DefineValue(a: Number, b: Number): (r: Number)
    ensures r == FromReal(1.0) <==> Equal(a, b)
    ensures r == FromReal(0.0) <==> !Equal(a, b)
  {
    if Equal(a, b) then FromReal(1.0) else FromReal(0.0)
  }

  function Apply(op: BinOp, lib: Numerics, a: Number, b: Number): Number {
    match op
    case PlusOp => Add(a, b)
    case MinusOp => Sub(a, b)
    case MulOp => Mul(a, b)
    case DivOp => Div(a, b)
    case PowOp => PowValue(lib, a, b)
    case EquOp => EquValue(a, b)
    case LessOp => LessValue(a, b)
    case DefineOp => DefineValue(a, b)
  }

  // ---------------------------------------------------------------------------
  // Evaluation

  /** `calculate(t)` of a node. */
  function Eval(e: Expr, s: Scope, lib: Numerics, fuel: nat): Option<Number>
    decreases fuel, Size(e)
  {
    match e
    case NumberExpr(v) => Some(v)
    case SymbolExpr(name) =>
      (match s.Lookup(name)
       case None => Some(FromReal(0.0))
       case Some(d) => Calculate(d, s, lib, fuel))
    case NegExpr(x) =>
      (match Eval(x, s, lib, fuel)
       case None => None
       case Some(v) => Some(Neg(v)))
    case FacExpr(x) =>
      (match Eval(x, s, lib, fuel)
       case None => None
       case Some(v) => Some(FacValue(v)))
    case BinaryExpr(op, l, r) =>
      (match Eval(l, s, lib, fuel)
       case None => None
       case Some(a) =>
         (match Eval(r, s, lib, fuel)
          case None => None
          case Some(b) => Some(Apply(op, lib, a, b))))
  }

  /** `calculate(t)` of a binding found by a `SymbolExpr`: a constant's
      value, a native function applied to the `x` of the current table, or
      a user function's body evaluated in the current table. */
  function Calculate(d: Definition, s: Scope, lib: Numerics, fuel: nat): Option<Number>
    decreases fuel, 0
  {
    match d
    case Constant(v) => Some(v)
    case NativeFunction(_, impl) => Some(impl(s.GetNumber("x")))
    case CustomFunction(_, _, body) => if fuel == 0 then None else Eval(body, s, lib, fuel - 1)
  }

  /** A symbol that no table binds evaluates to 0; a constant to its value. */
  lemma SymbolValue(name: string, s: Scope, lib: Numerics, fuel: nat)
    ensures s.Lookup(name).None? ==> Eval(SymbolExpr(name), s, lib, fuel) == Some(FromReal(0.0))
    ensures s.Lookup(name).Some? && s.Lookup(name).value.Constant? ==>
      Eval(SymbolExpr(name), s, lib, fuel) == Some(s.GetNumber(name))
  {
  }

  /** More fuel never changes a result that was reached. */
  lemma {:induction false} EvalFuelMonotone(e: Expr, s: Scope, lib: Numerics, fuel: nat, more: nat)
    requires fuel <= more && Eval(e, s, lib, fuel).Some?
    ensures Eval(e, s, lib, more) == Eval(e, s, lib, fuel)
    decreases fuel, Size(e)
  {
    match e
    case NumberExpr(_) =>
    case SymbolExpr(name) =>
      if s.Lookup(name).Some? && s.Lookup(name).value.CustomFunction? {
        EvalFuelMonotone(s.Lookup(name).value.body, s, lib, fuel - 1, more - 1);
      }
    case NegExpr(x) => EvalFuelMonotone(x, s, lib, fuel, more);
    case FacExpr(x) => EvalFuelMonotone(x, s, lib, fuel, more);
    case BinaryExpr(_, l, r) =>
      EvalFuelMonotone(l, s, lib, fuel, more);
      EvalFuelMonotone(r, s, lib, fuel, more);
  }

  /** No user function anywhere in the chain. */
  predicate NoCustom(s: Scope) {
    (forall name :: name in s.symbols ==> !s.symbols[name].CustomFunction?) &&
    (s.outer.Some? ==> NoCustom(s.outer.value))
  }

  lemma {:induction false} NoCustomLookup(s: Scope, name: string)
    requires NoCustom(s)
    ensures s.Lookup(name).Some? ==> !s.Lookup(name).value.CustomFunction?
    decreases s
  {
    if name !in s.symbols && s.outer.Some? {
      NoCustomLookup(s.outer.value, name);
    }
  }

  /** Evaluation never fails: without user functions in scope every tree
      yields a Number, NaN standing for the undefined results. */
  lemma {:induction false} EvalTotalWithoutCustom(e: Expr, s: Scope, lib: Numerics)
    requires NoCustom(s)
    ensures Eval(e, s, lib, 0).Some?
  {
    match e
    case NumberExpr(_) =>
    case SymbolExpr(name) => NoCustomLookup(s, name);
    case NegExpr(x) => EvalTotalWithoutCustom(x, s, lib);
    case FacExpr(x) => EvalTotalWithoutCustom(x, s, lib);
    case BinaryExpr(_, l, r) =>
      EvalTotalWithoutCustom(l, s, lib);
      EvalTotalWithoutCustom(r, s, lib);
  }

  /** `x < x` is never true, and `a < b` and `a = b` never both hold. */
  lemma LessSentinels(l: Expr, r: Expr, s: Scope, lib: Numerics, fuel: nat)
    requires Eval(l, s, lib, fuel).Some? && Eval(r, s, lib, fuel).Some?
    ensures Eval(BinaryExpr(LessOp, l, l), s, lib, fuel) == Some(NaN)
    ensures Eval(BinaryExpr(LessOp, l, r), s, lib, fuel) == Some(NaN) ||
            Eval(BinaryExpr(EquOp, l, r), s, lib, fuel) == Some(NaN)
  {
  }

  /** `e ^ x` with `e` bound to `M_E` gives what the native `exp` bound in
      the same table gives for `x`. */
  lemma EulerShortcut(s: Scope, lib: Numerics, fuel: nat)
    requires s.Lookup("e") == Some(Constant(FromReal(EulerE)))
    requires s.Lookup("exp").Some? && s.Lookup("exp").value.NativeFunction?
    requires s.Lookup("exp").value.impl == lib.exp
    requires s.Lookup("x").Some? && s.Lookup("x").value.Constant?
    ensures Eval(BinaryExpr(PowOp, SymbolExpr("e"), SymbolExpr("x")), s, lib, fuel)
         == Eval(SymbolExpr("exp"), s, lib, fuel)
  {
    var v := s.GetNumber("x");
    assert Eval(SymbolExpr("e"), s, lib, fuel) == Some(FromReal(EulerE));
    assert Eval(SymbolExpr("x"), s, lib, fuel) == Some(v);
    assert Eval(SymbolExpr("exp"), s, lib, fuel) == Some(lib.exp(v));
  }

  /** A definition node evaluates to 1 exactly when the symbol's current
      value equals the right-hand side's, and reads the table only. */
  lemma DefineCompares(name: string, r: Expr, s: Scope, lib: Numerics, fuel: nat)
    requires Eval(r, s, lib, fuel).Some?
    requires s.Lookup(name).Some? && s.Lookup(name).value.Constant?
    ensures var v := s.GetNumber(name);
            var w := Eval(r, s, lib, fuel).value;
            Eval(BinaryExpr(DefineOp, SymbolExpr(name), r), s, lib, fuel)
              == Some(if Equal(v, w) then FromReal(1.0) else FromReal(0.0))
  {
    assert Eval(SymbolExpr(name), s, lib, fuel) == Some(s.GetNumber(name));
  }

  // ---------------------------------------------------------------------------
  // Calls

  /** The bindings `CustomFunction::call` makes in its fresh table: parameter
      i to argument i, one after the other. */
  function BindParams(params: seq<string>, inputs: seq<Number>): map<string, Definition>
    requires |params| <= |inputs|
  {
    if params == [] then map[]
    else BindParams(params[..|params| - 1], inputs)[params[|params| - 1] := Constant(inputs[|params| - 1])]
  }

  /** The table a user function's body is evaluated in. */
  function CallScope(params: seq<string>, inputs: seq<Number>, caller: Scope): Scope
    requires |params| <= |inputs|
  {
    Scope(BindParams(params, inputs), Some(caller))
  }

  /** A parameter is bound to the argument at its last position; nothing
      else is bound. */
  lemma {:induction false} BindParamsAt(params: seq<string>, inputs: seq<Number>, name: string)
    requires |params| <= |inputs|
    ensures name in BindParams(params, inputs) <==> name in params
    ensures forall k :: 0 <= k < |params| && params[k] == name && name !in params[k + 1..] ==>
      BindParams(params, inputs)[name] == Constant(inputs[k])
  {
    if params != [] {
      var n := |params| - 1;
      BindParamsAt(params[..n], inputs, name);
      assert params == params[..n] + [params[n]];
      forall k | 0 <= k < |params| && params[k] == name && name !in params[k + 1..]
        ensures BindParams(params, inputs)[name] == Constant(inputs[k])
      {
        if k < n {
          assert params[n] in params[k + 1..];
          assert params[k + 1..n] + [params[n]] == params[k + 1..];
          assert params[..n][k + 1..] == params[k + 1..n];
        }
      }
    }
  }

  /** In the call's table, a parameter resolves to its argument and any
      other name resolves as in the caller's table. */
  lemma CallBindsParameters(params: seq<string>, inputs: seq<Number>, caller: Scope, name: string)
    requires |params| <= |inputs|
    ensures forall k :: 0 <= k < |params| && params[k] == name && name !in params[k + 1..] ==>
      CallScope(params, inputs, caller).Lookup(name) == Some(Constant(inputs[k]))
    ensures name !in params ==> CallScope(params, inputs, caller).Lookup(name) == caller.Lookup(name)
  {
    BindParamsAt(params, inputs, name);
  }

  /** `f(x) = x + a` with `a = 10` in the caller's table gives 15 for
      `f(5)`. */
  lemma CallExample(lib: Numerics)
    ensures var caller := Scope(map["a" := Constant(FromReal(10.0))], None);
      var body := BinaryExpr(PlusOp, SymbolExpr("x"), SymbolExpr("a"));
      Eval(body, CallScope(["x"], [FromReal(5.0)], caller), lib, 0) == Some(FromReal(15.0))
  {
    var caller := Scope(map["a" := Constant(FromReal(10.0))], None);
    CallBindsParameters(["x"], [FromReal(5.0)], caller, "x");
    CallBindsParameters(["x"], [FromReal(5.0)], caller, "a");
  }

  /** `CustomFunction::call`: a fresh table nested in the caller's, one
      constant per parameter, then the body evaluated there.  The caller's
      table is only read. */
  method CallCustom(f: Definition, t: SymbolTable, inputs: seq<Number>, lib: Numerics, fuel: nat)
    returns (r: Option<Number>)
    requires f.CustomFunction? && t.Valid() && |f.params| <= |inputs|
    ensures r == Eval(f.body, CallScope(f.params, inputs, t.View()), lib, fuel)
  {
    var st := new SymbolTable.Nested(t);
    var i := 0;
    while i != |f.params|
      invariant 0 <= i <= |f.params|
      invariant fresh(st) && st.Valid() && st.Repr == {st} + t.Repr
      invariant st.View() == Scope(BindParams(f.params[..i], inputs), Some(t.View()))
    {
      assert f.params[..i + 1][..i] == f.params[..i];
      st.DefineConstant(f.params[i], inputs[i]);
      i := i + 1;
    }
    assert f.params[..i] == f.params;
    r := Eval(f.body, st.View(), lib, fuel);
  }

  /** `NativeFunction::call`: a fresh table binding `x` to the first
      argument, then the native function applied to `x`. */
  method CallNative(f: Definition, t: SymbolTable, inputs: seq<Number>) returns (r: Number)
    requires f.NativeFunction? && t.Valid() && |inputs| >= 1
    ensures r == f.impl(inputs[0])
  {
    var st := new SymbolTable.Nested(t);
    st.DefineConstant("x", inputs[0]);
    var x := st.GetNumber("x");
    r := f.impl(x);
  }
}
