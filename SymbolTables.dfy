/** The scoped symbol table of `src/cmath/expr.cc`.  A table owns a map from
    names to definitions and points, read-only, at an optional outer table;
    lookups go innermost first.  `Scope` is the value such a chain denotes,
    and `SymbolTable` is the mutable object the source works with. */
module SymbolTables {
  import opened Numbers
  import opened Wrappers
  import opened Ast

  /** What a name is bound to: a constant (stored as a `NumberExpr`), a
      native unary function or a user-defined function with parameters and
      a body. */
  datatype Definition =
    | Constant(value: Number)
    | NativeFunction(name: string, impl: Number -> Number)
    | CustomFunction(name: string, params: seq<string>, body: Expr)

  /** The textual form of a binding (`NumberExpr::str`, `NativeFunction::str`,
      `CustomFunction::str`); the parameters are separated by ", ", and a
      body is rendered by `Str`, as `expr_->str()` writes it. */
  function DefinitionStr(d: Definition, fmt: Number -> string): string {
    match d
    case Constant(v) => fmt(v)
    case NativeFunction(name, _) => name + "(x) = native"
    case CustomFunction(name, params, body) => name + "(" + Join(params) + ") = " + Str(body, fmt)
  }

  /** The parameter list as `CustomFunction::str` writes it. */
  function Join(names: seq<string>): string {
    if names == [] then []
    else if |names| == 1 then names[0]
    else Join(names[..|names| - 1]) + ", " + names[|names| - 1]
  }

  /** With one-letter names, as the parser produces them, the list is the
      names at every third position with ", " between them. */
  lemma {:induction false} JoinLetters(names: seq<string>)
    requires forall k :: 0 <= k < |names| ==> |names[k]| == 1
    ensures |Join(names)| == if names == [] then 0 else 3 * |names| - 2
    ensures forall i :: 0 <= i < |Join(names)| ==>
      (i % 3 == 0 ==> Join(names)[i] == names[i / 3][0]) &&
      (i % 3 == 1 ==> Join(names)[i] == ',') &&
      (i % 3 == 2 ==> Join(names)[i] == ' ')
  {
    if |names| > 1 {
      var n := |names| - 1;
      var front := names[..n];
      JoinLetters(front);
      var a := Join(front);
      var s := Join(names);
      assert s == a + ", " + names[n];
      assert |a| == 3 * n - 2;
      forall i | 0 <= i < |s|
        ensures (i % 3 == 0 ==> s[i] == names[i / 3][0]) && (i % 3 == 1 ==> s[i] == ',') &&
                (i % 3 == 2 ==> s[i] == ' ')
      {
        if i < |a| {
          assert s[i] == a[i];
          if i % 3 == 0 {
            assert front[i / 3] == names[i / 3];
          }
        } else if i == |a| {
          assert i % 3 == 1;
        } else if i == |a| + 1 {
          assert i % 3 == 2;
        } else {
          assert i == 3 * n && i % 3 == 0 && i / 3 == n;
        }
      }
    }
  }

  /** The text of a user function with one-letter parameters: its name,
      then parameter k right after the `(` at offset 3k, then `) = ` and
      the body's rendering. */
  lemma CustomFunctionText(d: Definition, fmt: Number -> string)
    requires d.CustomFunction? && forall k :: 0 <= k < |d.params| ==> |d.params[k]| == 1
    ensures var s, m := DefinitionStr(d, fmt), |d.name| + 1;
      var j := m + (if d.params == [] then 0 else 3 * |d.params| - 2);
      j + 4 <= |s| && s[..m] == d.name + "(" && s[j..j + 4] == ") = " &&
      s[j + 4..] == Str(d.body, fmt) &&
      forall k :: 0 <= k < |d.params| ==> s[m + 3 * k] == d.params[k][0]
  {
    JoinLetters(d.params);
    var s, m, p := DefinitionStr(d, fmt), |d.name| + 1, Join(d.params);
    var j := m + |p|;
    assert s == (d.name + "(") + p + ") = " + Str(d.body, fmt);
    forall k | 0 <= k < |d.params| ensures s[m + 3 * k] == d.params[k][0] {
      assert s[m + 3 * k] == p[3 * k];
      assert (3 * k) % 3 == 0 && (3 * k) / 3 == k;
    }
  }

  /** `compare` between two bindings: constants compare their values, and
      functions of the same kind compare by name only. */
  predicate CompareDefinitions(a: Definition, b: Definition) {
    match a
    case Constant(v) => b.Constant? && Equal(b.value, v)
    case NativeFunction(name, _) => b.NativeFunction? && b.name == name
    case CustomFunction(name, _, _) => b.CustomFunction? && b.name == name
  }

  /** Two user functions with the same name compare equal whatever their
      parameters and bodies. */
  lemma FunctionsCompareByName(a: Definition, b: Definition)
    requires a.CustomFunction? && b.CustomFunction?
    ensures CompareDefinitions(a, b) <==> a.name == b.name
  {
  }

  /** The chain of tables a lookup walks, as a value. */
  datatype Scope = Scope(symbols: map<string, Definition>, outer: Option<Scope>) {

    /** `SymbolTable::lookupSymbol`: the binding of the innermost table that
        has `name`, or `None` (the null pointer). */
    function Lookup(name: string): (r: Option<Definition>)
      ensures name in symbols ==> r == Some(symbols[name])
      ensures name !in symbols && outer.None? ==> r.None?
    {
      if name in symbols then Some(symbols[name])
      else if outer.Some? then outer.value.Lookup(name)
      else None
    }

    /** `SymbolTable::getNumber`: the value of a constant, NaN for a missing
        name or a name bound to a function. */
    function GetNumber(name: string): (r: Number)
      ensures Lookup(name).Some? && Lookup(name).value.Constant? ==> r == Lookup(name).value.value
      ensures Lookup(name).None? || !Lookup(name).value.Constant? ==> r == NaN
    {
      match Lookup(name)
      case Some(Constant(v)) => v
      case _ => NaN
    }

    /** The maps of the chain, innermost first. */
    function Frames(): (fs: seq<map<string, Definition>>)
      ensures |fs| >= 1 && fs[0] == symbols
    {
      [symbols] + (if outer.Some? then outer.value.Frames() else [])
    }

    /** `defineConstant` / `defineFunction` on this table: the binding is
        created or replaced here and the outer tables are untouched. */
    function Define(name: string, d: Definition): (s: Scope)
      ensures s.outer == outer && s.symbols == symbols[name := d]
    {
      this.(symbols := symbols[name := d])
    }
  }

  /** A name resolves to its binding in the first frame, innermost first,
      that holds it. */
  lemma {:induction false} LookupFindsInnermost(s: Scope, name: string, k: nat)
    requires k < |s.Frames()| && name in s.Frames()[k]
    requires forall j :: 0 <= j < k ==> name !in s.Frames()[j]
    ensures s.Lookup(name) == Some(s.Frames()[k][name])
    decreases s
  {
    if k > 0 {
      assert name !in s.Frames()[0];
      var o := s.outer.value;
      forall j | 0 <= j < k - 1 ensures name !in o.Frames()[j] {
        assert o.Frames()[j] == s.Frames()[j + 1];
      }
      assert o.Frames()[k - 1] == s.Frames()[k];
      LookupFindsInnermost(o, name, k - 1);
    }
  }

  /** A name that no frame holds does not resolve, and conversely. */
  lemma {:induction false} LookupMissingIff(s: Scope, name: string)
    ensures s.Lookup(name).None? <==> forall k :: 0 <= k < |s.Frames()| ==> name !in s.Frames()[k]
    decreases s
  {
    if s.outer.Some? && name !in s.symbols {
      var o := s.outer.value;
      LookupMissingIff(o, name);
      var fs := s.Frames();
      assert fs == [s.symbols] + o.Frames();
      if o.Lookup(name).None? {
        forall k | 0 <= k < |fs| ensures name !in fs[k] {
          if k > 0 { assert fs[k] == o.Frames()[k - 1]; }
        }
      } else {
        var k :| 0 <= k < |o.Frames()| && name in o.Frames()[k];
        assert fs[k + 1] == o.Frames()[k];
      }
    } else if name in s.symbols {
      assert name in s.Frames()[0];
    } else {
      assert s.Frames() == [s.symbols];
    }
  }

  /** After a definition on a table, the name resolves to the new binding
      there and every other name resolves as before. */
  lemma DefineShadows(s: Scope, name: string, d: Definition, other: string)
    ensures s.Define(name, d).Lookup(name) == Some(d)
    ensures other != name ==> s.Define(name, d).Lookup(other) == s.Lookup(other)
  {
  }

  /** A binding in an inner table hides a binding of the same name further
      out. */
  lemma InnerHidesOuter(inner: map<string, Definition>, outer: Scope, name: string)
    requires name in inner
    ensures Scope(inner, Some(outer)).Lookup(name) == Some(inner[name])
  {
  }

  /** `SymbolTable`: a map the owner updates in place, and a constant pointer
      to the table it is nested in.  `Repr` is the chain of tables this one
      reads through. */
  class SymbolTable {
    var symbols: map<string, Definition>
    const outer: SymbolTable?
    ghost const Repr: set<object>

    ghost predicate Valid()
      reads this, Repr
      decreases Repr
    {
      this in Repr &&
      (outer != null ==>
        outer in Repr && outer.Repr <= Repr && this !in outer.Repr && outer.Valid())
    }

    /** The chain this table denotes. */
    function View(): Scope
      reads this, Repr
      requires Valid()
      decreases Repr
    {
      Scope(symbols, if outer == null then None else Some(outer.View()))
    }

    /** `SymbolTable()`: an empty root table. */
    constructor ()
      ensures Valid() && fresh(this) && Repr == {this}
      ensures View() == Scope(map[], None)
    {
      symbols := map[];
      outer := null;
      Repr := {this};
    }

    /** `SymbolTable(outerScope)`: an empty table nested in `outerScope`. */
    constructor Nested(outerScope: SymbolTable)
      requires outerScope.Valid()
      ensures Valid() && outer == outerScope && Repr == {this} + outerScope.Repr
      ensures View() == Scope(map[], Some(outerScope.View()))
    {
      symbols := map[];
      outer := outerScope;
      Repr := {this} + outerScope.Repr;
    }

    /** `defineConstant`: bind `name` to a `NumberExpr` in this table only. */
    method DefineConstant(name: string, value: Number)
      requires Valid()
      modifies this
      ensures Valid() && symbols == old(symbols)[name := Constant(value)]
      ensures View() == old(View()).Define(name, Constant(value))
    {
      symbols := symbols[name := Constant(value)];
    }

    /** `defineFunction` for a native unary function. */
    method DefineNativeFunction(name: string, impl: Number -> Number)
      requires Valid()
      modifies this
      ensures Valid() && symbols == old(symbols)[name := NativeFunction(name, impl)]
      ensures View() == old(View()).Define(name, NativeFunction(name, impl))
    {
      symbols := symbols[name := NativeFunction(name, impl)];
    }

    /** `defineFunction` for a user function with parameters and a body. */
    method DefineCustomFunction(name: string, params: seq<string>, body: Expr)
      requires Valid()
      modifies this
      ensures Valid() && symbols == old(symbols)[name := CustomFunction(name, params, body)]
      ensures View() == old(View()).Define(name, CustomFunction(name, params, body))
    {
      symbols := symbols[name := CustomFunction(name, params, body)];
    }

    /** `lookupSymbol`: this table's binding, else the outer chain's. */
    method LookupSymbol(name: string) returns (r: Option<Definition>)
      requires Valid()
      ensures r == View().Lookup(name)
      decreases Repr
    {
      if name in symbols {
        r := Some(symbols[name]);
      } else if outer != null {
        r := outer.LookupSymbol(name);
      } else {
        r := None;
      }
    }

    /** `getNumber`: the constant bound to `name`, or NaN. */
    method GetNumber(name: string) returns (r: Number)
      requires Valid()
      ensures r == View().GetNumber(name)
    {
      var d := LookupSymbol(name);
      if d.Some? && d.value.Constant? {
        r := d.value.value;
      } else {
        r := NaN;
      }
    }
  }
}
