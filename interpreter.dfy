/** The evaluator and the builtins as the C code runs them: children are
    replaced in place, popped one at a time, appended one at a time, and the
    arithmetic accumulates into the first number. Each method is proved to
    compute the function of `Semantics` or `Builtins` that states what it
    means.

    A builtin takes ownership of its argument container `a`: on return the
    container has been consumed (relabelled, emptied or discarded) and only
    the returned value matters.
 */
module Interpreter {
  import opened Values
  import opened Cells
  import Builtins
  import Semantics

  /** `lval_eval`. */
  method Eval(v: Value) returns (r: Value)
    ensures r == Semantics.Eval(v)
    decreases Size(v), 0
  {
    if v.SExpr? {
      var e := new Expr.Of(SKind, v.cells);
      r := SExprEval(e);
    } else {
      r := v;
    }
  }

  /** The first loop of `lval_sexpr_eval`: `v->cell[i] = lval_eval(v->cell[i])`. */
  method EvalChildren(e: Expr)
    requires e.Valid()
    modifies e.cell
    ensures e.Valid()
    ensures e.Contents() == Semantics.EvalCells(old(e.Contents()))
    decreases SizeCells(e.Contents()), 2
  {
    ghost var cs := e.Contents();
    for i := 0 to e.count
      invariant e.Valid()
      invariant forall j :: 0 <= j < i ==> e.cell[j] == Semantics.Eval(cs[j])
      invariant forall j :: i <= j < e.count ==> e.cell[j] == cs[j]
    {
      SizeCellsElem(cs, i);
      var c := Eval(e.cell[i]);
      e.cell[i] := c;
    }
    forall j | 0 <= j < |cs|
      ensures e.Contents()[j] == Semantics.EvalCells(cs)[j]
    {
      Semantics.EvalCellsAt(cs, j);
    }
  }

  /** `lval_sexpr_eval`. */
  method SExprEval(e: Expr) returns (r: Value)
    requires e.Valid() && e.kind == SKind
    modifies e, e.cell
    ensures r == Semantics.SExprEval(old(e.Contents()))
    decreases SizeCells(e.Contents()), 3
  {
    ghost var cs := e.Contents();
    EvalChildren(e);
    ghost var es := e.Contents();
    var i := 0;
    while i < e.count && !e.cell[i].Err?
      invariant 0 <= i <= e.count
      invariant forall j :: 0 <= j < i ==> !es[j].Err?
    {
      i := i + 1;
    }
    if i < e.count {
      assert Semantics.FirstError(es) == i;
      r := e.Take(i);
      return;
    }
    assert Semantics.FirstError(es) == |es|;
    if e.count == 0 {
      return e.ToValue();
    }
    if e.count == 1 {
      r := e.Take(0);
      return;
    }
    var f := e.Pop(0);
    assert es[..0] + es[1..] == es[1..];
    if !f.Sym? {
      return Err("S-expression Does not start with symbol!");
    }
    SizePositive(es[0]);
    assert SizeCells(es) == Size(es[0]) + SizeCells(es[1..]);
    r := Builtin(e, f.name);
    assert r == Semantics.Builtin(es[0].name, es[1..]);
  }

  /** `builtin`: dispatch by name. */
  method Builtin(a: Expr, f: string) returns (r: Value)
    requires a.Valid() && a.count >= 1
    modifies a
    ensures r == Semantics.Builtin(f, old(a.Contents()))
    decreases SizeCells(a.Contents()), 2
  {
    if f == "list" {
      r := BuiltinList(a);
    } else if f == "head" {
      r := BuiltinHead(a);
    } else if f == "tail" {
      r := BuiltinTail(a);
    } else if f == "join" {
      r := BuiltinJoin(a);
    } else if f == "eval" {
      r := BuiltinEval(a);
    } else if Contains("+-/*", f) {
      r := BuiltinOp(a, f);
    } else {
      r := Err("Unknown Function!");
    }
  }

  /** `builtin_eval`: take the one Q-expression, relabel it as an
      S-expression and evaluate it. */
  method BuiltinEval(a: Expr) returns (r: Value)
    requires a.Valid()
    modifies a
    ensures r == Semantics.BuiltinEval(old(a.Contents()))
    decreases SizeCells(a.Contents()), 1
  {
    if a.count != 1 {
      return Err("Function 'eval' passed too many arguments!");
    }
    if !a.cell[0].QExpr? {
      return Err("Function 'eval' passed incorrect type!");
    }
    assert SizeCells(a.Contents()) == Size(a.Contents()[0]);
    var x := a.Take(0);
    r := Eval(SExpr(x.cells));
  }

  /** `builtin_list`: the argument container relabelled in place. */
  method BuiltinList(a: Expr) returns (r: Value)
    requires a.Valid()
    modifies a
    ensures r == Builtins.List(old(a.Contents()))
  {
    a.kind := QKind;
    r := a.ToValue();
  }

  /** `builtin_head`: take the list and pop its elements from position 1
      until only the first is left. */
  method BuiltinHead(a: Expr) returns (r: Value)
    requires a.Valid()
    modifies a
    ensures r == Builtins.Head(old(a.Contents()))
  {
    var res := Builtins.HeadTailHelper(a.Contents());
    if res.Err? {
      return res;
    }
    var q := a.Take(0);
    var v := new Expr.Of(QKind, q.cells);
    while v.count > 1
      invariant v.Valid() && v.kind == QKind
      invariant 1 <= v.count && v.Contents()[0] == q.cells[0]
      decreases v.count
    {
      var dropped := v.Pop(1);
    }
    assert v.Contents() == [q.cells[0]];
    r := v.ToValue();
  }

  /** `builtin_tail`: take the list and pop its first element. */
  method BuiltinTail(a: Expr) returns (r: Value)
    requires a.Valid()
    modifies a
    ensures r == Builtins.Tail(old(a.Contents()))
  {
    var res := Builtins.HeadTailHelper(a.Contents());
    if res.Err? {
      return res;
    }
    var q := a.Take(0);
    var v := new Expr.Of(QKind, q.cells);
    var dropped := v.Pop(0);
    r := v.ToValue();
  }

  /** `lval_join`: move every element of `y`, front first, to the end of `x`. */
  method Join(x: Expr, y: Expr)
    requires x.Valid() && y.Valid() && x != y
    modifies x, y
    ensures x.Valid() && x.kind == old(x.kind)
    ensures x.Contents() == old(x.Contents()) + old(y.Contents())
  {
    ghost var xs, ys := x.Contents(), y.Contents();
    ghost var k := 0;
    while y.count > 0
      invariant x.Valid() && y.Valid() && x.kind == old(x.kind)
      invariant 0 <= k <= |ys| && y.count == |ys| - k
      invariant x.Contents() == xs + ys[..k] && y.Contents() == ys[k..]
      decreases y.count
    {
      var c := y.Pop(0);
      assert c == ys[k] && y.Contents() == ys[k + 1..];
      x.Add(c);
      assert ys[..k + 1] == ys[..k] + [c];
      k := k + 1;
    }
    assert ys[..k] == ys;
  }

  /** `builtin_join`: check every argument, then pop the first and join the
      others onto it one at a time. */
  method BuiltinJoin(a: Expr) returns (r: Value)
    requires a.Valid() && a.count >= 1
    modifies a
    ensures r == Builtins.Join(old(a.Contents()))
  {
    ghost var args := a.Contents();
    for i := 0 to a.count
      invariant forall j :: 0 <= j < i ==> a.cell[j].QExpr?
    {
      if !a.cell[i].QExpr? {
        return Err("Function 'join' passed incorrect type");
      }
    }
    assert Builtins.AllQExpr(args);
    var first := a.Pop(0);
    assert a.Contents() == args[1..];
    var x := new Expr.Of(QKind, first.cells);
    JoinAll(x, a);
    r := x.ToValue();
  }

  /** The loop of `builtin_join`: pop each remaining list, front first, and
      join it onto `x`. */
  method JoinAll(x: Expr, a: Expr)
    requires x.Valid() && a.Valid() && x != a
    requires Builtins.AllQExpr(a.Contents())
    modifies x, a
    ensures x.Valid() && x.kind == old(x.kind)
    ensures x.Contents() == old(x.Contents()) + Builtins.Concat(old(a.Contents()))
  {
    ghost var target := x.Contents() + Builtins.Concat(a.Contents());
    while a.count > 0
      invariant x.Valid() && a.Valid() && x.kind == old(x.kind)
      invariant Builtins.AllQExpr(a.Contents())
      invariant x.Contents() + Builtins.Concat(a.Contents()) == target
      decreases a.count
    {
      ghost var xs, rest := x.Contents(), a.Contents();
      JoinNext(x, a);
      ConcatCons(xs, rest);
    }
  }

  /** Moving the first remaining list onto the result keeps the total. */
  lemma ConcatCons(xs: seq<Value>, rest: seq<Value>)
    requires rest != [] && Builtins.AllQExpr(rest)
    ensures Builtins.AllQExpr(rest[1..])
    ensures (xs + rest[0].cells) + Builtins.Concat(rest[1..]) == xs + Builtins.Concat(rest)
  {
    assert forall i :: 0 <= i < |rest[1..]| ==> rest[1..][i] == rest[i + 1];
  }

  /** One turn of that loop: `lval_join(x, lval_pop(a, 0))`. */
  method JoinNext(x: Expr, a: Expr)
    requires x.Valid() && a.Valid() && x != a
    requires a.count > 0 && a.Contents()[0].QExpr?
    modifies x, a
    ensures x.Valid() && a.Valid() && x.kind == old(x.kind)
    ensures a.count == old(a.count) - 1
    ensures a.Contents() == old(a.Contents())[1..]
    ensures x.Contents() == old(x.Contents()) + old(a.Contents())[0].cells
  {
    var yv := a.Pop(0);
    var y := new Expr.Of(QKind, yv.cells);
    Join(x, y);
  }

  /** `builtin_op`: check every argument, pop the first number as the
      accumulator, negate it for a lone `-`, then fold the others into it. */
  method BuiltinOp(a: Expr, op: string) returns (r: Value)
    requires a.Valid() && a.count >= 1
    modifies a
    ensures r == Builtins.Op(op, old(a.Contents()))
  {
    ghost var args := a.Contents();
    for i := 0 to a.count
      invariant forall j :: 0 <= j < i ==> a.cell[j].Num?
    {
      if !a.cell[i].Num? {
        return Err("Cannot operate on non-number!");
      }
    }
    assert Builtins.AllNum(args);
    var x := a.Pop(0);
    assert args[..0] + args[1..] == args[1..];
    var acc := x.n;
    if op == "-" && a.count == 0 {
      acc := -acc;
    }
    while a.count > 0
      invariant a.Valid() && Builtins.AllNum(a.Contents())
      invariant Builtins.OpFold(op, acc, a.Contents()) == Builtins.Op(op, args)
      decreases a.count
    {
      ghost var before := a.Contents();
      var y := a.Pop(0);
      if op == "+" {
        acc := acc + y.n;
      }
      if op == "-" {
        acc := acc - y.n;
      }
      if op == "*" {
        acc := acc * y.n;
      }
      if op == "/" {
        if y.n == 0 {
          return Err("Division By Zero!");
        }
        acc := Builtins.CDiv(acc, y.n);
      }
      assert before[1..] == a.Contents();
    }
    r := Num(acc);
  }
}
