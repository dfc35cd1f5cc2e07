/** The evaluator as functions: `lval_eval`, `lval_sexpr_eval` and the
    `builtin` dispatch, with what they promise.

    Only S-expressions reduce. Evaluation never makes a value larger (each
    builtin returns no more than its arguments, and the head symbol is
    dropped), which is also why the re-entry through the `eval` builtin
    terminates: the functions below are proved to terminate on that measure.
 */
module Semantics {
  import opened Values
  import opened Builtins

  /** `lval_eval`: an S-expression is reduced; every other value, symbols
      included, is returned as it is. */
  function Eval(v: Value): (r: Value)
    decreases Size(v), 0
    ensures Size(r) <= Size(v)
    ensures NormalForm(r)
  {
    if v.SExpr? then SExprEval(v.cells) else v
  }

  /** The first loop of `lval_sexpr_eval`: every child replaced by its value,
      left to right. */
  function EvalCells(cs: seq<Value>): (es: seq<Value>)
    decreases SizeCells(cs), 1
    ensures |es| == |cs|
    ensures forall i :: 0 <= i < |es| ==> NormalForm(es[i])
    ensures SizeCells(es) <= SizeCells(cs)
  {
    if cs == [] then []
    else
      var e := Eval(cs[0]);
      var rest := EvalCells(cs[1..]);
      assert ([e] + rest)[1..] == rest;
      [e] + rest
  }

  /** The second loop of `lval_sexpr_eval`: the position of the first error,
      or the length of the list when there is none. */
  function FirstError(es: seq<Value>): (i: nat)
    ensures i <= |es|
    ensures i < |es| ==> es[i].Err?
    ensures forall j :: 0 <= j < i ==> !es[j].Err?
    decreases |es|
  {
    if es == [] || es[0].Err? then 0 else 1 + FirstError(es[1..])
  }

  /** `lval_sexpr_eval` on the children `cs`. */
  function SExprEval(cs: seq<Value>): (r: Value)
    decreases SizeCells(cs), 3
    ensures Size(r) <= 1 + SizeCells(cs)
    ensures NormalForm(r)
  {
    var es := EvalCells(cs);
    var i := FirstError(es);
    if i < |es| then
      SizeCellsElem(es, i);
      es[i]
    else if |es| == 0 then SExpr([])
    else if |es| == 1 then
      SizeCellsElem(es, 0);
      es[0]
    else if !es[0].Sym? then Err("S-expression Does not start with symbol!")
    else
      SizePositive(es[0]);
      Builtin(es[0].name, es[1..])
  }

  /** `builtin`: dispatch on the head symbol's name. The arithmetic test is a
      substring test against the four operator characters. */
  function Builtin(f: string, args: seq<Value>): (r: Value)
    requires |args| >= 1
    decreases SizeCells(args), 2
    ensures Size(r) <= 1 + SizeCells(args)
    ensures NormalForm(r)
  {
    if f == "list" then List(args)
    else if f == "head" then Head(args)
    else if f == "tail" then Tail(args)
    else if f == "join" then Join(args)
    else if f == "eval" then BuiltinEval(args)
    else if Contains("+-/*", f) then Op(f, args)
    else Err("Unknown Function!")
  }

  /** `builtin_eval`: the single Q-expression argument, relabelled as an
      S-expression and evaluated. */
  function BuiltinEval(args: seq<Value>): (r: Value)
    decreases SizeCells(args), 1
    ensures Size(r) <= 1 + SizeCells(args)
    ensures NormalForm(r)
  {
    if |args| != 1 then Err("Function 'eval' passed too many arguments!")
    else if !args[0].QExpr? then Err("Function 'eval' passed incorrect type!")
    else
      assert SizeCells(args) == Size(args[0]);
      Eval(SExpr(args[0].cells))
  }

  /** Child `i` of the evaluated list is the value of child `i`. */
  lemma {:induction false} EvalCellsAt(cs: seq<Value>, i: nat)
    requires i < |cs|
    ensures EvalCells(cs)[i] == Eval(cs[i])
    decreases |cs|
  {
    if i > 0 {
      EvalCellsAt(cs[1..], i - 1);
    }
  }

  // ---------------------------------------------------------------------
  // What evaluation promises
  // ---------------------------------------------------------------------

  /** Numbers, symbols, errors and Q-expressions evaluate to themselves; `()`
      stays `()`; a one-child S-expression is the value of its child. */
  lemma {:induction false} EvalShapes(v: Value, c: Value)
    ensures !v.SExpr? ==> Eval(v) == v
    ensures Eval(SExpr([])) == SExpr([])
    ensures Eval(SExpr([c])) == Eval(c)
  {
    EvalCellsAt([c], 0);
  }

  /** The error at the lowest position among the children's values is the
      value of the whole S-expression; later children are discarded. */
  lemma {:induction false} FirstErrorWins(cs: seq<Value>, i: nat)
    requires i < |cs| && Eval(cs[i]).Err?
    requires forall j :: 0 <= j < i ==> !Eval(cs[j]).Err?
    ensures Eval(SExpr(cs)) == Eval(cs[i])
  {
    var es := EvalCells(cs);
    forall j | 0 <= j <= i
      ensures es[j] == Eval(cs[j])
    {
      EvalCellsAt(cs, j);
    }
    var k := FirstError(es);
    assert k == i;
  }

  /** An error anywhere among the children's values makes the S-expression
      evaluate to an error. */
  lemma {:induction false} ErrorPropagates(cs: seq<Value>, i: nat)
    requires i < |cs| && Eval(cs[i]).Err?
    ensures Eval(SExpr(cs)).Err?
  {
    forall j | 0 <= j < |cs|
      ensures EvalCells(cs)[j] == Eval(cs[j])
    {
      EvalCellsAt(cs, j);
    }
    var k := FirstError(EvalCells(cs));
    FirstErrorWins(cs, k);
  }

  /** The names `builtin` recognises. */
  predicate IsBuiltinName(f: string) {
    f in {"list", "head", "tail", "join", "eval"} || Contains("+-/*", f)
  }

  /** With two or more children and no error among their values, the head's
      value must be a symbol naming a builtin, which is applied to the values
      of the remaining children. */
  lemma {:induction false} Application(cs: seq<Value>)
    requires |cs| >= 2
    requires forall j :: 0 <= j < |cs| ==> !Eval(cs[j]).Err?
    ensures !Eval(cs[0]).Sym? ==> Eval(SExpr(cs)) == Err("S-expression Does not start with symbol!")
    ensures Eval(cs[0]).Sym? && !IsBuiltinName(Eval(cs[0]).name) ==>
      Eval(SExpr(cs)) == Err("Unknown Function!")
    ensures Eval(cs[0]).Sym? ==> Eval(SExpr(cs)) == Builtin(Eval(cs[0]).name, EvalCells(cs[1..]))
  {
    var es := EvalCells(cs);
    forall j | 0 <= j < |cs|
      ensures es[j] == Eval(cs[j])
    {
      EvalCellsAt(cs, j);
    }
    assert FirstError(es) == |es|;
    assert es[1..] == EvalCells(cs[1..]) by {
      forall j | 0 <= j < |cs| - 1
        ensures es[1..][j] == EvalCells(cs[1..])[j]
      {
        EvalCellsAt(cs[1..], j);
      }
    }
    if es[0].Sym? && !IsBuiltinName(es[0].name) {
      assert Builtin(es[0].name, es[1..]) == Err("Unknown Function!");
    }
  }

  /** Evaluating a value a second time changes nothing. */
  lemma {:induction false} Idempotent(v: Value)
    ensures Eval(Eval(v)) == Eval(v)
  {
    var r := Eval(v);
    if r.SExpr? {
      assert r.cells == [];
      assert EvalCells([]) == [];
    }
  }

  /** `list` quotes the values of its arguments. */
  lemma {:induction false} ListQuotes(xs: seq<Value>)
    requires |xs| >= 1
    requires forall j :: 0 <= j < |xs| ==> !Eval(xs[j]).Err?
    ensures Eval(SExpr([Sym("list")] + xs)) == QExpr(EvalCells(xs))
  {
    var cs := [Sym("list")] + xs;
    assert cs[1..] == xs;
    forall j | 0 <= j < |cs|
      ensures !Eval(cs[j]).Err?
    {
      if j > 0 { assert cs[j] == xs[j - 1]; }
    }
    Application(cs);
  }

  /** `eval` undoes quoting: `eval {xs}` is the value of `(xs)`. */
  lemma {:induction false} EvalUnquotes(xs: seq<Value>)
    ensures Eval(SExpr([Sym("eval"), QExpr(xs)])) == Eval(SExpr(xs))
  {
    var cs := [Sym("eval"), QExpr(xs)];
    EvalShapes(cs[0], cs[0]);
    EvalShapes(cs[1], cs[1]);
    Application(cs);
    assert EvalCells(cs[1..]) == [QExpr(xs)] by {
      EvalCellsAt(cs[1..], 0);
    }
  }

  /** `+ - * /` fold the values of their arguments. */
  lemma {:induction false} Arithmetic(op: string, xs: seq<Value>)
    requires op in {"+", "-", "*", "/"}
    requires |xs| >= 1
    requires forall j :: 0 <= j < |xs| ==> !Eval(xs[j]).Err?
    ensures Eval(SExpr([Sym(op)] + xs)) == Op(op, EvalCells(xs))
  {
    var cs := [Sym(op)] + xs;
    assert cs[1..] == xs;
    forall j | 0 <= j < |cs|
      ensures !Eval(cs[j]).Err?
    {
      if j > 0 { assert cs[j] == xs[j - 1]; }
    }
    Application(cs);
    OperatorDispatch(op, EvalCells(xs));
  }

  lemma OperatorDispatch(op: string, args: seq<Value>)
    requires op in {"+", "-", "*", "/"} && |args| >= 1
    ensures Builtin(op, args) == Op(op, args)
  {
    var i := if op == "+" then 0 else if op == "-" then 1 else if op == "/" then 2 else 3;
    assert OccursAt("+-/*", op, i);
  }

  /** A builtin applied to one Q-expression receives it unevaluated. */
  lemma ApplyToQuoted(f: string, q: Value)
    requires q.QExpr?
    ensures Eval(SExpr([Sym(f), q])) == Builtin(f, [q])
  {
    EvalShapes(q, q);
    assert EvalCells([q]) == [q] by { EvalCellsAt([q], 0); }
    Application([Sym(f), q]);
    assert [Sym(f), q][1..] == [q];
  }

  /** Joining the head of a list with its tail gives the list back. */
  lemma {:induction false} JoinHeadTailEval(q: Value)
    requires q.QExpr? && q.cells != []
    ensures Eval(SExpr([Sym("join"), SExpr([Sym("head"), q]), SExpr([Sym("tail"), q])])) == q
  {
    var h, t := SExpr([Sym("head"), q]), SExpr([Sym("tail"), q]);
    ApplyToQuoted("head", q);
    ApplyToQuoted("tail", q);
    var cs := [Sym("join"), h, t];
    Application(cs);
    assert EvalCells(cs[1..]) == [Head([q]), Tail([q])] by {
      EvalCellsAt(cs[1..], 0);
      EvalCellsAt(cs[1..], 1);
    }
    JoinHeadTail(q);
  }
}
