/** What each builtin computes from its argument list, stated directly.

    A builtin receives the S-expression that is left once the head symbol
    has been popped, so its arguments are already evaluated and there is at
    least one of them (`lval_sexpr_eval` dispatches only on two or more
    children). The in-place loops of the C code are in the `Interpreter`
    module and are proved to compute these functions.
 */
module Builtins {
  import opened Values

  // ---------------------------------------------------------------------
  // head and tail
  // ---------------------------------------------------------------------

  /** `head_tail_helper`: the error for a bad argument list, or the marker
      `Num(1)` when there is exactly one non-empty Q-expression. Both
      builtins report their errors under the name 'head'. */
  function HeadTailHelper(args: seq<Value>): (r: Value)
    ensures r == Num(1) <==> |args| == 1 && args[0].QExpr? && args[0].cells != []
    ensures r != Num(1) ==> r.Err?
    ensures |args| != 1 ==> r == Err("Function 'head' passed too many arguments!")
    ensures |args| == 1 && !args[0].QExpr? ==> r == Err("Function 'head' passed incorrect types!")
    ensures |args| == 1 && args[0].QExpr? && args[0].cells == [] ==> r == Err("Function 'head' passed {}!")
  {
    if |args| != 1 then Err("Function 'head' passed too many arguments!")
    else if !args[0].QExpr? then Err("Function 'head' passed incorrect types!")
    else if args[0].cells == [] then Err("Function 'head' passed {}!")
    else Num(1)
  }

  /** `builtin_head`: the Q-expression holding only the first element. */
  function Head(args: seq<Value>): (r: Value)
    ensures r.QExpr? || r.Err?
    ensures Size(r) <= 1 + SizeCells(args)
  {
    var res := HeadTailHelper(args);
    if res.Err? then res
    else
      SizeCellsElem(args[0].cells, 0);
      assert SizeCells([args[0].cells[0]]) == Size(args[0].cells[0]);
      QExpr([args[0].cells[0]])
  }

  /** `builtin_tail`: the Q-expression without its first element. */
  function Tail(args: seq<Value>): (r: Value)
    ensures r.QExpr? || r.Err?
    ensures Size(r) <= 1 + SizeCells(args)
  {
    var res := HeadTailHelper(args);
    if res.Err? then res
    else
      SizeCellsElem(args[0].cells, 0);
      QExpr(args[0].cells[1..])
  }

  /** Splitting a list into its head and its tail loses nothing. */
  lemma {:induction false} HeadTailSplit(args: seq<Value>)
    requires HeadTailHelper(args) == Num(1)
    ensures Head(args).QExpr? && Tail(args).QExpr?
    ensures |Head(args).cells| == 1
    ensures Head(args).cells + Tail(args).cells == args[0].cells
  {
  }

  /** Both builtins give the same error for the same bad argument list. */
  lemma {:induction false} HeadTailErrors(args: seq<Value>)
    ensures Head(args).Err? <==> HeadTailHelper(args) != Num(1)
    ensures Head(args).Err? ==> Head(args) == Tail(args)
  {
  }

  // ---------------------------------------------------------------------
  // list and join
  // ---------------------------------------------------------------------

  /** `builtin_list`: the argument list itself, relabelled as a Q-expression. */
  function List(args: seq<Value>): (r: Value)
    ensures r.QExpr? && r.cells == args
  {
    QExpr(args)
  }

  predicate AllQExpr(args: seq<Value>) {
    forall i :: 0 <= i < |args| ==> args[i].QExpr?
  }

  /** The elements of the Q-expressions, one list after the other. */
  function Concat(qs: seq<Value>): (r: seq<Value>)
    requires AllQExpr(qs)
    ensures qs != [] ==> |qs[0].cells| <= |r|
    decreases |qs|
  {
    if qs == [] then [] else qs[0].cells + Concat(qs[1..])
  }

  /** A join is empty exactly when every list joined is empty. */
  lemma {:induction false} ConcatEmpty(qs: seq<Value>)
    requires AllQExpr(qs)
    ensures Concat(qs) == [] <==> forall i :: 0 <= i < |qs| ==> qs[i].cells == []
    decreases |qs|
  {
    if qs != [] {
      ConcatEmpty(qs[1..]);
      if qs[0].cells == [] && Concat(qs[1..]) == [] {
        forall i | 0 <= i < |qs|
          ensures qs[i].cells == []
        {
          if i > 0 { assert qs[i] == qs[1..][i - 1]; }
        }
      }
      if forall i :: 0 <= i < |qs| ==> qs[i].cells == [] {
        forall i | 0 <= i < |qs[1..]|
          ensures qs[1..][i].cells == []
        {
          assert qs[1..][i] == qs[i + 1];
        }
      }
    }
  }

  /** `builtin_join`: every argument must be a Q-expression; the result holds
      their elements in argument order. */
  function Join(args: seq<Value>): (r: Value)
    ensures r.QExpr? || r == Err("Function 'join' passed incorrect type")
    ensures r.Err? <==> !AllQExpr(args)
    ensures r.QExpr? ==> r.cells == Concat(args)
    ensures Size(r) <= 1 + SizeCells(args)
  {
    if !AllQExpr(args) then Err("Function 'join' passed incorrect type")
    else
      ConcatSize(args);
      QExpr(Concat(args))
  }

  lemma {:induction false} ConcatSize(qs: seq<Value>)
    requires AllQExpr(qs)
    ensures SizeCells(Concat(qs)) + |qs| == SizeCells(qs)
    decreases |qs|
  {
    if qs != [] {
      ConcatSize(qs[1..]);
      SizeCellsAppend(qs[0].cells, Concat(qs[1..]));
    }
  }

  lemma {:induction false} ConcatAppend(a: seq<Value>, b: seq<Value>)
    requires AllQExpr(a) && AllQExpr(b)
    ensures AllQExpr(a + b)
    ensures Concat(a + b) == Concat(a) + Concat(b)
    decreases |a|
  {
    forall i | 0 <= i < |a + b|
      ensures (a + b)[i].QExpr?
    {
      if i < |a| { assert (a + b)[i] == a[i]; } else { assert (a + b)[i] == b[i - |a|]; }
    }
    if a == [] {
      assert a + b == b;
    } else {
      assert (a + b)[0] == a[0];
      assert (a + b)[1..] == a[1..] + b;
      ConcatAppend(a[1..], b);
    }
  }

  /** The length of a join is the sum of the lengths of the lists joined. */
  lemma {:induction false} ConcatLength(qs: seq<Value>, k: nat)
    requires AllQExpr(qs) && k <= |qs|
    ensures AllQExpr(qs[..k])
    ensures |Concat(qs[..k])| + |Concat(qs[k..])| == |Concat(qs)|
  {
    assert qs == qs[..k] + qs[k..];
    ConcatAppend(qs[..k], qs[k..]);
  }

  /** Joining in two steps is joining all at once: the join of the first
      group, followed by the remaining lists, gives the join of them all. */
  lemma {:induction false} JoinRegroup(a: seq<Value>, b: seq<Value>)
    requires a != [] && AllQExpr(a) && AllQExpr(b)
    ensures Join([Join(a)] + b) == Join(a + b)
  {
    ConcatAppend(a, b);
    var j := Join(a);
    assert Concat([j] + b) == j.cells + Concat(b) by {
      assert ([j] + b)[1..] == b;
    }
  }

  /** Joining the head of a list with its tail gives the list back. */
  lemma {:induction false} JoinHeadTail(q: Value)
    requires q.QExpr? && q.cells != []
    ensures Join([Head([q]), Tail([q])]) == q
  {
    var h, t := Head([q]), Tail([q]);
    assert Concat([h, t]) == h.cells + Concat([t]) by {
      assert [h, t][1..] == [t];
    }
    assert Concat([t]) == t.cells + Concat([]);
    assert h.cells + t.cells == q.cells;
  }

  // ---------------------------------------------------------------------
  // + - * /
  // ---------------------------------------------------------------------

  predicate AllNum(args: seq<Value>) {
    forall i :: 0 <= i < |args| ==> args[i].Num?
  }

  function Abs(x: int): nat { if x < 0 then -x else x }

  /** C's `/` on `long`: the quotient truncated toward zero. */
  function CDiv(a: int, b: int): (q: int)
    requires b != 0
    ensures Abs(a - q * b) < Abs(b)
    ensures a - q * b == 0 || (a - q * b < 0 <==> a < 0)
  {
    var m: int := Abs(a) / Abs(b);
    var q := if (a < 0) == (b < 0) then m else -m;
    TruncatedRemainder(a, b, m, q);
    q
  }

  lemma TruncatedRemainder(a: int, b: int, m: int, q: int)
    requires b != 0 && m == Abs(a) / Abs(b)
    requires q == if (a < 0) == (b < 0) then m else -m
    ensures a - q * b == (if a < 0 then -(Abs(a) % Abs(b)) else Abs(a) % Abs(b))
  {
    var A: int, B: int := Abs(a), Abs(b);
    assert A == m * B + A % B;
    if a < 0 && b < 0 {
      assert q * b == m * (-B) == -(m * B);
    } else if a < 0 {
      assert q * b == (-m) * B == -(m * B);
    } else if b < 0 {
      assert q * b == (-m) * (-B) == m * B;
    } else {
      assert q * b == m * B;
    }
  }

  /** One round of the `builtin_op` loop: the `strcmp` tests select at most
      one operation; any other operator leaves the accumulator alone. */
  function Step(op: string, acc: int, y: int): (r: int)
    requires op == "/" ==> y != 0
    ensures op !in {"+", "-", "*", "/"} ==> r == acc
  {
    if op == "+" then acc + y
    else if op == "-" then acc - y
    else if op == "*" then acc * y
    else if op == "/" then CDiv(acc, y)
    else acc
  }

  /** The fold of `builtin_op` from accumulator `acc` over the numbers `ys`,
      stopping at the first zero divisor. */
  function OpFold(op: string, acc: int, ys: seq<Value>): (r: Value)
    requires AllNum(ys)
    ensures r.Num? || r == Err("Division By Zero!")
    decreases |ys|
  {
    if ys == [] then Num(acc)
    else if op == "/" && ys[0].n == 0 then Err("Division By Zero!")
    else OpFold(op, Step(op, acc, ys[0].n), ys[1..])
  }

  /** `builtin_op`: all arguments must be numbers; a lone argument to `-` is
      negated; otherwise the arguments are folded from the left. */
  function Op(op: string, args: seq<Value>): (r: Value)
    requires |args| >= 1
    ensures r.Num? || r.Err?
  {
    if !AllNum(args) then Err("Cannot operate on non-number!")
    else
      var x := if op == "-" && |args| == 1 then -args[0].n else args[0].n;
      OpFold(op, x, args[1..])
  }

  /** Sum and product of a list of numbers, accumulated from the right end:
      an independent reading of the fold. */
  function Sum(ys: seq<Value>): int
    requires AllNum(ys)
    decreases |ys|
  {
    if ys == [] then 0 else Sum(ys[..|ys| - 1]) + ys[|ys| - 1].n
  }

  function Product(ys: seq<Value>): int
    requires AllNum(ys)
    decreases |ys|
  {
    if ys == [] then 1 else Product(ys[..|ys| - 1]) * ys[|ys| - 1].n
  }

  lemma {:induction false} SumFront(ys: seq<Value>)
    requires AllNum(ys) && ys != []
    ensures Sum(ys) == ys[0].n + Sum(ys[1..])
    decreases |ys|
  {
    if |ys| > 1 {
      var init := ys[..|ys| - 1];
      assert init[1..] == ys[1..][..|ys[1..]| - 1];
      SumFront(init);
    }
  }

  lemma {:induction false} ProductFront(ys: seq<Value>)
    requires AllNum(ys) && ys != []
    ensures Product(ys) == ys[0].n * Product(ys[1..])
    decreases |ys|
  {
    if |ys| > 1 {
      var init := ys[..|ys| - 1];
      assert init[1..] == ys[1..][..|ys[1..]| - 1];
      ProductFront(init);
      var last := ys[|ys| - 1].n;
      calc {
        Product(ys);
        Product(init) * last;
        (ys[0].n * Product(init[1..])) * last;
        ys[0].n * (Product(init[1..]) * last);
        ys[0].n * Product(ys[1..]);
      }
    }
  }

  /** `+` adds all the numbers; `-` subtracts all of them from the first. */
  lemma {:induction false} FoldAddSub(acc: int, ys: seq<Value>)
    requires AllNum(ys)
    ensures OpFold("+", acc, ys) == Num(acc + Sum(ys))
    ensures OpFold("-", acc, ys) == Num(acc - Sum(ys))
    decreases |ys|
  {
    if ys != [] {
      SumFront(ys);
      FoldAddSub(acc + ys[0].n, ys[1..]);
      FoldAddSub(acc - ys[0].n, ys[1..]);
    }
  }

  /** `*` multiplies all the numbers. */
  lemma {:induction false} FoldMul(acc: int, ys: seq<Value>)
    requires AllNum(ys)
    ensures OpFold("*", acc, ys) == Num(acc * Product(ys))
    decreases |ys|
  {
    if ys != [] {
      ProductFront(ys);
      FoldMul(acc * ys[0].n, ys[1..]);
      assert (acc * ys[0].n) * Product(ys[1..]) == acc * (ys[0].n * Product(ys[1..]));
    }
  }

  /** `/` fails exactly when some divisor is zero, wherever it stands. */
  lemma {:induction false} FoldDiv(acc: int, ys: seq<Value>)
    requires AllNum(ys)
    ensures OpFold("/", acc, ys).Err? <==> exists i :: 0 <= i < |ys| && ys[i].n == 0
    decreases |ys|
  {
    if ys != [] && ys[0].n != 0 {
      FoldDiv(CDiv(acc, ys[0].n), ys[1..]);
      if exists i :: 0 <= i < |ys| && ys[i].n == 0 {
        var i :| 0 <= i < |ys| && ys[i].n == 0;
        assert ys[1..][i - 1].n == 0;
      }
    }
  }

  /** An operator name that is none of the four leaves the first number as
      it is (reachable because dispatch tests whether the name occurs in the string of the four operators). */
  lemma {:induction false} FoldOther(op: string, acc: int, ys: seq<Value>)
    requires AllNum(ys) && op !in {"+", "-", "*", "/"}
    ensures OpFold(op, acc, ys) == Num(acc)
    decreases |ys|
  {
    if ys != [] {
      FoldOther(op, acc, ys[1..]);
    }
  }

  /** The error cases and unary minus of `builtin_op`. */
  lemma {:induction false} OpCases(op: string, args: seq<Value>)
    requires |args| >= 1
    ensures !AllNum(args) ==> Op(op, args) == Err("Cannot operate on non-number!")
    ensures AllNum(args) && op == "-" && |args| == 1 ==> Op(op, args) == Num(-args[0].n)
    ensures AllNum(args) && op == "/" ==>
      (Op(op, args) == Err("Division By Zero!") <==> exists i :: 1 <= i < |args| && args[i].n == 0)
  {
    if AllNum(args) && op == "/" {
      FoldDiv(args[0].n, args[1..]);
      if exists i :: 1 <= i < |args| && args[i].n == 0 {
        var i :| 1 <= i < |args| && args[i].n == 0;
        assert args[1..][i - 1].n == 0;
      }
    }
  }
}
