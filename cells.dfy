/** A container `lval` under in-place update.

    `lval_add` grows the `cell` array by one with `realloc` and stores the new
    child last; `lval_pop` shifts the tail left with `memmove` and shrinks the
    array with `realloc`; `lval_take` pops and then frees the container. Here
    the array is always exactly `count` long, and a `realloc` is the
    allocation of a fresh array holding the surviving children.
 */
module Cells {
  import opened Values

  /** The two container kinds; `builtin_list` and `builtin_eval` relabel it. */
  datatype Kind = SKind | QKind

  function Wrap(k: Kind, cs: seq<Value>): (v: Value)
    ensures v.IsContainer() && v.cells == cs
    ensures v.SExpr? <==> k == SKind
  {
    if k == SKind then SExpr(cs) else QExpr(cs)
  }

  class Expr {
    var kind: Kind
    var count: nat
    var cell: array<Value>

    ghost predicate Valid()
      reads this
    {
      cell.Length == count
    }

    /** The children, in order. */
    function Contents(): seq<Value>
      reads this, cell
    {
      cell[..]
    }

    /** The value this container stands for. */
    function ToValue(): (v: Value)
      reads this, cell
    {
      Wrap(kind, cell[..])
    }

    /** `lval_sexpr()` / `lval_qexpr()`: an empty container. */
    constructor (k: Kind)
      ensures Valid() && fresh(cell)
      ensures kind == k && Contents() == []
    {
      kind := k;
      count := 0;
      cell := new Value[0];
    }

    /** A container that owns the given children (an `lval` handed over by
        `lval_take` or `lval_pop` and then worked on in place). */
    constructor Of(k: Kind, cs: seq<Value>)
      ensures Valid() && fresh(cell)
      ensures kind == k && Contents() == cs
    {
      kind := k;
      count := |cs|;
      cell := new Value[|cs|](i requires 0 <= i < |cs| => cs[i]);
    }

    /** `lval_add`: append `x` as the last child. */
    method Add(x: Value)
      requires Valid()
      modifies this
      ensures Valid() && fresh(cell) && kind == old(kind)
      ensures count == old(count) + 1
      ensures Contents() == old(Contents()) + [x]
    {
      var cs := cell[..] + [x];
      cell := new Value[|cs|](i requires 0 <= i < |cs| => cs[i]);
      count := count + 1;
    }

    /** `lval_pop`: detach and return the `i`-th child, closing the gap. */
    method Pop(i: nat) returns (x: Value)
      requires Valid() && i < count
      modifies this
      ensures Valid() && fresh(cell) && kind == old(kind)
      ensures count == old(count) - 1
      ensures x == old(Contents())[i]
      ensures Contents() == old(Contents())[..i] + old(Contents())[i + 1..]
    {
      x := cell[i];
      var cs := cell[..i] + cell[i + 1..];
      cell := new Value[|cs|](j requires 0 <= j < |cs| => cs[j]);
      count := count - 1;
    }

    /** `lval_take`: pop the `i`-th child and discard the container. Freeing
        is not modelled, so the container is simply never used again. */
    method Take(i: nat) returns (x: Value)
      requires Valid() && i < count
      modifies this
      ensures x == old(Contents())[i]
    {
      x := Pop(i);
    }
  }
}
