/** The value model of the interpreter: the tagged `lval` record.

    A container owns its children outright, so an `lval` tree is a value:
    the C struct's `type`, `num`, `error`, `sym`, `count` and `cell` fields
    become one constructor per kind. Printing (`lval_print`) is a function
    that returns the text instead of writing it.
 */
module Values {

  /** One `lval`. `SExpr` and `QExpr` carry the `cell` array as a sequence. */
  datatype Value =
    | Err(msg: string)
    | Num(n: int)
    | Sym(name: string)
    | SExpr(cells: seq<Value>)
    | QExpr(cells: seq<Value>)
  {
    predicate IsContainer() { SExpr? || QExpr? }
  }

  datatype Option<T> = None | Some(value: T)

  /** The range of a C `long` (64 bits). */
  const LongMin: int := -0x8000_0000_0000_0000
  const LongMax: int := 0x7FFF_FFFF_FFFF_FFFF

  predicate IsLong(n: int) { LongMin <= n <= LongMax }

  /** Number of `lval` records in a tree. */
  function Size(v: Value): nat
    decreases v
  {
    match v
    case SExpr(cs) => 1 + SizeCells(cs)
    case QExpr(cs) => 1 + SizeCells(cs)
    case _ => 1
  }

  function SizeCells(cs: seq<Value>): nat
    decreases cs
  {
    if cs == [] then 0 else Size(cs[0]) + SizeCells(cs[1..])
  }

  lemma {:induction false} SizePositive(v: Value)
    ensures Size(v) >= 1
  {
  }

  lemma {:induction false} SizeCellsAppend(a: seq<Value>, b: seq<Value>)
    ensures SizeCells(a + b) == SizeCells(a) + SizeCells(b)
    decreases |a|
  {
    if a == [] {
      assert a + b == b;
    } else {
      assert (a + b)[1..] == a[1..] + b;
      SizeCellsAppend(a[1..], b);
    }
  }

  /** Every child is no larger than its siblings together. */
  lemma {:induction false} SizeCellsElem(cs: seq<Value>, i: nat)
    requires i < |cs|
    ensures Size(cs[i]) <= SizeCells(cs)
    ensures SizeCells(cs) >= |cs|
    decreases |cs|
  {
    SizePositive(cs[0]);
    if i == 0 {
      if |cs| > 1 { SizeCellsElem(cs[1..], 0); }
    } else {
      SizeCellsElem(cs[1..], i - 1);
    }
  }

  /** What evaluation can produce: anything but a non-empty S-expression. */
  predicate NormalForm(v: Value) {
    !(v.SExpr? && |v.cells| > 0)
  }

  /** `sub` stands in `s` starting at position `i`. */
  predicate OccursAt(s: string, sub: string, i: int) {
    0 <= i && i + |sub| <= |s| && s[i..i + |sub|] == sub
  }

  /** `strstr(s, sub) != NULL`: `sub` occurs in `s` (the empty string occurs
      in every string). */
  function Contains(s: string, sub: string): (r: bool)
    ensures r <==> exists i :: OccursAt(s, sub, i)
    decreases |s|
  {
    if |sub| > |s| then false
    else if s[..|sub|] == sub then assert OccursAt(s, sub, 0); true
    else
      var r := Contains(s[1..], sub);
      assert r ==> exists i :: OccursAt(s, sub, i) by {
        if r {
          var i :| OccursAt(s[1..], sub, i);
          assert s[i + 1..i + 1 + |sub|] == s[1..][i..i + |sub|];
          assert OccursAt(s, sub, i + 1);
        }
      }
      assert (exists i :: OccursAt(s, sub, i)) ==> r by {
        if exists i :: OccursAt(s, sub, i) {
          var i :| OccursAt(s, sub, i);
          assert i != 0;
          assert s[1..][i - 1..i - 1 + |sub|] == s[i..i + |sub|];
          assert OccursAt(s[1..], sub, i - 1);
        }
      }
      r
  }

  // ---------------------------------------------------------------------
  // Printing (lval_print, lval_expr_print)
  // ---------------------------------------------------------------------

  function DigitChar(d: nat): char
    requires d < 10
  {
    ('0' as int + d) as char
  }

  /** Decimal digits of a natural number, most significant first. */
  function ShowNat(m: nat): (s: string)
    decreases m
  {
    if m < 10 then [DigitChar(m)] else ShowNat(m / 10) + [DigitChar(m % 10)]
  }

  /** The `%li` conversion. */
  function ShowInt(n: int): (r: string)
    ensures |r| >= 1
    ensures r[0] == '-' <==> n < 0
  {
    ShowNatDigits(if n < 0 then -n else n);
    if n < 0 then "-" + ShowNat(-n) else ShowNat(n)
  }

  /** The text `lval_print` writes for `v`. */
  function Show(v: Value): (r: string)
    ensures v.IsContainer() ==> |r| >= 2
    ensures v.IsContainer() ==> r[0] == (if v.SExpr? then '(' else '{')
    ensures v.IsContainer() ==> r[|r| - 1] == (if v.SExpr? then ')' else '}')
    decreases v
  {
    match v
    case Num(n) => ShowInt(n)
    case Err(m) => "Error: " + m
    case Sym(s) => s
    case SExpr(cs) => "(" + ShowCells(cs) + ")"
    case QExpr(cs) => "{" + ShowCells(cs) + "}"
  }

  /** The children of a container, separated by single spaces. */
  function ShowCells(cs: seq<Value>): (r: string)
    ensures |r| + 1 >= |cs|
    decreases cs
  {
    if cs == [] then ""
    else if |cs| == 1 then Show(cs[0])
    else Show(cs[0]) + " " + ShowCells(cs[1..])
  }

  predicate IsDigit(c: char) { '0' <= c <= '9' }

  lemma {:induction false} ShowNatDigits(m: nat)
    ensures |ShowNat(m)| >= 1
    ensures forall i :: 0 <= i < |ShowNat(m)| ==> IsDigit(ShowNat(m)[i])
    decreases m
  {
    if m >= 10 { ShowNatDigits(m / 10); }
  }

  /** A printed container opens and closes with its kind's brackets. */
  lemma {:induction false} ShowContainerShape(v: Value)
    requires v.IsContainer()
    ensures |Show(v)| >= 2
    ensures Show(v)[0] == (if v.SExpr? then '(' else '{')
    ensures Show(v)[|Show(v)| - 1] == (if v.SExpr? then ')' else '}')
    ensures v.cells == [] ==> |Show(v)| == 2
  {
  }

  /** Printing the children of a longer list prints the two parts with one
      space between them: the separators fall between neighbours only. */
  lemma {:induction false} ShowCellsAppend(a: seq<Value>, b: seq<Value>)
    requires a != [] && b != []
    ensures ShowCells(a + b) == ShowCells(a) + " " + ShowCells(b)
    decreases |a|
  {
    assert (a + b)[0] == a[0];
    assert (a + b)[1..] == a[1..] + b;
    if |a| > 1 {
      ShowCellsAppend(a[1..], b);
    }
  }
}
