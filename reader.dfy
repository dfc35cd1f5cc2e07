/** The tree reader: `lval_read` and `lval_read_num`.

    The grammar library hands over a generic parse tree whose nodes carry a
    tag (the names of the rules that matched, joined by `|`), the matched
    text and the ordered children. The reader turns it into a `Value`
    according to the tag alone, skipping the bracket tokens and the `regex`
    anchors that carry no meaning.
 */
module Reader {
  import opened Values
  import opened Cells

  datatype Node = Node(tag: string, contents: string, children: seq<Node>)

  // ---------------------------------------------------------------------
  // strtol and lval_read_num
  // ---------------------------------------------------------------------

  /** `isspace` in the C locale: space, tab, newline, vertical tab, form feed,
      carriage return. */
  predicate IsSpace(c: char) { c == ' ' || '\t' <= c <= '\r' }

  function SkipSpace(s: string): (t: string)
    ensures |t| <= |s| && t == s[|s| - |t|..]
    ensures t != [] ==> !IsSpace(t[0])
    decreases |s|
  {
    if s != [] && IsSpace(s[0]) then SkipSpace(s[1..]) else s
  }

  /** The length of the run of decimal digits that starts `s`. */
  function DigitRun(s: string): (k: nat)
    ensures k <= |s|
    ensures forall i :: 0 <= i < k ==> IsDigit(s[i])
    ensures k < |s| ==> !IsDigit(s[k])
    decreases |s|
  {
    if s != [] && IsDigit(s[0]) then 1 + DigitRun(s[1..]) else 0
  }

  /** The number a string of decimal digits denotes. */
  function DigitsValue(s: string): nat
    requires forall i :: 0 <= i < |s| ==> IsDigit(s[i])
    decreases |s|
  {
    if s == [] then 0
    else DigitsValue(s[..|s| - 1]) * 10 + DigitValue(s[|s| - 1])
  }

  function DigitValue(c: char): nat
    requires IsDigit(c)
  {
    c as int - '0' as int
  }

  /** The mathematical value `strtol(s, NULL, 10)` reads: leading white space,
      an optional sign, then the longest run of digits (none reads as 0). */
  function StrToLong(s: string): (r: int)
    ensures r < 0 ==> SkipSpace(s) != [] && SkipSpace(s)[0] == '-'
  {
    var t := SkipSpace(s);
    var neg := t != [] && t[0] == '-';
    assert neg ==> SkipSpace(s) != [] && SkipSpace(s)[0] == '-';
    var u := if t != [] && (t[0] == '-' || t[0] == '+') then t[1..] else t;
    var m: int := DigitsValue(u[..DigitRun(u)]);
    if neg then -m else m
  }

  /** `lval_read_num`: `strtol` reports ERANGE exactly when the value read
      lies outside the range of `long`. */
  function ReadNum(s: string): (r: Value)
    ensures r.Num? || r == Err("invalid number")
    ensures r.Num? <==> IsLong(StrToLong(s))
    ensures r.Num? ==> IsLong(r.n)
  {
    var x := StrToLong(s);
    if IsLong(x) then Num(x) else Err("invalid number")
  }

  lemma {:induction false} DigitsValueShowNat(m: nat)
    ensures forall i :: 0 <= i < |ShowNat(m)| ==> IsDigit(ShowNat(m)[i])
    ensures DigitsValue(ShowNat(m)) == m
    decreases m
  {
    ShowNatDigits(m);
    if m >= 10 {
      DigitsValueShowNat(m / 10);
      var s := ShowNat(m);
      assert s[..|s| - 1] == ShowNat(m / 10);
    }
  }

  /** `strtol` on a run of digits, with or without a minus sign. */
  lemma {:induction false} StrToLongDigits(d: string)
    requires d != [] && forall i :: 0 <= i < |d| ==> IsDigit(d[i])
    ensures StrToLong(d) == DigitsValue(d)
  {
    assert !IsSpace(d[0]);
    assert SkipSpace(d) == d;
    assert DigitRun(d) == |d|;
    assert d[..|d|] == d;
  }

  lemma {:induction false} StrToLongNegDigits(d: string)
    requires d != [] && forall i :: 0 <= i < |d| ==> IsDigit(d[i])
    ensures StrToLong("-" + d) == -(DigitsValue(d) as int)
  {
    var md := "-" + d;
    assert md[0] == '-' && !IsSpace(md[0]);
    assert SkipSpace(md) == md;
    assert md[1..] == d;
    assert DigitRun(d) == |d|;
    assert d[..|d|] == d;
  }

  /** Printing a number and reading the text back gives the number when it
      fits in a `long`, and the error "invalid number" when it does not. */
  lemma {:induction false} ReadNumShow(n: int)
    ensures ReadNum(ShowInt(n)) == if IsLong(n) then Num(n) else Err("invalid number")
  {
    var m: nat := if n < 0 then -n else n;
    DigitsValueShowNat(m);
    StrToLongDigits(ShowNat(m));
    StrToLongNegDigits(ShowNat(m));
  }

  // ---------------------------------------------------------------------
  // lval_read
  // ---------------------------------------------------------------------

  /** Children that carry only syntax: bracket tokens and `regex` anchors. */
  predicate Skipped(c: Node) {
    c.contents == "(" || c.contents == ")" || c.contents == "{" || c.contents == "}"
    || c.tag == "regex"
  }

  /** The container kind a grouping tag selects; later tests override earlier
      ones, so a tag naming both `sexpr` and `qexpr` gives a Q-expression. */
  function GroupKind(tag: string): Option<Kind> {
    var k := if tag == ">" then Some(SKind) else None;
    var k := if Contains(tag, "sexpr") then Some(SKind) else k;
    if Contains(tag, "qexpr") then Some(QKind) else k
  }

  predicate IsLeafTag(tag: string) {
    Contains(tag, "number") || Contains(tag, "symbol")
  }

  /** The trees `lval_read` can read: a node that is neither a number, a
      symbol nor a grouping node leaves the C code with a null container. */
  predicate Readable(t: Node)
    decreases t
  {
    IsLeafTag(t.tag)
    || (GroupKind(t.tag).Some?
        && forall i :: 0 <= i < |t.children| ==> Skipped(t.children[i]) || Readable(t.children[i]))
  }

  predicate AllReadable(cs: seq<Node>) {
    forall i :: 0 <= i < |cs| ==> Skipped(cs[i]) || Readable(cs[i])
  }

  /** `lval_read`. */
  function Read(t: Node): (v: Value)
    requires Readable(t)
    ensures IsLeafTag(t.tag) || v.IsContainer()
    decreases t
  {
    if Contains(t.tag, "number") then ReadNum(t.contents)
    else if Contains(t.tag, "symbol") then Sym(t.contents)
    else Wrap(GroupKind(t.tag).value, ReadCells(t.children))
  }

  /** The values of the children that are not skipped, in order. */
  function ReadCells(cs: seq<Node>): (r: seq<Value>)
    requires AllReadable(cs)
    ensures |r| <= |cs|
    decreases cs
  {
    if cs == [] then []
    else
      var last := cs[|cs| - 1];
      ReadCells(cs[..|cs| - 1]) + (if Skipped(last) then [] else [Read(last)])
  }

  /** Reading children distributes over their concatenation, and one child
      contributes its own value unless it is skipped: the children's values
      are those of the kept children, in the tree's order. */
  lemma {:induction false} ReadCellsAppend(a: seq<Node>, b: seq<Node>)
    requires AllReadable(a) && AllReadable(b)
    ensures AllReadable(a + b)
    ensures ReadCells(a + b) == ReadCells(a) + ReadCells(b)
    decreases |b|
  {
    if b == [] {
      assert a + b == a;
    } else {
      var b' := b[..|b| - 1];
      assert (a + b)[..|a + b| - 1] == a + b';
      ReadCellsAppend(a, b');
    }
  }

  /** What a node reads as: a number or "invalid number" under a `number`
      tag; otherwise, unless the tag names a symbol, a container that is a
      Q-expression exactly when the tag names `qexpr`, with at most one value
      per child. */
  lemma ReadShape(t: Node)
    requires Readable(t)
    ensures Contains(t.tag, "number") ==> Read(t).Num? || Read(t) == Err("invalid number")
    ensures !IsLeafTag(t.tag) ==> Read(t).IsContainer() && |Read(t).cells| <= |t.children|
    ensures !IsLeafTag(t.tag) ==> (Read(t).QExpr? <==> Contains(t.tag, "qexpr"))
  {
    if !IsLeafTag(t.tag) {
      assert Read(t) == Wrap(GroupKind(t.tag).value, ReadCells(t.children));
    }
  }

  /** With no bracket token or anchor among them, every child is kept. */
  lemma {:induction false} ReadCellsKeepsAll(cs: seq<Node>)
    requires forall i :: 0 <= i < |cs| ==> Readable(cs[i]) && !Skipped(cs[i])
    ensures AllReadable(cs)
    ensures |ReadCells(cs)| == |cs|
    decreases |cs|
  {
    if cs != [] {
      ReadCellsKeepsAll(cs[..|cs| - 1]);
    }
  }

  lemma {:induction false} ReadCellsOne(c: Node)
    requires Skipped(c) || Readable(c)
    ensures ReadCells([c]) == if Skipped(c) then [] else [Read(c)]
  {
    assert [c][..0] == [];
  }

  /** Reading one more child of a readable list. */
  lemma ReadCellsPrefix(cs: seq<Node>, i: nat)
    requires AllReadable(cs) && i < |cs|
    ensures AllReadable(cs[..i]) && AllReadable(cs[..i + 1])
    ensures ReadCells(cs[..i + 1])
      == ReadCells(cs[..i]) + if Skipped(cs[i]) then [] else [Read(cs[i])]
  {
    assert cs[..i + 1] == cs[..i] + [cs[i]];
    ReadCellsAppend(cs[..i], [cs[i]]);
    ReadCellsOne(cs[i]);
  }

  /** `lval_read` as the C code runs it: the container is created empty and
      each kept child is read and appended with `lval_add`. */
  method ReadTree(t: Node) returns (v: Value)
    requires Readable(t)
    ensures v == Read(t)
    decreases t
  {
    if Contains(t.tag, "number") {
      return ReadNum(t.contents);
    }
    if Contains(t.tag, "symbol") {
      return Sym(t.contents);
    }
    var k: Option<Kind> := None;
    if t.tag == ">" {
      k := Some(SKind);
    }
    if Contains(t.tag, "sexpr") {
      k := Some(SKind);
    }
    if Contains(t.tag, "qexpr") {
      k := Some(QKind);
    }
    assert k == GroupKind(t.tag);
    assert AllReadable(t.children);
    var x := new Expr(k.value);
    for i := 0 to |t.children|
      invariant x.Valid() && x.kind == k.value
      invariant x.Contents() == ReadCells(t.children[..i])
    {
      var c := t.children[i];
      ReadCellsPrefix(t.children, i);
      if c.contents == "(" || c.contents == ")" || c.contents == "{" || c.contents == "}" {
        continue;
      }
      if c.tag == "regex" {
        continue;
      }
      var cv := ReadTree(c);
      x.Add(cv);
    }
    assert t.children[..|t.children|] == t.children;
    v := x.ToValue();
  }

  // ---------------------------------------------------------------------
  // The reader inverts the shape of the parse tree
  // ---------------------------------------------------------------------

  /** Values the grammar can write: no errors, numbers within `long`, and no
      symbol spelled like a bracket token. */
  predicate Syntactic(v: Value)
    decreases v
  {
    match v
    case Err(_) => false
    case Num(n) => IsLong(n)
    case Sym(s) => s != "(" && s != ")" && s != "{" && s != "}"
    case SExpr(cs) => forall i :: 0 <= i < |cs| ==> Syntactic(cs[i])
    case QExpr(cs) => forall i :: 0 <= i < |cs| ==> Syntactic(cs[i])
  }

  /** Tags as the grammar's rules are named. */
  const NumberTag := "number"
  const SymbolTag := "symbol"
  const SExprTag := "sexpr"
  const QExprTag := "qexpr"

  /** The parse tree the grammar builds for the text of `v`. */
  function ToTree(v: Value): Node
    requires Syntactic(v)
    decreases v
  {
    match v
    case Num(n) => Node(NumberTag, ShowInt(n), [])
    case Sym(s) => Node(SymbolTag, s, [])
    case SExpr(cs) => Node(SExprTag, "", [Node("char", "(", [])] + ToTrees(cs) + [Node("char", ")", [])])
    case QExpr(cs) => Node(QExprTag, "", [Node("char", "{", [])] + ToTrees(cs) + [Node("char", "}", [])])
  }

  function ToTrees(cs: seq<Value>): seq<Node>
    requires forall i :: 0 <= i < |cs| ==> Syntactic(cs[i])
    decreases cs
  {
    if cs == [] then [] else ToTrees(cs[..|cs| - 1]) + [ToTree(cs[|cs| - 1])]
  }

  /** The tree of a whole input line: the root `>` with the `regex` anchors
      for the start and the end of the input around the expressions. */
  function LineTree(cs: seq<Value>): Node
    requires forall i :: 0 <= i < |cs| ==> Syntactic(cs[i])
  {
    Node(">", "", [Node("regex", "", [])] + ToTrees(cs) + [Node("regex", "", [])])
  }

  lemma TagFacts()
    ensures Contains(NumberTag, "number")
    ensures !Contains(SymbolTag, "number") && Contains(SymbolTag, "symbol")
    ensures !IsLeafTag(SExprTag) && GroupKind(SExprTag) == Some(SKind)
    ensures !IsLeafTag(QExprTag) && GroupKind(QExprTag) == Some(QKind)
    ensures !IsLeafTag(">") && GroupKind(">") == Some(SKind)
  {
    assert OccursAt(NumberTag, "number", 0);
    assert OccursAt(SymbolTag, "symbol", 0);
    assert OccursAt(SExprTag, "sexpr", 0);
    assert OccursAt(QExprTag, "qexpr", 0);
    assert "symbol"[0] != "number"[0];
    assert "sexpr"[0] != "qexpr"[0];
  }

  /** Reading the tree of a value gives the value back. */
  lemma {:induction false} ReadToTree(v: Value)
    requires Syntactic(v)
    ensures Readable(ToTree(v)) && !Skipped(ToTree(v))
    ensures Read(ToTree(v)) == v
    decreases v, 1
  {
    match v
    case Num(n) =>
      ReadNumberNode(n);
    case Sym(s) =>
      ReadSymbolNode(s);
    case SExpr(cs) =>
      ReadBracketed(cs, "(", ")");
      ReadGroupNode(SExprTag, SKind, [Node("char", "(", [])] + ToTrees(cs) + [Node("char", ")", [])]);
    case QExpr(cs) =>
      ReadBracketed(cs, "{", "}");
      ReadGroupNode(QExprTag, QKind, [Node("char", "{", [])] + ToTrees(cs) + [Node("char", "}", [])]);
  }

  lemma ReadNumberNode(n: int)
    requires IsLong(n)
    ensures Readable(Node(NumberTag, ShowInt(n), []))
    ensures !Skipped(Node(NumberTag, ShowInt(n), []))
    ensures Read(Node(NumberTag, ShowInt(n), [])) == Num(n)
  {
    TagFacts();
    NumberNotSkipped(n);
    ReadNumShow(n);
  }

  /** The text of a number starts with a sign or a digit, never a bracket. */
  lemma NumberNotSkipped(n: int)
    ensures !Skipped(Node(NumberTag, ShowInt(n), []))
  {
    var text := ShowInt(n);
    ShowNatDigits(if n < 0 then -n else n);
    assert text[0] == '-' || IsDigit(text[0]);
  }

  lemma ReadSymbolNode(s: string)
    requires s != "(" && s != ")" && s != "{" && s != "}"
    ensures Readable(Node(SymbolTag, s, [])) && !Skipped(Node(SymbolTag, s, []))
    ensures Read(Node(SymbolTag, s, [])) == Sym(s)
  {
    TagFacts();
  }

  lemma ReadGroupNode(tag: string, k: Kind, children: seq<Node>)
    requires tag == SExprTag || tag == QExprTag
    requires k == (if tag == SExprTag then SKind else QKind)
    requires AllReadable(children)
    ensures Readable(Node(tag, "", children)) && !Skipped(Node(tag, "", children))
    ensures Read(Node(tag, "", children)) == Wrap(k, ReadCells(children))
  {
    TagFacts();
  }

  lemma {:induction false} ReadBracketed(cs: seq<Value>, open: string, close: string)
    requires forall i :: 0 <= i < |cs| ==> Syntactic(cs[i])
    requires Skipped(Node("char", open, [])) && Skipped(Node("char", close, []))
    ensures AllReadable([Node("char", open, [])] + ToTrees(cs) + [Node("char", close, [])])
    ensures ReadCells([Node("char", open, [])] + ToTrees(cs) + [Node("char", close, [])]) == cs
    decreases cs, 1
  {
    ReadTrees(cs);
    ReadSurrounded(Node("char", open, []), ToTrees(cs), Node("char", close, []));
  }

  /** Skipped children around the kept ones contribute nothing. */
  lemma {:induction false} ReadSurrounded(o: Node, ts: seq<Node>, c: Node)
    requires Skipped(o) && Skipped(c) && AllReadable(ts)
    ensures AllReadable([o] + ts + [c])
    ensures ReadCells([o] + ts + [c]) == ReadCells(ts)
  {
    ReadCellsOne(o);
    ReadCellsOne(c);
    ReadCellsAppend([o], ts);
    assert ReadCells([o] + ts) == ReadCells(ts);
    ReadCellsAppend([o] + ts, [c]);
  }

  lemma {:induction false} ReadTrees(cs: seq<Value>)
    requires forall i :: 0 <= i < |cs| ==> Syntactic(cs[i])
    ensures AllReadable(ToTrees(cs))
    ensures ReadCells(ToTrees(cs)) == cs
    decreases cs, 0
  {
    if cs != [] {
      var init, last := cs[..|cs| - 1], cs[|cs| - 1];
      ReadTrees(init);
      ReadToTree(last);
      ToTreesSnoc(cs);
      ReadSnoc(cs, ToTrees(cs), ToTrees(init), ToTree(last));
    }
  }

  /** One more kept child read after the others. */
  lemma ReadSnoc(cs: seq<Value>, whole: seq<Node>, ts: seq<Node>, t: Node)
    requires cs != [] && whole == ts + [t]
    requires AllReadable(ts) && ReadCells(ts) == cs[..|cs| - 1]
    requires Readable(t) && !Skipped(t) && Read(t) == cs[|cs| - 1]
    ensures AllReadable(whole) && ReadCells(whole) == cs
  {
    ReadCellsOne(t);
    ReadCellsAppend(ts, [t]);
    assert cs[..|cs| - 1] + [cs[|cs| - 1]] == cs;
  }

  lemma ToTreesSnoc(cs: seq<Value>)
    requires cs != [] && forall i :: 0 <= i < |cs| ==> Syntactic(cs[i])
    ensures ToTrees(cs) == ToTrees(cs[..|cs| - 1]) + [ToTree(cs[|cs| - 1])]
  {
  }

  /** A whole input line reads as the S-expression of its expressions. */
  lemma {:induction false} ReadLine(cs: seq<Value>)
    requires forall i :: 0 <= i < |cs| ==> Syntactic(cs[i])
    ensures Readable(LineTree(cs))
    ensures Read(LineTree(cs)) == SExpr(cs)
  {
    TagFacts();
    var a := Node("regex", "", []);
    ReadTrees(cs);
    ReadSurrounded(a, ToTrees(cs), a);
    var t := LineTree(cs);
    assert t.children == [a] + ToTrees(cs) + [a];
    assert !IsLeafTag(t.tag) && GroupKind(t.tag) == Some(SKind);
  }
}
