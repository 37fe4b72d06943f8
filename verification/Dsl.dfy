/** The panel language's recursive-descent parser (internal/panel/dsl/parser.go), over tokens.

    The grammar is given independently, as concrete syntax trees with a printer and a meaning; the
    parser is proved to accept exactly the printed trees and to return their meaning. */
module Dsl {
  import T = Text
  import opened Wrappers

  datatype Token = Eof | Ident(lit: string) | Text(lit: string) | Number(lit: string)
                 | LBrace | RBrace | LBracket | RBracket | Equal | Comma

  datatype Num = Whole(i: int) | Decimal(r: real)

  datatype Value = StringValue(s: string) | NumberValue(n: Num) | BoolValue(b: bool) | ArrayValue(items: seq<Value>)

  datatype Block = Block(kind: string, labels: seq<string>, attrs: map<string, Value>, blocks: seq<Block>)

  datatype Error = Expected(what: string) | Unterminated(kind: string) | BareValue(lit: string) | InvalidValue |
    BadNumber(lit: string)

  datatype Parsed<+T> = Ok(value: T, next: nat) | Err(error: Error)

  /** Library number parsing (strconv.Atoi and ParseFloat), left open. */
  type Numeric = string -> Option<Num>

  /** What the lexer delivers: the end of input is marked once, by the last token. */
  ghost predicate WellTokenized(ts: seq<Token>) {
    ts != [] && ts[|ts| - 1] == Eof && forall i :: 0 <= i < |ts| - 1 ==> ts[i] != Eof
  }

  // ----- The parser as a function of the tokens and the cursor -----

  function ParseValue(ts: seq<Token>, num: Numeric, i: nat): (r: Parsed<Value>)
    requires WellTokenized(ts) && i < |ts|
    ensures r.Ok? ==> i < r.next < |ts|
    decreases |ts| - i, 0
  {
    match ts[i]
    case Text(s) => Ok(StringValue(s), i + 1)
    case Number(lit) => (match num(lit) case Some(n) => Ok(NumberValue(n), i + 1) case None => Err(BadNumber(lit)))
    case Ident(lit) =>
      if lit == "true" then Ok(BoolValue(true), i + 1)
      else if lit == "false" then Ok(BoolValue(false), i + 1)
      else Err(BareValue(lit))
    case LBracket => ParseArray(ts, num, i + 1, [])
    case _ => Err(InvalidValue)
  }

  function ParseArray(ts: seq<Token>, num: Numeric, i: nat, items: seq<Value>): (r: Parsed<Value>)
    requires WellTokenized(ts) && i < |ts|
    ensures r.Ok? ==> i < r.next < |ts|
    decreases |ts| - i, 1
  {
    if ts[i] == RBracket then Ok(ArrayValue(items), i + 1)
    else
      match ParseValue(ts, num, i)
      case Err(e) => Err(e)
      case Ok(v, j) => ParseArray(ts, num, if ts[j] == Comma then j + 1 else j, items + [v])
  }

  function SkipLabels(ts: seq<Token>, i: nat): (j: nat)
    requires WellTokenized(ts) && i < |ts|
    ensures i <= j < |ts| && !ts[j].Text?
    ensures forall k :: i <= k < j ==> ts[k].Text?
    decreases |ts| - i
  {
    if ts[i].Text? then SkipLabels(ts, i + 1) else i
  }

  function LabelsOf(ts: seq<Token>): (labels: seq<string>)
    requires forall k :: 0 <= k < |ts| ==> ts[k].Text?
    ensures |labels| == |ts| && forall k :: 0 <= k < |ts| ==> labels[k] == ts[k].lit
  {
    seq(|ts|, k requires 0 <= k < |ts| => ts[k].lit)
  }

  /** A block's labels and opening brace; the cursor stops inside the braces. */
  function ParseHeader(ts: seq<Token>, kind: string, i: nat): (r: Parsed<Block>)
    requires WellTokenized(ts) && i < |ts|
    ensures r.Ok? ==> i < r.next < |ts|
  {
    var j := SkipLabels(ts, i);
    if ts[j] == LBrace then Ok(Block(kind, LabelsOf(ts[i..j]), map[], []), j + 1) else Err(Expected("{"))
  }

  /** The body of `b` up to and including the closing brace. */
  function ParseBody(ts: seq<Token>, num: Numeric, i: nat, b: Block): (r: Parsed<Block>)
    requires WellTokenized(ts) && i < |ts|
    ensures r.Ok? ==> i < r.next < |ts|
    decreases |ts| - i
  {
    match ts[i]
    case RBrace => Ok(b, i + 1)
    case Eof => Err(Unterminated(b.kind))
    case Ident(name) =>
      if ts[i + 1] == Equal then
        (match ParseValue(ts, num, i + 2)
         case Err(e) => Err(e)
         case Ok(v, j) => ParseBody(ts, num, j, b.(attrs := b.attrs[name := v])))
      else
        (match ParseHeader(ts, name, i + 1)
         case Err(e) => Err(e)
         case Ok(child, j) =>
           match ParseBody(ts, num, j, child)
           case Err(e) => Err(e)
           case Ok(parsed, k) => ParseBody(ts, num, k, b.(blocks := b.blocks + [parsed])))
    case _ => Err(Expected("identifier"))
  }

  function ParseBlock(ts: seq<Token>, num: Numeric, i: nat): (r: Parsed<Block>)
    requires WellTokenized(ts) && i < |ts|
    ensures r.Ok? ==> i < r.next < |ts|
  {
    if !ts[i].Ident? then Err(Expected("identifier"))
    else
      match ParseHeader(ts, ts[i].lit, i + 1)
      case Err(e) => Err(e)
      case Ok(b, j) => ParseBody(ts, num, j, b)
  }

  function ParseFrom(ts: seq<Token>, num: Numeric, i: nat, out: seq<Block>): (r: Parsed<seq<Block>>)
    requires WellTokenized(ts) && i < |ts|
    decreases |ts| - i
  {
    if ts[i] == Eof then Ok(out, i)
    else
      match ParseBlock(ts, num, i)
      case Err(e) => Err(e)
      case Ok(b, j) => ParseFrom(ts, num, j, out + [b])
  }

  // ----- The parser as written: a cursor that moves -----

  class Parser {
    const tokens: seq<Token>
    const num: Numeric
    var i: nat

    constructor (tokens: seq<Token>, num: Numeric)
      ensures this.tokens == tokens && this.num == num && i == 0
    {
      this.tokens, this.num, i := tokens, num, 0;
    }

    function Peek(): Token
      requires i < |tokens|
      reads this
    {
      tokens[i]
    }

    method Next() returns (t: Token)
      requires i < |tokens|
      modifies this
      ensures t == tokens[old(i)] && i == old(i) + 1
    {
      t := tokens[i];
      i := i + 1;
    }

    /** The cursor is where the functional parser says, or the result is its error. */
    ghost predicate Agrees<T>(got: Parsed<T>, want: Parsed<T>)
      reads this
    {
      got == want && (got.Ok? ==> got.next == i)
    }

    method ParseOneValue() returns (r: Parsed<Value>)
      requires WellTokenized(tokens) && i < |tokens|
      modifies this
      ensures Agrees(r, ParseValue(tokens, num, old(i)))
      decreases |tokens| - i, 0
    {
      var t := Next();
      match t
      case Text(s) => r := Ok(StringValue(s), i);
      case Number(lit) =>
        match num(lit) {
          case Some(n) => r := Ok(NumberValue(n), i);
          case None => r := Err(BadNumber(lit));
        }
      case Ident(lit) =>
        if lit == "true" { return Ok(BoolValue(true), i); }
        if lit == "false" { return Ok(BoolValue(false), i); }
        r := Err(BareValue(lit));
      case LBracket =>
        var items: seq<Value> := [];
        while Peek() != RBracket
          invariant old(i) < i < |tokens|
          invariant ParseValue(tokens, num, old(i)) == ParseArray(tokens, num, i, items)
          decreases |tokens| - i
        {
          var v := ParseOneValue();
          if v.Err? { return Err(v.error); }
          items := items + [v.value];
          if Peek() == Comma { var _ := Next(); }
        }
        var _ := Next();
        r := Ok(ArrayValue(items), i);
      case _ => r := Err(InvalidValue);
    }

    /** The label loop and the opening brace, which block and blockBody share. */
    method Header(kind: string) returns (r: Parsed<Block>)
      requires WellTokenized(tokens) && i < |tokens|
      modifies this
      ensures Agrees(r, ParseHeader(tokens, kind, old(i)))
    {
      var labels: seq<string> := [];
      while Peek().Text?
        invariant old(i) <= i < |tokens| && SkipLabels(tokens, old(i)) == SkipLabels(tokens, i)
        invariant forall k :: old(i) <= k < i ==> tokens[k].Text?
        invariant labels == LabelsOf(tokens[old(i)..i])
        decreases |tokens| - i
      {
        var t := Next();
        labels := labels + [t.lit];
      }
      var t := Next();
      if t != LBrace { return Err(Expected("{")); }
      r := Ok(Block(kind, labels, map[], []), i);
    }

    method BlockBody(start: Block) returns (r: Parsed<Block>)
      requires WellTokenized(tokens) && i < |tokens|
      modifies this
      ensures Agrees(r, ParseBody(tokens, num, old(i), start))
      decreases |tokens| - i
    {
      hide ParseHeader, ParseValue;
      var b := start;
      while Peek() != RBrace
        invariant old(i) <= i < |tokens|
        invariant ParseBody(tokens, num, old(i), start) == ParseBody(tokens, num, i, b)
        decreases |tokens| - i
      {
        if Peek() == Eof { return Err(Unterminated(b.kind)); }
        var name := Next();
        if !name.Ident? { return Err(Expected("identifier")); }
        if Peek() == Equal {
          var _ := Next();
          var v := ParseOneValue();
          if v.Err? { return Err(v.error); }
          b := b.(attrs := b.attrs[name.lit := v.value]);
          continue;
        }
        var child := Header(name.lit);
        if child.Err? { return Err(child.error); }
        var parsed := BlockBody(child.value);
        if parsed.Err? { return Err(parsed.error); }
        b := b.(blocks := b.blocks + [parsed.value]);
      }
      var _ := Next();
      r := Ok(b, i);
    }

    /** block repeats the loop of blockBody inline; the two loops agree. */
    method ParseOneBlock() returns (r: Parsed<Block>)
      requires WellTokenized(tokens) && i < |tokens|
      modifies this
      ensures Agrees(r, ParseBlock(tokens, num, old(i)))
    {
      hide ParseHeader, ParseValue;
      var t := Next();
      if !t.Ident? { return Err(Expected("identifier")); }
      var header := Header(t.lit);
      if header.Err? { return Err(header.error); }
      var b := header.value;
      while Peek() != RBrace
        invariant old(i) < i < |tokens|
        invariant ParseBlock(tokens, num, old(i)) == ParseBody(tokens, num, i, b)
        decreases |tokens| - i
      {
        if Peek() == Eof { return Err(Unterminated(b.kind)); }
        var name := Next();
        if !name.Ident? { return Err(Expected("identifier")); }
        if Peek() == Equal {
          var _ := Next();
          var v := ParseOneValue();
          if v.Err? { return Err(v.error); }
          b := b.(attrs := b.attrs[name.lit := v.value]);
          continue;
        }
        var child := Header(name.lit);
        if child.Err? { return Err(child.error); }
        var parsed := BlockBody(child.value);
        if parsed.Err? { return Err(parsed.error); }
        b := b.(blocks := b.blocks + [parsed.value]);
      }
      var _ := Next();
      r := Ok(b, i);
    }
  }

  /** Parse after lexing.  That every cursor access is in bounds is part of what is verified: no token
      after the end marker is ever read. */
  method Parse(tokens: seq<Token>, num: Numeric) returns (r: Parsed<seq<Block>>)
    requires WellTokenized(tokens)
    ensures r == ParseFrom(tokens, num, 0, [])
  {
    var p := new Parser(tokens, num);
    var out: seq<Block> := [];
    while p.Peek() != Eof
      invariant p.tokens == tokens && p.num == num && p.i < |tokens|
      invariant ParseFrom(tokens, num, 0, []) == ParseFrom(tokens, num, p.i, out)
      decreases |tokens| - p.i
    {
      var b := p.ParseOneBlock();
      if b.Err? { return Err(b.error); }
      out := out + [b.value];
    }
    r := Ok(out, p.i);
  }

  // ----- The grammar: concrete syntax, printing and meaning -----

  datatype Term = StringTerm(s: string) | NumberTerm(lit: string) | BoolTerm(b: bool) | ArrayTerm(elems: Elems)

  /** Array elements; each may be followed by a comma, and the comma is optional everywhere. */
  datatype Elems = NoElems | Elem(head: Term, comma: bool, tail: Elems)

  datatype Items =
    | NoItems
    | Attr(name: string, term: Term, rest: Items)
    | Child(kind: string, labels: seq<string>, body: Items, rest: Items)

  function PrintTerm(t: Term): (ts: seq<Token>)
    ensures ts != [] && ts[0] != Comma && ts[0] != RBracket
  {
    match t
    case StringTerm(s) => [Text(s)]
    case NumberTerm(lit) => [Number(lit)]
    case BoolTerm(b) => [Ident(if b then "true" else "false")]
    case ArrayTerm(elems) => [LBracket] + PrintElems(elems)
  }

  /** The elements and the closing bracket. */
  function PrintElems(es: Elems): (ts: seq<Token>)
    ensures ts != [] && ts[0] != Comma
  {
    match es
    case NoElems => [RBracket]
    case Elem(t, comma, tail) => PrintTerm(t) + ((if comma then [Comma] else []) + PrintElems(tail))
  }

  function PrintLabels(labels: seq<string>): (ts: seq<Token>)
    ensures |ts| == |labels| && forall k :: 0 <= k < |ts| ==> ts[k] == Text(labels[k])
  {
    seq(|labels|, k requires 0 <= k < |labels| => Text(labels[k]))
  }

  /** The items of a body and its closing brace. */
  function PrintBody(items: Items): (ts: seq<Token>)
    ensures ts != [] && ts[0] != Equal && !ts[0].Text? && ts[0] != LBrace
    decreases items, 0
  {
    match items
    case NoItems => [RBrace]
    case Attr(name, t, rest) => [Ident(name), Equal] + (PrintTerm(t) + PrintBody(rest))
    case Child(kind, labels, body, rest) => PrintBlock(kind, labels, body) + PrintBody(rest)
  }

  function PrintBlock(kind: string, labels: seq<string>, body: Items): (ts: seq<Token>)
    decreases body, 1
    ensures ts != [] && ts[0] == Ident(kind)
  {
    [Ident(kind)] + (PrintLabels(labels) + ([LBrace] + PrintBody(body)))
  }

  predicate GoodTerm(num: Numeric, t: Term) {
    match t
    case NumberTerm(lit) => num(lit).Some?
    case ArrayTerm(elems) => GoodElems(num, elems)
    case _ => true
  }

  predicate GoodElems(num: Numeric, es: Elems) {
    es.NoElems? || (GoodTerm(num, es.head) && GoodElems(num, es.tail))
  }

  predicate GoodItems(num: Numeric, items: Items) {
    match items
    case NoItems => true
    case Attr(_, t, rest) => GoodTerm(num, t) && GoodItems(num, rest)
    case Child(_, _, body, rest) => GoodItems(num, body) && GoodItems(num, rest)
  }

  function TermValue(num: Numeric, t: Term): Value
    requires GoodTerm(num, t)
  {
    match t
    case StringTerm(s) => StringValue(s)
    case NumberTerm(lit) => NumberValue(num(lit).value)
    case BoolTerm(b) => BoolValue(b)
    case ArrayTerm(elems) => ArrayValue(ElemValues(num, elems))
  }

  function ElemValues(num: Numeric, es: Elems): seq<Value>
    requires GoodElems(num, es)
  {
    if es.NoElems? then [] else [TermValue(num, es.head)] + ElemValues(num, es.tail)
  }

  /** The meaning of a body: attributes override earlier ones, child blocks accumulate in order. */
  function Meaning(num: Numeric, items: Items, b: Block): Block
    requires GoodItems(num, items)
    decreases items
  {
    match items
    case NoItems => b
    case Attr(name, t, rest) => Meaning(num, rest, b.(attrs := b.attrs[name := TermValue(num, t)]))
    case Child(kind, labels, body, rest) =>
      Meaning(num, rest, b.(blocks := b.blocks + [Meaning(num, body, Block(kind, labels, map[], []))]))
  }

  /** A document is a list of blocks: the children of an imaginary outermost block. */
  predicate IsDocument(items: Items) {
    items.NoItems? || (items.Child? && IsDocument(items.rest))
  }

  function PrintDocument(items: Items): seq<Token>
    requires IsDocument(items)
  {
    if items.NoItems? then [Eof] else PrintBlock(items.kind, items.labels, items.body) + PrintDocument(items.rest)
  }

  function DocumentMeaning(num: Numeric, items: Items): seq<Block>
    requires IsDocument(items) && GoodItems(num, items)
  {
    if items.NoItems? then []
    else [Meaning(num, items.body, Block(items.kind, items.labels, map[], []))] + DocumentMeaning(num, items.rest)
  }

  // ----- Printed tokens parse to their meaning -----

  /** The tokens from `i` up to `j` are `p`. */
  ghost predicate Span(ts: seq<Token>, i: nat, j: nat, p: seq<Token>) {
    i <= j <= |ts| && ts[i..j] == p
  }

  lemma SpanSplit(ts: seq<Token>, i: nat, j: nat, p: seq<Token>, q: seq<Token>) returns (k: nat)
    requires Span(ts, i, j, p + q)
    ensures Span(ts, i, k, p) && Span(ts, k, j, q) && k == i + |p|
  {
    k := i + |p|;
    assert ts[i..j][..|p|] == ts[i..k] && ts[i..j][|p|..] == ts[k..j];
    assert (p + q)[..|p|] == p && (p + q)[|p|..] == q;
  }

  lemma SpanHead(ts: seq<Token>, i: nat, j: nat, p: seq<Token>)
    requires Span(ts, i, j, p) && p != []
    ensures i < j && i < |ts| && ts[i] == p[0]
    ensures Span(ts, i + 1, j, p[1..])
  {
    assert ts[i..j][0] == ts[i] && ts[i..j][1..] == ts[i + 1..j];
  }

  lemma {:induction false} TermParses(ts: seq<Token>, num: Numeric, i: nat, j: nat, t: Term)
    requires WellTokenized(ts) && GoodTerm(num, t) && Span(ts, i, j, PrintTerm(t)) && i < |ts|
    ensures ParseValue(ts, num, i) == Ok(TermValue(num, t), j)
    decreases t
  {
    SpanHead(ts, i, j, PrintTerm(t));
    if t.ArrayTerm? {
      assert PrintTerm(t)[1..] == PrintElems(t.elems);
      SpanHead(ts, i + 1, j, PrintElems(t.elems));
      ElemsParse(ts, num, i + 1, j, t.elems, []);
      assert [] + ElemValues(num, t.elems) == ElemValues(num, t.elems);
    }
  }

  lemma ElemsUnfold(num: Numeric, es: Elems, items: seq<Value>)
    requires GoodElems(num, es) && es.Elem?
    ensures GoodTerm(num, es.head) && GoodElems(num, es.tail)
    ensures PrintElems(es) == PrintTerm(es.head) + ((if es.comma then [Comma] else []) + PrintElems(es.tail))
    ensures items + [TermValue(num, es.head)] + ElemValues(num, es.tail) == items + ElemValues(num, es)
  {
  }

  lemma ArrayStep(ts: seq<Token>, num: Numeric, i: nat, items: seq<Value>)
    requires WellTokenized(ts) && i < |ts| && ts[i] != RBracket && ParseValue(ts, num, i).Ok?
    ensures var v := ParseValue(ts, num, i);
            ParseArray(ts, num, i, items) ==
            ParseArray(ts, num, if ts[v.next] == Comma then v.next + 1 else v.next, items + [v.value])
  {
  }

  lemma SeparatorSkipped(ts: seq<Token>, k: nat, j: nat, comma: bool, rest: seq<Token>) returns (m: nat)
    requires Span(ts, k, j, (if comma then [Comma] else []) + rest) && rest != [] && rest[0] != Comma
    ensures k < |ts| && m == (if ts[k] == Comma then k + 1 else k) && m < |ts| && Span(ts, m, j, rest)
  {
    m := SpanSplit(ts, k, j, if comma then [Comma] else [], rest);
    SpanHead(ts, m, j, rest);
    if comma { SpanHead(ts, k, m, [Comma]); }
  }

  lemma NoElemsParse(ts: seq<Token>, num: Numeric, i: nat, j: nat, items: seq<Value>)
    requires WellTokenized(ts) && Span(ts, i, j, PrintElems(NoElems)) && i < |ts|
    ensures ParseArray(ts, num, i, items) == Ok(ArrayValue(items + ElemValues(num, NoElems)), j)
  {
    SpanHead(ts, i, j, [RBracket]);
    assert items + [] == items;
  }

  lemma {:induction false} ElemsParse(ts: seq<Token>, num: Numeric, i: nat, j: nat, es: Elems, items: seq<Value>)
    requires WellTokenized(ts) && GoodElems(num, es) && Span(ts, i, j, PrintElems(es)) && i < |ts|
    ensures ParseArray(ts, num, i, items) == Ok(ArrayValue(items + ElemValues(num, es)), j)
    decreases es
  {
    hide Span, PrintTerm, PrintElems, ElemValues, TermValue, ParseArray, ParseValue, GoodTerm, GoodElems, WellTokenized;
    if es.NoElems? {
      NoElemsParse(ts, num, i, j, items);
    } else {
      ElemsUnfold(num, es, items);
      var k := SpanSplit(ts, i, j, PrintTerm(es.head), (if es.comma then [Comma] else []) + PrintElems(es.tail));
      SpanHead(ts, i, k, PrintTerm(es.head));
      var m := SeparatorSkipped(ts, k, j, es.comma, PrintElems(es.tail));
      TermParses(ts, num, i, k, es.head);
      ArrayStep(ts, num, i, items);
      ElemsParse(ts, num, m, j, es.tail, items + [TermValue(num, es.head)]);
    }
  }

  lemma {:induction false} LabelsSkipped(ts: seq<Token>, i: nat, j: nat)
    requires WellTokenized(ts) && i <= j < |ts| && !ts[j].Text? && forall k :: i <= k < j ==> ts[k].Text?
    ensures SkipLabels(ts, i) == j
    decreases j - i
  {
    if i < j { LabelsSkipped(ts, i + 1, j); }
  }

  lemma HeaderParses(ts: seq<Token>, kind: string, labels: seq<string>, i: nat, j: nat)
    requires WellTokenized(ts) && Span(ts, i, j, PrintLabels(labels)) && j < |ts| && ts[j] == LBrace
    ensures ParseHeader(ts, kind, i) == Ok(Block(kind, labels, map[], []), j + 1)
  {
    forall k | i <= k < j ensures ts[k] == Text(labels[k - i]) { assert ts[i..j][k - i] == ts[k]; }
    LabelsSkipped(ts, i, j);
    assert LabelsOf(ts[i..j]) == labels;
  }

  lemma AttrStep(ts: seq<Token>, num: Numeric, i: nat, b: Block)
    requires WellTokenized(ts) && i + 2 < |ts| && ts[i].Ident? && ts[i + 1] == Equal && ParseValue(ts, num, i + 2).Ok?
    ensures var v := ParseValue(ts, num, i + 2);
            ParseBody(ts, num, i, b) == ParseBody(ts, num, v.next, b.(attrs := b.attrs[ts[i].lit := v.value]))
  {
  }

  lemma ChildStep(ts: seq<Token>, num: Numeric, i: nat, b: Block)
    requires WellTokenized(ts) && i + 1 < |ts| && ts[i].Ident? && ts[i + 1] != Equal && ParseBlock(ts, num, i).Ok?
    ensures var child := ParseBlock(ts, num, i);
            ParseBody(ts, num, i, b) == ParseBody(ts, num, child.next, b.(blocks := b.blocks + [child.value]))
  {
  }

  lemma BlockStep(ts: seq<Token>, num: Numeric, i: nat, out: seq<Block>)
    requires WellTokenized(ts) && i < |ts| && ts[i] != Eof && ParseBlock(ts, num, i).Ok?
    ensures var b := ParseBlock(ts, num, i); ParseFrom(ts, num, i, out) == ParseFrom(ts, num, b.next, out + [b.value])
  {
  }

  lemma AttrUnfolds(num: Numeric, name: string, t: Term, rest: Items, b: Block)
    requires GoodItems(num, Attr(name, t, rest))
    ensures GoodTerm(num, t) && GoodItems(num, rest)
    ensures Meaning(num, Attr(name, t, rest), b) == Meaning(num, rest, b.(attrs := b.attrs[name := TermValue(num, t)]))
    ensures PrintBody(Attr(name, t, rest)) == [Ident(name), Equal] + (PrintTerm(t) + PrintBody(rest))
  {
  }

  lemma ChildUnfolds(num: Numeric, kind: string, labels: seq<string>, body: Items, rest: Items, b: Block)
    requires GoodItems(num, Child(kind, labels, body, rest))
    ensures GoodItems(num, body) && GoodItems(num, rest)
    ensures Meaning(num, Child(kind, labels, body, rest), b) ==
            Meaning(num, rest, b.(blocks := b.blocks + [Meaning(num, body, Block(kind, labels, map[], []))]))
    ensures PrintBody(Child(kind, labels, body, rest)) == PrintBlock(kind, labels, body) + PrintBody(rest)
  {
  }

  /** Where the parts of a printed attribute stand. */
  lemma AttrSpans(ts: seq<Token>, i: nat, j: nat, name: string, t: Term, rest: Items) returns (k: nat)
    requires Span(ts, i, j, [Ident(name), Equal] + (PrintTerm(t) + PrintBody(rest)))
    ensures i + 2 < |ts| && ts[i] == Ident(name) && ts[i + 1] == Equal
    ensures Span(ts, i + 2, k, PrintTerm(t)) && Span(ts, k, j, PrintBody(rest)) && k < |ts|
  {
    var m := SpanSplit(ts, i, j, [Ident(name), Equal], PrintTerm(t) + PrintBody(rest));
    k := SpanSplit(ts, m, j, PrintTerm(t), PrintBody(rest));
    SpanHead(ts, i, m, [Ident(name), Equal]);
    SpanHead(ts, i + 1, m, [Ident(name), Equal][1..]);
    SpanHead(ts, m, k, PrintTerm(t));
    SpanHead(ts, k, j, PrintBody(rest));
  }

  /** Where the parts of a printed block stand; it does not look like an attribute. */
  lemma BlockSpans(ts: seq<Token>, i: nat, j: nat, kind: string, labels: seq<string>, body: Items) returns (k: nat)
    requires Span(ts, i, j, PrintBlock(kind, labels, body))
    ensures i + 1 < |ts| && ts[i] == Ident(kind) && ts[i + 1] != Equal
    ensures Span(ts, i + 1, k, PrintLabels(labels)) && k + 1 < |ts| && ts[k] == LBrace &&
            Span(ts, k + 1, j, PrintBody(body))
  {
    var tail := PrintLabels(labels) + ([LBrace] + PrintBody(body));
    SpanHead(ts, i, j, [Ident(kind)] + tail);
    assert ([Ident(kind)] + tail)[1..] == tail;
    SpanHead(ts, i + 1, j, tail);
    k := SpanSplit(ts, i + 1, j, PrintLabels(labels), [LBrace] + PrintBody(body));
    SpanHead(ts, k, j, [LBrace] + PrintBody(body));
    assert ([LBrace] + PrintBody(body))[1..] == PrintBody(body);
    SpanHead(ts, k + 1, j, PrintBody(body));
  }

  lemma {:induction false} BodyParses(ts: seq<Token>, num: Numeric, i: nat, j: nat, items: Items, b: Block)
    requires WellTokenized(ts) && GoodItems(num, items) && Span(ts, i, j, PrintBody(items)) && i < |ts|
    ensures ParseBody(ts, num, i, b) == Ok(Meaning(num, items, b), j)
    decreases items, 1
  {
    match items
    case NoItems => SpanHead(ts, i, j, PrintBody(items));
    case Attr(name, t, rest) => AttrParses(ts, num, i, j, name, t, rest, b);
    case Child(kind, labels, body, rest) => ChildParses(ts, num, i, j, kind, labels, body, rest, b);
  }

  lemma {:induction false} AttrParses(ts: seq<Token>, num: Numeric, i: nat, j: nat, name: string, t: Term, rest: Items,
                                      b: Block)
    requires WellTokenized(ts) && GoodItems(num, Attr(name, t, rest)) && i < |ts|
    requires Span(ts, i, j, PrintBody(Attr(name, t, rest)))
    ensures ParseBody(ts, num, i, b) == Ok(Meaning(num, Attr(name, t, rest), b), j)
    decreases Attr(name, t, rest), 0
  {
    hide *;
    AttrUnfolds(num, name, t, rest, b);
    var k := AttrSpans(ts, i, j, name, t, rest);
    TermParses(ts, num, i + 2, k, t);
    AttrStep(ts, num, i, b);
    BodyParses(ts, num, k, j, rest, b.(attrs := b.attrs[name := TermValue(num, t)]));
  }

  lemma {:induction false} ChildParses(ts: seq<Token>, num: Numeric, i: nat, j: nat, kind: string, labels: seq<string>,
                                       body: Items,
                                       rest: Items, b: Block)
    requires WellTokenized(ts) && GoodItems(num, Child(kind, labels, body, rest)) && i < |ts|
    requires Span(ts, i, j, PrintBody(Child(kind, labels, body, rest)))
    ensures ParseBody(ts, num, i, b) == Ok(Meaning(num, Child(kind, labels, body, rest), b), j)
    decreases Child(kind, labels, body, rest), 0
  {
    hide *;
    ChildUnfolds(num, kind, labels, body, rest, b);
    var k := SpanSplit(ts, i, j, PrintBlock(kind, labels, body), PrintBody(rest));
    var _ := BlockSpans(ts, i, k, kind, labels, body);
    BlockParses(ts, num, i, k, kind, labels, body);
    ChildStep(ts, num, i, b);
    SpanHead(ts, k, j, PrintBody(rest));
    BodyParses(ts, num, k, j, rest, b.(blocks := b.blocks + [Meaning(num, body, Block(kind, labels, map[], []))]));
  }

  lemma {:induction false} BlockParses(ts: seq<Token>, num: Numeric, i: nat, j: nat, kind: string, labels: seq<string>,
                                       body: Items)
    requires WellTokenized(ts) && GoodItems(num, body) && Span(ts, i, j, PrintBlock(kind, labels, body)) && i < |ts|
    ensures ParseBlock(ts, num, i) == Ok(Meaning(num, body, Block(kind, labels, map[], [])), j)
    decreases body, 2
  {
    hide ParseBody, ParseHeader, Meaning, PrintBody, PrintBlock, Span, GoodItems, PrintLabels;
    var k := BlockSpans(ts, i, j, kind, labels, body);
    HeaderParses(ts, kind, labels, i + 1, k);
    BodyParses(ts, num, k + 1, j, body, Block(kind, labels, map[], []));
  }

  lemma DocumentUnfolds(num: Numeric, items: Items)
    requires IsDocument(items) && GoodItems(num, items) && items.Child?
    ensures GoodItems(num, items.body) && GoodItems(num, items.rest) && IsDocument(items.rest) &&
            PrintDocument(items.rest) != []
    ensures PrintDocument(items) == PrintBlock(items.kind, items.labels, items.body) + PrintDocument(items.rest)
    ensures DocumentMeaning(num, items) ==
            [Meaning(num, items.body, Block(items.kind, items.labels, map[], []))] + DocumentMeaning(num, items.rest)
  {
  }

  lemma EmptyDocumentParses(ts: seq<Token>, num: Numeric, i: nat, out: seq<Block>)
    requires WellTokenized(ts) && Span(ts, i, |ts|, PrintDocument(NoItems)) && i < |ts|
    ensures ParseFrom(ts, num, i, out) == Ok(out + DocumentMeaning(num, NoItems), |ts| - 1)
  {
    SpanHead(ts, i, |ts|, [Eof]);
    assert out + [] == out;
  }

  lemma {:induction false} DocumentParsesFrom(ts: seq<Token>, num: Numeric, i: nat, items: Items, out: seq<Block>)
    requires WellTokenized(ts) && IsDocument(items) && GoodItems(num, items) &&
             Span(ts, i, |ts|, PrintDocument(items)) && i < |ts|
    ensures ParseFrom(ts, num, i, out) == Ok(out + DocumentMeaning(num, items), |ts| - 1)
    decreases items
  {
    match items
    case NoItems => EmptyDocumentParses(ts, num, i, out);
    case Attr(_, _, _) =>
    case Child(kind, labels, body, rest) =>
      DocumentUnfolds(num, items);
      hide *;
      var k := SpanSplit(ts, i, |ts|, PrintBlock(kind, labels, body), PrintDocument(rest));
      var _ := BlockSpans(ts, i, k, kind, labels, body);
      SpanHead(ts, k, |ts|, PrintDocument(rest));
      BlockParses(ts, num, i, k, kind, labels, body);
      BlockStep(ts, num, i, out);
      var b := ParseBlock(ts, num, i);
      DocumentParsesFrom(ts, num, k, rest, out + [b.value]);
      AppendOne(out, b.value, DocumentMeaning(num, rest));
  }

  lemma AppendOne<T>(a: seq<T>, x: T, b: seq<T>)
    ensures a + [x] + b == a + ([x] + b)
  {
  }

  // ----- Whatever parses was printed -----

  lemma {:induction false} TermOf(ts: seq<Token>, num: Numeric, i: nat) returns (t: Term)
    requires WellTokenized(ts) && i < |ts| && ParseValue(ts, num, i).Ok?
    ensures GoodTerm(num, t) && TermValue(num, t) == ParseValue(ts, num, i).value
    ensures PrintTerm(t) == ts[i..ParseValue(ts, num, i).next]
    decreases |ts| - i, 0
  {
    var j := ParseValue(ts, num, i).next;
    match ts[i]
    case Text(s) => t := StringTerm(s);
    case Number(lit) => t := NumberTerm(lit);
    case Ident(lit) => t := BoolTerm(lit == "true");
    case LBracket =>
      var es := ElemsOf(ts, num, i + 1, []);
      t := ArrayTerm(es);
      assert ts[i..j] == [ts[i]] + ts[i + 1..j];
      assert [] + ElemValues(num, es) == ElemValues(num, es);
  }

  lemma {:induction false} ElemsOf(ts: seq<Token>, num: Numeric, i: nat, items: seq<Value>) returns (es: Elems)
    requires WellTokenized(ts) && i < |ts| && ParseArray(ts, num, i, items).Ok?
    ensures GoodElems(num, es) && ArrayValue(items + ElemValues(num, es)) == ParseArray(ts, num, i, items).value
    ensures PrintElems(es) == ts[i..ParseArray(ts, num, i, items).next]
    decreases |ts| - i, 1
  {
    if ts[i] == RBracket {
      es := NoElems;
      assert items + [] == items;
    } else {
      ArrayUnfolds(ts, num, i, items);
      ArrayStep(ts, num, i, items);
      hide *;
      var j, v := ParseArray(ts, num, i, items).next, ParseValue(ts, num, i);
      var t := TermOf(ts, num, i);
      var k := if ts[v.next] == Comma then v.next + 1 else v.next;
      var tail := ElemsOf(ts, num, k, items + [v.value]);
      es := Elem(t, ts[v.next] == Comma, tail);
      ElemsCons(num, t, ts[v.next] == Comma, tail);
      CutElem(ts, i, v.next, k, j);
      AppendOne(items, v.value, ElemValues(num, tail));
    }
  }

  lemma CutElem(ts: seq<Token>, i: nat, m: nat, k: nat, j: nat)
    requires i <= m < |ts| && k == (if ts[m] == Comma then m + 1 else m) && k <= j <= |ts|
    ensures ts[i..j] == ts[i..m] + ((if ts[m] == Comma then [Comma] else []) + ts[k..j])
  {
    assert ts[i..j] == ts[i..m] + (ts[m..k] + ts[k..j]);
  }

  lemma ArrayUnfolds(ts: seq<Token>, num: Numeric, i: nat, items: seq<Value>)
    requires WellTokenized(ts) && i < |ts| && ts[i] != RBracket && ParseArray(ts, num, i, items).Ok?
    ensures var v := ParseValue(ts, num, i);
            v.Ok? && i < v.next < |ts| && (ts[v.next] == Comma ==> v.next + 1 < |ts|)
  {
  }

  lemma ElemsCons(num: Numeric, t: Term, comma: bool, tail: Elems)
    requires GoodTerm(num, t) && GoodElems(num, tail)
    ensures GoodElems(num, Elem(t, comma, tail))
    ensures PrintElems(Elem(t, comma, tail)) == PrintTerm(t) + ((if comma then [Comma] else []) + PrintElems(tail))
    ensures ElemValues(num, Elem(t, comma, tail)) == [TermValue(num, t)] + ElemValues(num, tail)
  {
  }

  lemma HeaderOf(ts: seq<Token>, kind: string, i: nat)
    requires WellTokenized(ts) && i < |ts| && ParseHeader(ts, kind, i).Ok?
    ensures var h := ParseHeader(ts, kind, i);
            h.value == Block(kind, h.value.labels, map[], []) && ts[i..h.next] == PrintLabels(h.value.labels) + [LBrace]
  {
    var j := SkipLabels(ts, i);
    assert ts[i..j + 1] == ts[i..j] + [ts[j]];
    assert PrintLabels(LabelsOf(ts[i..j])) == ts[i..j];
  }

  lemma BlockAfterHeader(ts: seq<Token>, num: Numeric, i: nat)
    requires WellTokenized(ts) && i < |ts| && ts[i].Ident? && ParseBlock(ts, num, i).Ok?
    requires ParseHeader(ts, ts[i].lit, i + 1).Ok?
    ensures i < ParseHeader(ts, ts[i].lit, i + 1).next <= ParseBlock(ts, num, i).next
  {
  }

  /** The syntax of the block at `i`, given that of its body. */
  lemma BlockOf(ts: seq<Token>, num: Numeric, i: nat, body: Items)
    requires WellTokenized(ts) && i < |ts| && ts[i].Ident? && ParseBlock(ts, num, i).Ok? && GoodItems(num, body)
    requires ParseHeader(ts, ts[i].lit, i + 1).Ok?
    requires var h := ParseHeader(ts, ts[i].lit, i + 1);
             PrintBody(body) == ts[h.next..ParseBlock(ts, num, i).next] &&
               Meaning(num, body, h.value) == ParseBlock(ts, num, i).value
    ensures var labels := ParseHeader(ts, ts[i].lit, i + 1).value.labels;
            PrintBlock(ts[i].lit, labels, body) == ts[i..ParseBlock(ts, num, i).next] &&
            Meaning(num, body, Block(ts[i].lit, labels, map[], [])) == ParseBlock(ts, num, i).value
  {
    hide ParseBlock, ParseHeader, PrintBody, PrintBlock, PrintLabels, Meaning, WellTokenized, GoodItems;
    var kind, h, j := ts[i].lit, ParseHeader(ts, ts[i].lit, i + 1), ParseBlock(ts, num, i).next;
    HeaderOf(ts, kind, i + 1);
    BlockAfterHeader(ts, num, i);
    var labels := h.value.labels;
    PrintBlockIs(kind, labels, body);
    CutInThree(ts, i, h.next, j);
    assert PrintLabels(labels) + [LBrace] + PrintBody(body) == PrintLabels(labels) + ([LBrace] + PrintBody(body));
  }

  lemma PrintBlockIs(kind: string, labels: seq<string>, body: Items)
    ensures PrintBlock(kind, labels, body) == [Ident(kind)] + (PrintLabels(labels) + ([LBrace] + PrintBody(body)))
  {
  }

  lemma CutInThree(ts: seq<Token>, i: nat, k: nat, j: nat)
    requires i < k <= j <= |ts|
    ensures ts[i..j] == [ts[i]] + (ts[i + 1..k] + ts[k..j])
  {
  }

  lemma {:induction false} BodyOf(ts: seq<Token>, num: Numeric, i: nat, b: Block) returns (items: Items)
    requires WellTokenized(ts) && i < |ts| && ParseBody(ts, num, i, b).Ok?
    ensures GoodItems(num, items) && Meaning(num, items, b) == ParseBody(ts, num, i, b).value
    ensures PrintBody(items) == ts[i..ParseBody(ts, num, i, b).next]
    decreases |ts| - i
  {
    if ts[i] == RBrace {
      items := NoItems;
    } else if ts[i + 1] == Equal {
      AttrStep(ts, num, i, b);
      var v := ParseValue(ts, num, i + 2);
      var t := TermOf(ts, num, i + 2);
      var rest := BodyOf(ts, num, v.next, b.(attrs := b.attrs[ts[i].lit := v.value]));
      items := Attr(ts[i].lit, t, rest);
      AttrUnfolds(num, ts[i].lit, t, rest, b);
      CutAttr(ts, i, v.next, ParseBody(ts, num, i, b).next);
      hide ParseBody, ParseValue, WellTokenized, Meaning, PrintBody, PrintTerm, GoodItems, GoodTerm, TermValue;
    } else {
      var h := ParseHeader(ts, ts[i].lit, i + 1);
      var body := BodyOf(ts, num, h.next, h.value);
      BlockOf(ts, num, i, body);
      ChildStep(ts, num, i, b);
      var child, labels := ParseBlock(ts, num, i), h.value.labels;
      var rest := BodyOf(ts, num, child.next, b.(blocks := b.blocks + [child.value]));
      items := Child(ts[i].lit, labels, body, rest);
      ChildUnfolds(num, ts[i].lit, labels, body, rest, b);
      CutInTwo(ts, i, child.next, ParseBody(ts, num, i, b).next);
      hide ParseBody, ParseBlock, ParseHeader, WellTokenized, Meaning, PrintBody, PrintBlock, GoodItems;
    }
  }

  lemma CutAttr(ts: seq<Token>, i: nat, k: nat, j: nat)
    requires i + 2 <= k <= j <= |ts|
    ensures ts[i..j] == [ts[i], ts[i + 1]] + (ts[i + 2..k] + ts[k..j])
  {
  }

  lemma CutInTwo(ts: seq<Token>, i: nat, k: nat, j: nat)
    requires i <= k <= j <= |ts|
    ensures ts[i..j] == ts[i..k] + ts[k..j]
  {
  }

  lemma {:induction false} DocumentOf(ts: seq<Token>, num: Numeric, i: nat, out: seq<Block>) returns (items: Items)
    requires WellTokenized(ts) && i < |ts| && ParseFrom(ts, num, i, out).Ok?
    ensures IsDocument(items) && GoodItems(num, items) && PrintDocument(items) == ts[i..]
    ensures out + DocumentMeaning(num, items) == ParseFrom(ts, num, i, out).value
    decreases |ts| - i
  {
    if ts[i] == Eof {
      items := NoItems;
      assert out + [] == out;
    } else {
      FromUnfolds(ts, num, i, out);
      BlockStep(ts, num, i, out);
      hide *;
      var b := ParseBlock(ts, num, i);
      var labels, body := BlockSyntax(ts, num, i);
      var rest := DocumentOf(ts, num, b.next, out + [b.value]);
      items := Child(ts[i].lit, labels, body, rest);
      DocumentCons(num, ts[i].lit, labels, body, rest);
      CutRest(ts, i, b.next);
      AppendOne(out, b.value, DocumentMeaning(num, rest));
    }
  }

  lemma CutRest(ts: seq<Token>, i: nat, k: nat)
    requires i <= k <= |ts|
    ensures ts[i..] == ts[i..k] + ts[k..]
  {
  }

  lemma FromUnfolds(ts: seq<Token>, num: Numeric, i: nat, out: seq<Block>)
    requires WellTokenized(ts) && i < |ts| && ts[i] != Eof && ParseFrom(ts, num, i, out).Ok?
    ensures ParseBlock(ts, num, i).Ok? && ParseBlock(ts, num, i).next < |ts|
  {
  }

  lemma DocumentCons(num: Numeric, kind: string, labels: seq<string>, body: Items, rest: Items)
    requires GoodItems(num, body) && IsDocument(rest) && GoodItems(num, rest)
    ensures var items := Child(kind, labels, body, rest);
            && IsDocument(items) && GoodItems(num, items)
            && PrintDocument(items) == PrintBlock(kind, labels, body) + PrintDocument(rest)
            && DocumentMeaning(num, items) == [Meaning(num, body, Block(kind, labels, map[], []))] +
               DocumentMeaning(num, rest)
  {
  }

  lemma BlockSyntax(ts: seq<Token>, num: Numeric, i: nat) returns (labels: seq<string>, body: Items)
    requires WellTokenized(ts) && i < |ts| && ParseBlock(ts, num, i).Ok?
    ensures ts[i].Ident? && GoodItems(num, body) &&
            PrintBlock(ts[i].lit, labels, body) == ts[i..ParseBlock(ts, num, i).next]
    ensures Meaning(num, body, Block(ts[i].lit, labels, map[], [])) == ParseBlock(ts, num, i).value
  {
    var h := ParseHeader(ts, ts[i].lit, i + 1);
    labels := h.value.labels;
    body := BodyOf(ts, num, h.next, h.value);
    BlockOf(ts, num, i, body);
  }

  ghost predicate IsPrintingOf(ts: seq<Token>, num: Numeric, items: Items) {
    IsDocument(items) && GoodItems(num, items) && PrintDocument(items) == ts
  }

  /** The parser accepts exactly the printed documents, and returns what they mean. */
  lemma ParserIsExact(ts: seq<Token>, num: Numeric)
    requires WellTokenized(ts)
    ensures ParseFrom(ts, num, 0, []).Ok? <==> exists items :: IsPrintingOf(ts, num, items)
    ensures forall items :: IsPrintingOf(ts, num, items) ==>
              ParseFrom(ts, num, 0, []) == Ok(DocumentMeaning(num, items), |ts| - 1)
  {
    forall items | IsPrintingOf(ts, num, items)
      ensures ParseFrom(ts, num, 0, []) == Ok(DocumentMeaning(num, items), |ts| - 1)
    {
      DocumentParsesFrom(ts, num, 0, items, []);
      assert [] + DocumentMeaning(num, items) == DocumentMeaning(num, items);
    }
    if ParseFrom(ts, num, 0, []).Ok? {
      var items := DocumentOf(ts, num, 0, []);
      assert IsPrintingOf(ts, num, items);
    }
  }

  // ----- Every block list has a printing -----

  /** The numbers in the value are read back from their literals. */
  ghost predicate WritesValue(num: Numeric, literal: Num -> string, v: Value)
    decreases v
  {
    match v
    case NumberValue(n) => num(literal(n)) == Some(n)
    case ArrayValue(items) => forall i :: 0 <= i < |items| ==> WritesValue(num, literal, items[i])
    case _ => true
  }

  ghost predicate WritesAttrs(num: Numeric, literal: Num -> string, attrs: map<string, Value>) {
    forall name :: name in attrs ==> WritesValue(num, literal, attrs[name])
  }

  /** The numbers that occur anywhere in the blocks are read back from their literals. */
  ghost predicate WritesBlocks(num: Numeric, literal: Num -> string, blocks: seq<Block>)
    decreases blocks
  {
    forall i :: 0 <= i < |blocks| ==>
      WritesAttrs(num, literal, blocks[i].attrs) && WritesBlocks(num, literal, blocks[i].blocks)
  }

  function TermFor(literal: Num -> string, v: Value): Term
    decreases v
  {
    match v
    case StringValue(s) => StringTerm(s)
    case NumberValue(n) => NumberTerm(literal(n))
    case BoolValue(b) => BoolTerm(b)
    case ArrayValue(items) => ArrayTerm(ElemsFor(literal, items))
  }

  function ElemsFor(literal: Num -> string, items: seq<Value>): Elems
    decreases items
  {
    if items == [] then NoElems else Elem(TermFor(literal, items[0]), |items| > 1, ElemsFor(literal, items[1..]))
  }

  /** The attributes in some order, then `rest`. */
  ghost function AttrsFor(literal: Num -> string, attrs: map<string, Value>, rest: Items): Items
    decreases |attrs|
  {
    if attrs == map[] then rest
    else
      var name :| name in attrs;
      assert |attrs - {name}| < |attrs| by {
        assert name in attrs.Keys && (attrs - {name}).Keys == attrs.Keys - {name};
      }
      Attr(name, TermFor(literal, attrs[name]), AttrsFor(literal, attrs - {name}, rest))
  }

  ghost function DocumentFor(literal: Num -> string, blocks: seq<Block>): (items: Items)
    ensures IsDocument(items)
    decreases blocks
  {
    if blocks == [] then NoItems
    else
      var b := blocks[0];
      Child(b.kind, b.labels, AttrsFor(literal, b.attrs, DocumentFor(literal, b.blocks)),
            DocumentFor(literal, blocks[1..]))
  }

  lemma {:induction false} TermForMeans(num: Numeric, literal: Num -> string, v: Value)
    requires WritesValue(num, literal, v)
    ensures GoodTerm(num, TermFor(literal, v)) && TermValue(num, TermFor(literal, v)) == v
    decreases v
  {
    match v
    case ArrayValue(items) => ElemsForMean(num, literal, items);
    case NumberValue(n) => assert num(literal(n)) == Some(n);
    case _ =>
  }

  lemma {:induction false} ElemsForMean(num: Numeric, literal: Num -> string, items: seq<Value>)
    requires forall i :: 0 <= i < |items| ==> WritesValue(num, literal, items[i])
    ensures GoodElems(num, ElemsFor(literal, items)) && ElemValues(num, ElemsFor(literal, items)) == items
    decreases items
  {
    if items != [] {
      TermForMeans(num, literal, items[0]);
      ElemsForMean(num, literal, items[1..]);
    }
  }

  lemma AttrsForUnfolds(literal: Num -> string, attrs: map<string, Value>, rest: Items)
    returns (name: string, fewer: map<string, Value>)
    requires attrs != map[]
    ensures name in attrs && fewer == attrs - {name} && |fewer| < |attrs|
    ensures AttrsFor(literal, attrs, rest) == Attr(name, TermFor(literal, attrs[name]), AttrsFor(literal, fewer, rest))
  {
    name := AttrsFor(literal, attrs, rest).name;
    fewer := attrs - {name};
    assert name in attrs.Keys && fewer.Keys == attrs.Keys - {name};
  }

  lemma AttrMeaning(num: Numeric, name: string, t: Term, rest: Items, b: Block)
    requires GoodTerm(num, t) && GoodItems(num, rest)
    ensures GoodItems(num, Attr(name, t, rest))
    ensures Meaning(num, Attr(name, t, rest), b) == Meaning(num, rest, b.(attrs := b.attrs[name := TermValue(num, t)]))
  {
  }

  lemma {:induction false} AttrsForMean(num: Numeric, literal: Num -> string, attrs: map<string, Value>, rest: Items,
                                        b: Block)
    requires WritesAttrs(num, literal, attrs) && GoodItems(num, rest)
    ensures GoodItems(num, AttrsFor(literal, attrs, rest))
    ensures Meaning(num, AttrsFor(literal, attrs, rest), b) == Meaning(num, rest, b.(attrs := b.attrs + attrs))
    decreases |attrs|
  {
    hide *;
    if attrs == map[] {
      NoAttrs(literal, rest, b);
    } else {
      var name, fewer := AttrsForUnfolds(literal, attrs, rest);
      FewerAttrs(num, literal, attrs, name);
      var next := b.(attrs := b.attrs[name := attrs[name]]);
      TermForMeans(num, literal, attrs[name]);
      AttrsForMean(num, literal, fewer, rest, next);
      AttrMeaning(num, name, TermFor(literal, attrs[name]), AttrsFor(literal, fewer, rest), b);
      AddTheRest(b.attrs, name, attrs);
    }
  }

  lemma FewerAttrs(num: Numeric, literal: Num -> string, attrs: map<string, Value>, name: string)
    requires WritesAttrs(num, literal, attrs) && name in attrs
    ensures WritesValue(num, literal, attrs[name]) && WritesAttrs(num, literal, attrs - {name})
  {
  }

  lemma NoAttrs(literal: Num -> string, rest: Items, b: Block)
    ensures AttrsFor(literal, map[], rest) == rest && b.(attrs := b.attrs + map[]) == b
  {
    assert b.attrs + map[] == b.attrs;
  }

  lemma AddTheRest(a: map<string, Value>, name: string, b: map<string, Value>)
    requires name in b
    ensures a[name := b[name]] + (b - {name}) == a + b
  {
  }

  /** The items of a document that becomes the body of `b` append its blocks. */
  lemma {:induction false} DocumentAsBody(num: Numeric, items: Items, b: Block)
    requires IsDocument(items) && GoodItems(num, items)
    ensures Meaning(num, items, b) == b.(blocks := b.blocks + DocumentMeaning(num, items))
    decreases items
  {
    if items.NoItems? {
      assert b.blocks + [] == b.blocks;
    } else {
      var child := Meaning(num, items.body, Block(items.kind, items.labels, map[], []));
      DocumentAsBody(num, items.rest, b.(blocks := b.blocks + [child]));
      AppendOne(b.blocks, child, DocumentMeaning(num, items.rest));
    }
  }

  lemma {:induction false} DocumentForMeans(num: Numeric, literal: Num -> string, blocks: seq<Block>)
    requires WritesBlocks(num, literal, blocks)
    ensures IsDocument(DocumentFor(literal, blocks)) && GoodItems(num, DocumentFor(literal, blocks))
    ensures DocumentMeaning(num, DocumentFor(literal, blocks)) == blocks
    decreases blocks
  {
    if blocks != [] {
      var b := blocks[0];
      var inner, start := DocumentFor(literal, b.blocks), Block(b.kind, b.labels, map[], []);
      DocumentForMeans(num, literal, b.blocks);
      DocumentForMeans(num, literal, blocks[1..]);
      AttrsForMean(num, literal, b.attrs, inner, start);
      assert start.attrs + b.attrs == b.attrs;
      DocumentAsBody(num, inner, start.(attrs := b.attrs));
      assert [] + b.blocks == b.blocks;
    }
  }

  ghost predicate NoEof(ts: seq<Token>) {
    forall i :: 0 <= i < |ts| ==> ts[i] != Eof
  }

  lemma {:induction false} TermHasNoEof(t: Term)
    ensures NoEof(PrintTerm(t))
    decreases t
  {
    if t.ArrayTerm? { ElemsHaveNoEof(t.elems); }
  }

  lemma {:induction false} ElemsHaveNoEof(es: Elems)
    ensures NoEof(PrintElems(es))
    decreases es
  {
    if es.Elem? {
      TermHasNoEof(es.head);
      ElemsHaveNoEof(es.tail);
    }
  }

  lemma {:induction false} BodyHasNoEof(items: Items)
    ensures NoEof(PrintBody(items))
    decreases items
  {
    match items
    case NoItems =>
    case Attr(_, t, rest) =>
      TermHasNoEof(t);
      BodyHasNoEof(rest);
    case Child(_, _, body, rest) =>
      BodyHasNoEof(body);
      BodyHasNoEof(rest);
  }

  /** A printed document is a token list as the lexer delivers it. */
  lemma {:induction false} PrintingIsTokenized(items: Items)
    requires IsDocument(items)
    ensures WellTokenized(PrintDocument(items))
    decreases items
  {
    if items.Child? {
      BodyHasNoEof(items.body);
      PrintingIsTokenized(items.rest);
    }
  }

  /** Round trip: the printing of any block list, of any nesting depth, parses back to that list, provided
      that the numbers that occur in it are read back from their literals. */
  lemma RoundTrip(num: Numeric, literal: Num -> string, blocks: seq<Block>)
    requires WritesBlocks(num, literal, blocks)
    ensures var ts := PrintDocument(DocumentFor(literal, blocks));
            WellTokenized(ts) && ParseFrom(ts, num, 0, []) == Ok(blocks, |ts| - 1)
  {
    var items := DocumentFor(literal, blocks);
    DocumentForMeans(num, literal, blocks);
    PrintingIsTokenized(items);
    ParserIsExact(PrintDocument(items), num);
    assert IsPrintingOf(PrintDocument(items), num, items);
  }

  // ----- The numbers the parser reads -----

  /** The value method's number branch; reading a literal with a point is left to `float`. */
  function Numbers(float: string -> Option<real>): Numeric {
    (lit: string) =>
      if '.' in lit then (match float(lit) case None => None case Some(r) => Some(Decimal(r)))
      else (match T.Atoi(lit) case None => None case Some(n) => Some(Whole(n)))
  }

  function Literal(decimal: real -> string): Num -> string {
    (n: Num) => match n case Whole(i) => T.Itoa(i) case Decimal(r) => decimal(r)
  }

  /** A number of the 64-bit range, or one whose decimal literal is read back. */
  ghost predicate Readable(float: string -> Option<real>, decimal: real -> string, n: Num) {
    match n
    case Whole(i) => -T.MAX_INT - 1 <= i <= T.MAX_INT
    case Decimal(r) => '.' in decimal(r) && float(decimal(r)) == Some(r)
  }

  ghost predicate ReadableValue(float: string -> Option<real>, decimal: real -> string, v: Value)
    decreases v
  {
    match v
    case NumberValue(n) => Readable(float, decimal, n)
    case ArrayValue(items) => forall i :: 0 <= i < |items| ==> ReadableValue(float, decimal, items[i])
    case _ => true
  }

  ghost predicate ReadableBlocks(float: string -> Option<real>, decimal: real -> string, blocks: seq<Block>)
    decreases blocks
  {
    forall i :: 0 <= i < |blocks| ==>
      (forall name :: name in blocks[i].attrs ==> ReadableValue(float, decimal, blocks[i].attrs[name])) &&
      ReadableBlocks(float, decimal, blocks[i].blocks)
  }

  lemma NumberIsRead(float: string -> Option<real>, decimal: real -> string, n: Num)
    requires Readable(float, decimal, n)
    ensures Numbers(float)(Literal(decimal)(n)) == Some(n)
  {
    if n.Whole? {
      T.AtoiReadsItoa(n.i);
      assert '.' !in T.Itoa(n.i);
    }
    hide T.Atoi, T.Itoa;
  }

  lemma {:induction false} ValueIsWritten(float: string -> Option<real>, decimal: real -> string, v: Value)
    requires ReadableValue(float, decimal, v)
    ensures WritesValue(Numbers(float), Literal(decimal), v)
    decreases v
  {
    match v
    case NumberValue(n) => NumberIsRead(float, decimal, n);
    case ArrayValue(items) =>
      forall i | 0 <= i < |items| ensures WritesValue(Numbers(float), Literal(decimal), items[i]) {
        ValueIsWritten(float, decimal, items[i]);
      }
    case _ =>
  }

  lemma {:induction false} BlocksAreWritten(float: string -> Option<real>, decimal: real -> string, blocks: seq<Block>)
    requires ReadableBlocks(float, decimal, blocks)
    ensures WritesBlocks(Numbers(float), Literal(decimal), blocks)
    decreases blocks
  {
    forall i | 0 <= i < |blocks|
      ensures WritesAttrs(Numbers(float), Literal(decimal), blocks[i].attrs)
      ensures WritesBlocks(Numbers(float), Literal(decimal), blocks[i].blocks)
    {
      forall name | name in blocks[i].attrs
        ensures WritesValue(Numbers(float), Literal(decimal), blocks[i].attrs[name])
      {
        ValueIsWritten(float, decimal, blocks[i].attrs[name]);
      }
      BlocksAreWritten(float, decimal, blocks[i].blocks);
    }
  }

  /** With the parser's own reading of numbers, every block list whose whole numbers fit in 64 bits, and
      whose other numbers have a literal that is read back, survives printing and parsing. */
  lemma RoundTripOfNumbers(float: string -> Option<real>, decimal: real -> string, blocks: seq<Block>)
    requires ReadableBlocks(float, decimal, blocks)
    ensures var ts := PrintDocument(DocumentFor(Literal(decimal), blocks));
            WellTokenized(ts) && ParseFrom(ts, Numbers(float), 0, []) == Ok(blocks, |ts| - 1)
  {
    BlocksAreWritten(float, decimal, blocks);
    hide *;
    RoundTrip(Numbers(float), Literal(decimal), blocks);
  }

  // ----- What a body means -----

  /** The value of the last attribute of that name, on this level. */
  function LastAttr(num: Numeric, items: Items, name: string): Option<Value>
    requires GoodItems(num, items)
  {
    match items
    case NoItems => None
    case Attr(n, t, rest) =>
      var later := LastAttr(num, rest, name);
      if later.Some? then later else if n == name then Some(TermValue(num, t)) else None
    case Child(_, _, _, rest) => LastAttr(num, rest, name)
  }

  /** The meanings of the child blocks, in their order. */
  function ChildBlocks(num: Numeric, items: Items): seq<Block>
    requires GoodItems(num, items)
  {
    match items
    case NoItems => []
    case Attr(_, _, rest) => ChildBlocks(num, rest)
    case Child(kind, labels, body, rest) =>
      [Meaning(num, body, Block(kind, labels, map[], []))] + ChildBlocks(num, rest)
  }

  /** A body adds to its block its attributes, of which the last one of a name counts, and its child blocks
      in their order; kind and labels are those of the header. */
  lemma {:induction false} BodyMeaning(num: Numeric, items: Items, b: Block, name: string)
    requires GoodItems(num, items)
    ensures
      var m, v := Meaning(num, items, b), LastAttr(num, items, name);
      && m.kind == b.kind && m.labels == b.labels && m.blocks == b.blocks + ChildBlocks(num, items)
      && (name in m.attrs <==> v.Some? || name in b.attrs)
      && (name in m.attrs ==> m.attrs[name] == if v.Some? then v.value else b.attrs[name])
    decreases items
  {
    hide TermValue, GoodTerm;
    match items
    case NoItems =>
    case Attr(n, t, rest) => BodyMeaning(num, rest, b.(attrs := b.attrs[n := TermValue(num, t)]), name);
    case Child(kind, labels, body, rest) =>
      var child := Meaning(num, body, Block(kind, labels, map[], []));
      BodyMeaning(num, rest, b.(blocks := b.blocks + [child]), name);
      assert b.blocks + [child] + ChildBlocks(num, rest) == b.blocks + ([child] + ChildBlocks(num, rest));
  }
}
