/** The grammar-body parser (cmd/grammar-coverage/xtext.go), its specification as functions on token
    positions, and a canonical printer it inverts. */
module XtextParser {
  import opened Grammar

  datatype TokenKind = EndOfInput | Ident | Literal | Quoted | Punct

  datatype Token = Token(kind: TokenKind, text: string, line: nat)

  datatype Error =
    | Expected(line: nat, want: string, found: string)
    | Unexpected(line: nat, found: string)
    | Unterminated(open: string)

  datatype Parsed<+T> = Ok(value: T, pos: nat) | Err(error: Error)

  // ----- Reading tokens -----

  function Peek(toks: seq<Token>, pos: nat): Token {
    if pos < |toks| then toks[pos] else Token(EndOfInput, "", 0)
  }

  predicate IsPunct(t: Token, text: string) {
    t.kind == Punct && t.text == text
  }

  predicate At(toks: seq<Token>, pos: nat, text: string)
    ensures At(toks, pos, text) ==> pos < |toks|
  {
    IsPunct(Peek(toks, pos), text)
  }

  /** skipQualifiedName: identifiers joined by :: or . */
  function QualifiedName(toks: seq<Token>, pos: nat, name: string): (r: (string, nat))
    requires pos <= |toks|
    ensures pos <= r.1 <= |toks|
    ensures Peek(toks, pos).kind == Ident ==> pos < r.1
    decreases |toks| - pos
  {
    if Peek(toks, pos).kind != Ident then (name, pos)
    else
      var name := name + toks[pos].text;
      if At(toks, pos + 1, "::") then QualifiedName(toks, pos + 2, name + "::")
      else if At(toks, pos + 1, ".") then QualifiedName(toks, pos + 2, name + ".")
      else (name, pos + 1)
  }

  /** skipBalanced after its opening token: the position behind the matching closing one. */
  function Balanced(toks: seq<Token>, pos: nat, open: string, close: string, depth: nat): (r: Parsed<()>)
    requires pos <= |toks|
    ensures r.Ok? ==> pos <= r.pos <= |toks|
    decreases |toks| - pos
  {
    if depth == 0 then Ok((), pos)
    else
      var t := Peek(toks, pos);
      if t.kind == EndOfInput then Err(Unterminated(open))
      else if IsPunct(t, open) then Balanced(toks, pos + 1, open, close, depth + 1)
      else if IsPunct(t, close) then Balanced(toks, pos + 1, open, close, depth - 1)
      else Balanced(toks, pos + 1, open, close, depth)
  }

  // ----- The grammar of bodies -----

  /** A sequence ends at the end of input, |, ) or ; */
  predicate Stops(t: Token) {
    t.kind == EndOfInput || IsPunct(t, "|") || IsPunct(t, ")") || IsPunct(t, ";")
  }

  function MakeSeq(items: seq<Expr>): Expr {
    if |items| == 0 then Ref("empty") else if |items| == 1 then items[0] else Seq(items)
  }

  function MakeAlt(items: seq<Expr>): Expr
    requires items != []
  {
    if |items| == 1 then items[0] else Alt(items)
  }

  function Alternation(toks: seq<Token>, pos: nat): (r: Parsed<Expr>)
    requires pos <= |toks|
    ensures r.Ok? ==> pos <= r.pos <= |toks|
    decreases |toks| - pos, 4
  {
    match Sequence(toks, pos, [])
    case Err(e) => Err(e)
    case Ok(first, p) => Alternatives(toks, p, [first])
  }

  /** The rest of an alternation whose first alternatives are `items`. */
  function Alternatives(toks: seq<Token>, pos: nat, items: seq<Expr>): (r: Parsed<Expr>)
    requires pos <= |toks| && items != []
    ensures r.Ok? ==> pos <= r.pos <= |toks|
    decreases |toks| - pos, 3
  {
    if At(toks, pos, "|") then
      match Sequence(toks, pos + 1, [])
      case Err(e) => Err(e)
      case Ok(next, p) => Alternatives(toks, p, items + [next])
    else Ok(MakeAlt(items), pos)
  }

  /** The rest of a sequence whose first items are `items`; an action's nil item is dropped. */
  function Sequence(toks: seq<Token>, pos: nat, items: seq<Expr>): (r: Parsed<Expr>)
    requires pos <= |toks|
    ensures r.Ok? ==> pos <= r.pos <= |toks|
    decreases |toks| - pos, 2
  {
    if Stops(Peek(toks, pos)) then Ok(MakeSeq(items), pos)
    else
      match Element(toks, pos)
      case Err(e) => Err(e)
      case Ok(item, p) => Sequence(toks, p, if item == Nil then items else items + [item])
  }

  function Element(toks: seq<Token>, pos: nat): (r: Parsed<Expr>)
    requires pos <= |toks|
    ensures r.Ok? ==> pos < r.pos <= |toks|
    decreases |toks| - pos, 1
  {
    match Primary(toks, pos)
    case Err(e) => Err(e)
    case Ok(item, p) => Cardinalities(toks, p, item)
  }

  /** ? and * make an element optional; + leaves it required. */
  function Cardinalities(toks: seq<Token>, pos: nat, item: Expr): (r: Parsed<Expr>)
    requires pos <= |toks|
    ensures r.Ok? && pos <= r.pos <= |toks|
    decreases |toks| - pos, 0
  {
    if At(toks, pos, "?") || At(toks, pos, "*") then Cardinalities(toks, pos + 1, Opt(item))
    else if At(toks, pos, "+") then Cardinalities(toks, pos + 1, item)
    else Ok(item, pos)
  }

  function Primary(toks: seq<Token>, pos: nat): (r: Parsed<Expr>)
    requires pos <= |toks|
    ensures r.Ok? ==> pos < r.pos <= |toks|
    decreases |toks| - pos, 0
  {
    var t := Peek(toks, pos);
    if t.kind == Literal then Ok(Lit(t.text), pos + 1)
    else if IsPunct(t, "->") || IsPunct(t, "=>") then Primary(toks, pos + 1)
    else if IsPunct(t, "(") then
      match Alternation(toks, pos + 1)
      case Err(e) => Err(e)
      case Ok(inner, p) => if At(toks, p, ")") then Ok(inner, p + 1) else Missing(toks, p, ")")
    else if IsPunct(t, "{") then
      match Balanced(toks, pos + 1, "{", "}", 1)
      case Err(e) => Err(e)
      case Ok(_, p) => Ok(Nil, p)
    else if IsPunct(t, "[") then
      match Balanced(toks, pos + 1, "[", "]", 1)
      case Err(e) => Err(e)
      case Ok(_, p) => Ok(Ref("crossReference"), p)
    else if t.kind == Ident then
      var (name, p) := QualifiedName(toks, pos, "");
      if At(toks, p, "=") || At(toks, p, "+=") || At(toks, p, "?=") then Primary(toks, p + 1)
      else Ok(Ref(name), p)
    else Err(Unexpected(t.line, t.text))
  }

  function Missing(toks: seq<Token>, pos: nat, want: string): (r: Parsed<Expr>)
    ensures r.Err?
  {
    Err(Expected(Peek(toks, pos).line, want, Peek(toks, pos).text))
  }

  // ----- The parser object -----

  class GrammarParser {
    const toks: seq<Token>
    var pos: nat

    ghost predicate Valid()
      reads this
    {
      pos <= |toks|
    }

    constructor (toks: seq<Token>)
      ensures Valid() && this.toks == toks && pos == 0
    {
      this.toks := toks;
      pos := 0;
    }

    method Next() returns (t: Token)
      requires Valid()
      modifies this
      ensures Valid() && t == Peek(toks, old(pos))
      ensures pos == if old(pos) < |toks| then old(pos) + 1 else old(pos)
    {
      t := Peek(toks, pos);
      if pos < |toks| {
        pos := pos + 1;
      }
    }

    method Accept(text: string) returns (ok: bool)
      requires Valid()
      modifies this
      ensures Valid() && ok == At(toks, old(pos), text)
      ensures pos == if ok then old(pos) + 1 else old(pos)
    {
      ok := At(toks, pos, text);
      if ok {
        pos := pos + 1;
      }
    }

    method SkipQualifiedName() returns (name: string)
      requires Valid()
      modifies this
      ensures Valid() && (name, pos) == QualifiedName(toks, old(pos), "")
    {
      name := "";
      while true
        invariant Valid() && QualifiedName(toks, pos, name) == QualifiedName(toks, old(pos), "")
        decreases |toks| - pos
      {
        if Peek(toks, pos).kind != Ident {
          break;
        }
        var t := Next();
        name := name + t.text;
        var colons := Accept("::");
        if colons {
          name := name + "::";
        } else {
          var dot := Accept(".");
          if !dot {
            return;
          }
          name := name + ".";
        }
      }
    }

    method SkipBalanced(open: string, close: string) returns (r: Parsed<()>)
      requires Valid() && At(toks, pos, open)
      modifies this
      ensures Valid() && r == Balanced(toks, old(pos) + 1, open, close, 1)
      ensures r.Ok? ==> pos == r.pos
    {
      var _ := Next();
      var depth := 1;
      while depth > 0
        invariant Valid() && Balanced(toks, pos, open, close, depth) == Balanced(toks, old(pos) + 1, open, close, 1)
        decreases |toks| - pos, depth
      {
        var t := Next();
        if t.kind == EndOfInput {
          return Err(Unterminated(open));
        } else if IsPunct(t, open) {
          depth := depth + 1;
        } else if IsPunct(t, close) {
          depth := depth - 1;
        }
      }
      r := Ok((), pos);
    }

    method ParseAlternation() returns (r: Parsed<Expr>)
      requires Valid()
      modifies this
      ensures Valid() && r == Alternation(toks, old(pos))
      ensures r.Ok? ==> pos == r.pos
      decreases |toks| - pos, 3
    {
      var first := ParseSequence();
      if first.Err? {
        return first;
      }
      var items := [first.value];
      while At(toks, pos, "|")
        invariant Valid() && items != [] && old(pos) <= pos
        invariant Alternatives(toks, pos, items) == Alternation(toks, old(pos))
        decreases |toks| - pos
      {
        var _ := Accept("|");
        var next := ParseSequence();
        if next.Err? {
          return next;
        }
        items := items + [next.value];
      }
      r := Ok(MakeAlt(items), pos);
    }

    method ParseSequence() returns (r: Parsed<Expr>)
      requires Valid()
      modifies this
      ensures Valid() && r == Sequence(toks, old(pos), [])
      ensures r.Ok? ==> pos == r.pos
      decreases |toks| - pos, 2
    {
      var items: seq<Expr> := [];
      while !Stops(Peek(toks, pos))
        invariant Valid() && old(pos) <= pos
        invariant Sequence(toks, pos, items) == Sequence(toks, old(pos), [])
        decreases |toks| - pos
      {
        var item := ParseElement();
        if item.Err? {
          return item;
        }
        if item.value != Nil {
          items := items + [item.value];
        }
      }
      r := Ok(MakeSeq(items), pos);
    }

    method ParseElement() returns (r: Parsed<Expr>)
      requires Valid()
      modifies this
      ensures Valid() && r == Element(toks, old(pos))
      ensures r.Ok? ==> pos == r.pos
      decreases |toks| - pos, 1
    {
      r := ParsePrimary();
      if r.Err? {
        return;
      }
      var item := r.value;
      while true
        invariant Valid() && Cardinalities(toks, pos, item) == Element(toks, old(pos))
        decreases |toks| - pos
      {
        var optional := Accept("?");
        if !optional {
          optional := Accept("*");
        }
        if optional {
          item := Opt(item);
        } else {
          var repeated := Accept("+");
          if !repeated {
            return Ok(item, pos);
          }
        }
      }
    }

    method ParsePrimary() returns (r: Parsed<Expr>)
      requires Valid()
      modifies this
      ensures Valid() && r == Primary(toks, old(pos))
      ensures r.Ok? ==> pos == r.pos
      decreases |toks| - pos, 0
    {
      var t := Peek(toks, pos);
      if t.kind == Literal {
        var _ := Next();
        return Ok(Lit(t.text), pos);
      } else if IsPunct(t, "->") || IsPunct(t, "=>") {
        // The arrow of a syntactic predicate matches no input.
        var _ := Next();
        r := ParsePrimary();
      } else if IsPunct(t, "(") {
        var _ := Next();
        r := ParseAlternation();
        if r.Err? {
          return;
        }
        var inner := r.value;
        var closed := Accept(")");
        r := if closed then Ok(inner, pos) else Missing(toks, pos, ")");
      } else if IsPunct(t, "{") {
        var skipped := SkipBalanced("{", "}");
        r := if skipped.Ok? then Ok(Nil, pos) else Err(skipped.error);
      } else if IsPunct(t, "[") {
        var skipped := SkipBalanced("[", "]");
        r := if skipped.Ok? then Ok(Ref("crossReference"), pos) else Err(skipped.error);
      } else if t.kind == Ident {
        var name := SkipQualifiedName();
        var isAssignment := Accept("=");
        if !isAssignment {
          isAssignment := Accept("+=");
        }
        if !isAssignment {
          isAssignment := Accept("?=");
        }
        if isAssignment {
          r := ParsePrimary();
        } else {
          r := Ok(Ref(name), pos);
        }
      } else {
        r := Err(Unexpected(t.line, t.text));
      }
    }
  }
}
