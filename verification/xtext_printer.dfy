/** A canonical printer for grammar bodies: one spelling for each expression, which the parser inverts. */
module XtextPrinter {
  import opened Grammar
  import opened XtextParser
  import opened XtextSpelling

  // ----- What can be printed -----

  predicate Separator(c: char) {
    c == ':' || c == '.'
  }

  /** The length of the identifier a name starts with. */
  function WordLength(name: string): (n: nat)
    ensures n <= |name|
    ensures n < |name| ==> Separator(name[n])
  {
    if name == "" || Separator(name[0]) then 0 else 1 + WordLength(name[1..])
  }

  /** The length of the :: or . that follows a name's first identifier, 0 when neither does. */
  function SeparatorLength(name: string): (n: nat)
    ensures WordLength(name) + n <= |name|
  {
    var w := WordLength(name);
    if w + 1 < |name| && name[w] == ':' && name[w + 1] == ':' then 2
    else if w < |name| && name[w] == '.' then 1
    else 0
  }

  /** Non-empty identifiers joined by :: or . */
  predicate QualifiedForm(name: string)
    decreases |name|
  {
    var w, s := WordLength(name), SeparatorLength(name);
    w > 0 && (w == |name| || (s > 0 && QualifiedForm(name[w + s..])))
  }

  /** Sequences and alternations have at least two items, none of them nil; nil occurs only under a
      cardinality, and called rules have qualified names. */
  predicate Printable(e: Expr) {
    match e
    case Lit(_) => true
    case Nil => true
    case Ref(name) => QualifiedForm(name)
    case Opt(item) => Printable(item)
    case Seq(items) => |items| >= 2 && forall i | 0 <= i < |items| :: items[i] != Nil && Printable(items[i])
    case Alt(items) => |items| >= 2 && forall i | 0 <= i < |items| :: items[i] != Nil && Printable(items[i])
  }

  predicate AllPrintable(items: seq<Expr>) {
    forall i | 0 <= i < |items| :: items[i] != Nil && Printable(items[i])
  }

  // ----- The printer -----

  function NameSigns(name: string): seq<Sign>
    decreases |name|
  {
    var w, s := WordLength(name), SeparatorLength(name);
    [Sign(Ident, name[..w])] +
      (if w > 0 && s > 0 then [P(name[w..w + s])] + NameSigns(name[w + s..]) else [])
  }

  /** An element: groups are parenthesised, an action stands for nil. */
  function ElemOf(e: Expr): Elem
    decreases e, 2
  {
    match e
    case Lit(value) => Elem(Word(value), [])
    case Ref(name) => Elem(Call(NameSigns(name)), [])
    case Nil => Elem(Action([]), [])
    case Opt(item) => var inner := ElemOf(item); Elem(inner.core, ["?"] + inner.marks)
    case Seq(items) => Elem(Group([Branch(ElemsOf(items))]), [])
    case Alt(items) => Elem(Group(BranchesOf(items)), [])
  }

  function ElemsOf(items: seq<Expr>): seq<Elem>
    decreases items
  {
    if items == [] then [] else [ElemOf(items[0])] + ElemsOf(items[1..])
  }

  function BranchOf(e: Expr): Branch
    decreases e, 3
  {
    Branch(if e.Seq? then ElemsOf(e.items) else [ElemOf(e)])
  }

  function BranchesOf(items: seq<Expr>): seq<Branch>
    decreases items
  {
    if items == [] then [] else [BranchOf(items[0])] + BranchesOf(items[1..])
  }

  function BodyOf(e: Expr): seq<Branch> {
    if e.Alt? then BranchesOf(e.items) else [BranchOf(e)]
  }

  function Tokens(signs: seq<Sign>): seq<Token> {
    seq(|signs|, i requires 0 <= i < |signs| => Token(signs[i].kind, signs[i].text, 1))
  }

  /** The tokens of a whole right-hand side. */
  function Print(e: Expr): seq<Token> { Tokens(BodySigns(BodyOf(e))) }

  // ----- The printed spelling means the expression -----

  lemma SeparatorText(name: string)
    ensures var w, s := WordLength(name), SeparatorLength(name);
      s > 0 ==> name[w..w + s] == if s == 2 then "::" else "."
  {
    hide WordLength;
  }

  /** A name is its first identifier, or that, a separator and a shorter name. */
  lemma NameParts(name: string) returns (word: string, sep: string, rest: string)
    requires QualifiedForm(name)
    ensures name == word + (sep + rest)
    ensures if rest == "" then word == name && NameSigns(name) == [Sign(Ident, name)]
      else
        && (sep == "::" || sep == ".") && QualifiedForm(rest) && |rest| < |name|
        && NameSigns(name) == [Sign(Ident, word)] + ([P(sep)] + NameSigns(rest))
  {
    var w, s := WordLength(name), SeparatorLength(name);
    SeparatorText(name);
    word, sep, rest := name[..w], name[w..w + s], name[w + s..];
    hide WordLength;
    if w == |name| {
      assert name[..w] == name;
      assert s == 0;
    } else {
      assert QualifiedForm(rest);
      NonEmptyName(rest);
    }
  }

  lemma NonEmptyName(name: string)
    requires QualifiedForm(name)
    ensures name != ""
  {
  }

  lemma {:induction false} NamePrinted(name: string)
    requires QualifiedForm(name)
    ensures var signs := NameSigns(name); NameShape(signs) && |signs| % 2 == 1 && TextOf(signs) == name
    decreases |name|
  {
    hide QualifiedForm, NameSigns, NameShape, TextOf;
    var word, sep, rest := NameParts(name);
    if rest == "" {
      OneWord(name);
    } else {
      NamePrinted(rest);
      NameCons(Sign(Ident, word), P(sep), NameSigns(rest));
      assert [Sign(Ident, word)] + ([P(sep)] + NameSigns(rest)) == [Sign(Ident, word), P(sep)] + NameSigns(rest);
    }
  }

  lemma OneWord(name: string)
    ensures NameShape([Sign(Ident, name)]) && TextOf([Sign(Ident, name)]) == name
  {
    TextOfTwo([Sign(Ident, name)]);
  }

  /** Nothing but an assignment or a separator would be read as part of the core. */
  ghost predicate Closed(c: Core) {
    forall t | !Assigns(t) && !Separates(t) :: Follows(c, t)
  }

  lemma {:induction false} ElemPrinted(e: Expr)
    requires Printable(e)
    ensures ElemFits(ElemOf(e)) && ElemMeaning(ElemOf(e)) == e && Closed(ElemOf(e).core)
    decreases e, 2
  {
    hide QualifiedForm, NameShape, NameSigns, TextOf, BranchFits, BodyFits;
    match e {
      case Lit(_) =>
      case Ref(name) => NamePrinted(name);
      case Nil => assert Nested([], "{", "}");
      case Opt(item) =>
        ElemPrinted(item);
        assert ElemOf(e).marks[1..] == ElemOf(item).marks;
      case Seq(items) =>
        ElemsPrinted(items);
        OneBranch(ElemsOf(items));
      case Alt(items) =>
        BranchesPrinted(items);
        assert |BranchesOf(items)| == |items|;
        assert BodyMeaning(BranchesOf(items)) == Alt(items);
    }
  }

  lemma OneBranch(elems: seq<Elem>)
    requires BranchFits(elems)
    ensures BodyFits([Branch(elems)]) && BodyMeaning([Branch(elems)]) == BranchMeaning(elems)
  {
    hide BranchMeaning, BranchFits;
    assert [Branch(elems)][1..] == [];
    assert BodyFits([]) && BranchMeanings([]) == [];
  }

  lemma {:induction false} ElemsPrinted(items: seq<Expr>)
    requires AllPrintable(items)
    ensures BranchFits(ElemsOf(items)) && Meanings(ElemsOf(items)) == items
    decreases items
  {
    hide ElemFits, ElemMeaning, Printable, ElemSigns, Closed;
    if items != [] {
      var elems := ElemsOf(items);
      assert elems[1..] == ElemsOf(items[1..]);
      ElemPrinted(items[0]);
      ElemsPrinted(items[1..]);
      PrintedApart(elems[0].core, elems[1..]);
      assert items == [items[0]] + items[1..];
    }
  }

  lemma PrintedApart(c: Core, elems: seq<Elem>)
    requires Closed(c) && BranchFits(elems)
    ensures Apart(c, elems)
  {
    hide BranchFits, ElemSigns, Follows;
    if elems != [] {
      BranchStarts(elems);
      StartsApart(ElemSigns(elems[0])[0]);
    }
  }

  lemma {:induction false} BranchPrinted(e: Expr)
    requires e != Nil && Printable(e)
    ensures BranchFits(BranchOf(e).elems) && BranchMeaning(BranchOf(e).elems) == e
    decreases e, 3
  {
    hide ElemFits, ElemMeaning, BranchFits, Meanings;
    if e.Seq? {
      ElemsPrinted(e.items);
    } else {
      ElemPrinted(e);
      OneElem(ElemOf(e));
    }
  }

  lemma OneElem(e: Elem)
    requires ElemFits(e) && ElemMeaning(e) != Nil
    ensures BranchFits([e]) && Meanings([e]) == [ElemMeaning(e)]
  {
    hide ElemFits, ElemMeaning;
    assert [e][1..] == [];
    assert BranchFits([]) && Meanings([]) == [];
  }

  lemma {:induction false} BranchesPrinted(items: seq<Expr>)
    requires AllPrintable(items)
    ensures BodyFits(BranchesOf(items)) && BranchMeanings(BranchesOf(items)) == items
    decreases items
  {
    hide BranchFits, BranchMeaning, Printable;
    if items != [] {
      assert BranchesOf(items)[1..] == BranchesOf(items[1..]);
      BranchPrinted(items[0]);
      BranchesPrinted(items[1..]);
      assert items == [items[0]] + items[1..];
    }
  }

  /** What ends a right-hand side: ; or the ) of a group, or the end of input. */
  predicate BodyEnds(t: Token) {
    Stops(t) && !IsPunct(t, "|")
  }

  // ----- The main results -----

  /** The tokens `printed` stand at pos. */
  ghost predicate Stand(toks: seq<Token>, pos: nat, printed: seq<Token>) {
    pos + |printed| <= |toks| && toks[pos..pos + |printed|] == printed
  }

  lemma BodyPrinted(e: Expr)
    requires e != Nil && Printable(e)
    ensures BodyOf(e) != [] && BodyFits(BodyOf(e)) && BodyMeaning(BodyOf(e)) == e
  {
    hide BranchFits, BranchMeaning;
    if e.Alt? {
      BranchesPrinted(e.items);
    } else {
      BranchPrinted(e);
      OneBranch(BranchOf(e).elems);
    }
  }

  /** The parser inverts the printer: a printed body before `)` or `;` parses to the expression it was
      printed from, consuming exactly its tokens. */
  lemma ParseInvertsPrint(toks: seq<Token>, pos: nat, e: Expr)
    requires e != Nil && Printable(e)
    requires Stand(toks, pos, Print(e)) && BodyEnds(Peek(toks, pos + |Print(e)|))
    ensures Alternation(toks, pos) == Ok(e, pos + |Print(e)|)
  {
    hide Alternation, BodySigns, BodyOf, BodyFits, BodyMeaning;
    BodyPrinted(e);
    var signs := BodySigns(BodyOf(e));
    forall i | 0 <= i < |signs| ensures SignOf(toks[pos + i]) == signs[i] {
      assert toks[pos..pos + |signs|][i] == Tokens(signs)[i];
    }
    BodyParsed(toks, pos, BodyOf(e));
  }

  // ----- Everything parsed has the printed shape -----

  /** Sequences and alternations have at least two items and nil stands only under a cardinality. */
  predicate Shaped(e: Expr) {
    match e
    case Opt(item) => Shaped(item)
    case Seq(items) => |items| >= 2 && forall i | 0 <= i < |items| :: items[i] != Nil && Shaped(items[i])
    case Alt(items) => |items| >= 2 && forall i | 0 <= i < |items| :: items[i] != Nil && Shaped(items[i])
    case _ => true
  }

  predicate AllShaped(items: seq<Expr>) {
    forall i | 0 <= i < |items| :: items[i] != Nil && Shaped(items[i])
  }

  lemma {:induction false} AlternationShaped(toks: seq<Token>, pos: nat)
    requires pos <= |toks| && Alternation(toks, pos).Ok?
    ensures Alternation(toks, pos).value != Nil && Shaped(Alternation(toks, pos).value)
    decreases |toks| - pos, 4
  {
    var first := Sequence(toks, pos, []);
    SequenceShaped(toks, pos, []);
    AlternativesShaped(toks, first.pos, [first.value]);
  }

  lemma {:induction false} AlternativesShaped(toks: seq<Token>, pos: nat, items: seq<Expr>)
    requires pos <= |toks| && items != [] && AllShaped(items) && Alternatives(toks, pos, items).Ok?
    ensures Alternatives(toks, pos, items).value != Nil && Shaped(Alternatives(toks, pos, items).value)
    decreases |toks| - pos, 3
  {
    if At(toks, pos, "|") {
      var next := Sequence(toks, pos + 1, []);
      SequenceShaped(toks, pos + 1, []);
      AlternativesShaped(toks, next.pos, items + [next.value]);
    }
  }

  lemma {:induction false} SequenceShaped(toks: seq<Token>, pos: nat, items: seq<Expr>)
    requires pos <= |toks| && AllShaped(items) && Sequence(toks, pos, items).Ok?
    ensures Sequence(toks, pos, items).value != Nil && Shaped(Sequence(toks, pos, items).value)
    decreases |toks| - pos, 2
  {
    if !Stops(Peek(toks, pos)) {
      var item := Element(toks, pos);
      ElementShaped(toks, pos);
      SequenceShaped(toks, item.pos, if item.value == Nil then items else items + [item.value]);
    }
  }

  lemma {:induction false} ElementShaped(toks: seq<Token>, pos: nat)
    requires pos <= |toks| && Element(toks, pos).Ok?
    ensures Shaped(Element(toks, pos).value)
    decreases |toks| - pos, 1
  {
    var item := Primary(toks, pos);
    PrimaryShaped(toks, pos);
    CardinalitiesShaped(toks, item.pos, item.value);
  }

  lemma {:induction false} CardinalitiesShaped(toks: seq<Token>, pos: nat, item: Expr)
    requires pos <= |toks| && Shaped(item)
    ensures Shaped(Cardinalities(toks, pos, item).value)
    decreases |toks| - pos
  {
    if At(toks, pos, "?") || At(toks, pos, "*") {
      CardinalitiesShaped(toks, pos + 1, Opt(item));
    } else if At(toks, pos, "+") {
      CardinalitiesShaped(toks, pos + 1, item);
    }
  }

  lemma {:induction false} PrimaryShaped(toks: seq<Token>, pos: nat)
    requires pos <= |toks| && Primary(toks, pos).Ok?
    ensures Shaped(Primary(toks, pos).value)
    decreases |toks| - pos, 0
  {
    var t := Peek(toks, pos);
    if t.kind == Literal {
    } else if IsPunct(t, "->") || IsPunct(t, "=>") {
      PrimaryShaped(toks, pos + 1);
    } else if IsPunct(t, "(") {
      AlternationShaped(toks, pos + 1);
    } else if t.kind == Ident {
      var (name, p) := QualifiedName(toks, pos, "");
      if At(toks, p, "=") || At(toks, p, "+=") || At(toks, p, "?=") {
        PrimaryShaped(toks, p + 1);
      }
    }
  }

  lemma {:induction false} ShapedPrintable(e: Expr)
    requires Shaped(e) && NamesQualified(e)
    ensures Printable(e)
  {
    match e {
      case Opt(item) => ShapedPrintable(item);
      case Seq(items) => forall i | 0 <= i < |items| ensures Printable(items[i]) { ShapedPrintable(items[i]); }
      case Alt(items) => forall i | 0 <= i < |items| ensures Printable(items[i]) { ShapedPrintable(items[i]); }
      case _ =>
    }
  }

  predicate NamesQualified(e: Expr) {
    match e
    case Ref(name) => QualifiedForm(name)
    case Opt(item) => NamesQualified(item)
    case Seq(items) => forall i | 0 <= i < |items| :: NamesQualified(items[i])
    case Alt(items) => forall i | 0 <= i < |items| :: NamesQualified(items[i])
    case _ => true
  }

  /** Whatever body the parser accepts, printing it canonically and parsing again gives the same
      expression, provided no rule name in it ends in a dangling separator. */
  lemma ReparseIsStable(toks: seq<Token>, pos: nat, end: Token)
    requires pos <= |toks| && Alternation(toks, pos).Ok? && BodyEnds(end)
    requires NamesQualified(Alternation(toks, pos).value)
    ensures var e := Alternation(toks, pos).value;
      Alternation(Print(e) + [end], 0) == Ok(e, |Print(e)|)
  {
    var e := Alternation(toks, pos).value;
    AlternationShaped(toks, pos);
    ShapedPrintable(e);
    var again := Print(e) + [end];
    assert again[0..|Print(e)|] == Print(e);
    assert Peek(again, |Print(e)|) == end;
    ParseInvertsPrint(again, 0, e);
  }
}
