/** What a production body may be spelled like, and what each spelling means
    (cmd/grammar-coverage/xtext.go).

    Spellings are trees of the notation: groups, cardinalities, assigned features, syntactic predicates,
    cross-references and actions. The parser is proved to accept exactly what is spelled by such a tree,
    with exactly its meaning. */
module XtextSpelling {
  import opened Grammar
  import opened XtextParser

  /** A token less its line. */
  datatype Sign = Sign(kind: TokenKind, text: string)

  function P(text: string): Sign { Sign(Punct, text) }

  function SignOf(t: Token): Sign { Sign(t.kind, t.text) }

  function SignsOf(toks: seq<Token>): seq<Sign> { seq(|toks|, i requires 0 <= i < |toks| => SignOf(toks[i])) }

  /** The sign at a position, or the end of the input. */
  function SignAt(toks: seq<Token>, pos: nat): Sign { SignOf(Peek(toks, pos)) }

  // ----- Spellings -----

  datatype Core =
    | Word(value: string)                                            // 'value'
    | Call(name: seq<Sign>)                                          // a::b.c
    | Hinted(arrow: string, core: Core)                              // => core
    | Assigned(feature: seq<Sign>, operator: string, core: Core)     // f += core
    | Group(branches: seq<Branch>)                                   // ( .. | .. )
    | Action(inside: seq<Sign>)                                      // { .. }
    | CrossReference(inside: seq<Sign>)                              // [ .. ]

  /** An element and the cardinalities behind it. */
  datatype Elem = Elem(core: Core, marks: seq<string>)

  datatype Branch = Branch(elems: seq<Elem>)

  function CoreSigns(c: Core): seq<Sign>
    decreases c, 0
  {
    match c
    case Word(value) => [Sign(Literal, value)]
    case Call(name) => name
    case Hinted(arrow, core) => [P(arrow)] + CoreSigns(core)
    case Assigned(feature, operator, core) => feature + ([P(operator)] + CoreSigns(core))
    case Group(branches) => [P("(")] + (BodySigns(branches) + [P(")")])
    case Action(inside) => [P("{")] + (inside + [P("}")])
    case CrossReference(inside) => [P("[")] + (inside + [P("]")])
  }

  function MarkSigns(marks: seq<string>): seq<Sign> { seq(|marks|, i requires 0 <= i < |marks| => P(marks[i])) }

  function ElemSigns(e: Elem): seq<Sign>
    decreases e, 1
  {
    CoreSigns(e.core) + MarkSigns(e.marks)
  }

  function BranchSigns(elems: seq<Elem>): seq<Sign>
    decreases elems, 2
  {
    if elems == [] then [] else ElemSigns(elems[0]) + BranchSigns(elems[1..])
  }

  function BodySigns(branches: seq<Branch>): seq<Sign>
    decreases branches, 3
  {
    if branches == [] then []
    else BranchSigns(branches[0].elems) + RestSigns(branches[1..])
  }

  /** Further alternatives, each behind its bar. */
  function RestSigns(branches: seq<Branch>): seq<Sign>
    decreases branches, 4
  {
    if branches == [] then []
    else [P("|")] + (BranchSigns(branches[0].elems) + RestSigns(branches[1..]))
  }

  // ----- What is well spelled -----

  predicate Assigns(t: Sign) { t == P("=") || t == P("+=") || t == P("?=") }

  predicate Separates(t: Sign) { t == P("::") || t == P(".") }

  predicate Mark(text: string) { text == "?" || text == "*" || text == "+" }

  /** Identifiers with separators between them, and possibly one behind the last. */
  ghost predicate NameShape(name: seq<Sign>) {
    name != [] && forall i | 0 <= i < |name| :: if i % 2 == 0 then name[i].kind == Ident else Separates(name[i])
  }

  function CountOf(s: seq<Sign>, text: string): nat {
    if s == [] then 0 else CountOf(s[..|s| - 1], text) + (if s[|s| - 1] == P(text) then 1 else 0)
  }

  /** Within brackets: each closing one has its opening one before it, and the other way round. */
  ghost predicate Nested(s: seq<Sign>, open: string, close: string) {
    OpenFirst(s, open, close) && CountOf(s, close) == CountOf(s, open)
  }

  ghost predicate OpenFirst(s: seq<Sign>, open: string, close: string) {
    && (forall i | 0 <= i < |s| :: s[i].kind != EndOfInput)
    && (forall i | 0 <= i <= |s| :: CountOf(s[..i], close) <= CountOf(s[..i], open))
  }

  /** A sign that may stand behind a core without being read as part of it. */
  predicate Follows(c: Core, t: Sign) {
    match c
    case Call(name) => !Assigns(t) && (if |name| % 2 == 1 then !Separates(t) else t.kind != Ident)
    case Hinted(_, core) => Follows(core, t)
    case Assigned(_, _, core) => Follows(core, t)
    case _ => true
  }

  ghost predicate CoreFits(c: Core)
    decreases c, 0
  {
    match c
    case Word(_) => true
    case Call(name) => NameShape(name)
    case Hinted(arrow, core) => (arrow == "->" || arrow == "=>") && CoreFits(core)
    case Assigned(feature, operator, core) => NameShape(feature) && Assigns(P(operator)) && CoreFits(core)
    case Group(branches) => branches != [] && BodyFits(branches)
    case Action(inside) => Nested(inside, "{", "}")
    case CrossReference(inside) => Nested(inside, "[", "]")
  }

  ghost predicate ElemFits(e: Elem)
    decreases e, 1
  {
    CoreFits(e.core) && forall i | 0 <= i < |e.marks| :: Mark(e.marks[i])
  }

  /** Elements that fit, each apart from the next. */
  ghost predicate BranchFits(elems: seq<Elem>)
    decreases elems, 2
  {
    elems == [] ||
    (ElemFits(elems[0]) && BranchFits(elems[1..]) && (elems[0].marks == [] ==> Apart(elems[0].core, elems[1..])))
  }

  predicate Apart(c: Core, elems: seq<Elem>) {
    elems == [] || ElemSigns(elems[0]) == [] || Follows(c, ElemSigns(elems[0])[0])
  }

  ghost predicate BodyFits(branches: seq<Branch>)
    decreases branches, 3
  {
    branches == [] || (BranchFits(branches[0].elems) && BodyFits(branches[1..]))
  }

  // ----- What a spelling means -----

  function TextOf(name: seq<Sign>): string {
    if name == [] then "" else name[0].text + TextOf(name[1..])
  }

  function CoreMeaning(c: Core): Expr
    decreases c, 0
  {
    match c
    case Word(value) => Lit(value)
    case Call(name) => Ref(TextOf(name))
    case Hinted(_, core) => CoreMeaning(core)
    case Assigned(_, _, core) => CoreMeaning(core)
    case Group(branches) => BodyMeaning(branches)
    case Action(_) => Nil
    case CrossReference(_) => Ref("crossReference")
  }

  /** How often a cardinality lets the element be left out. */
  function Omissible(marks: seq<string>): nat {
    if marks == [] then 0 else (if marks[0] == "+" then 0 else 1) + Omissible(marks[1..])
  }

  function Optional(e: Expr, n: nat): Expr { if n == 0 then e else Opt(Optional(e, n - 1)) }

  function ElemMeaning(e: Elem): Expr
    decreases e, 1
  {
    Optional(CoreMeaning(e.core), Omissible(e.marks))
  }

  /** The elements' meanings, those of mere actions left out. */
  function Meanings(elems: seq<Elem>): seq<Expr>
    decreases elems, 2
  {
    if elems == [] then []
    else (if ElemMeaning(elems[0]) == Nil then [] else [ElemMeaning(elems[0])]) + Meanings(elems[1..])
  }

  function BranchMeaning(elems: seq<Elem>): Expr
    decreases elems, 3
  {
    var items := Meanings(elems);
    if items == [] then Ref("empty") else if |items| == 1 then items[0] else Seq(items)
  }

  function BranchMeanings(branches: seq<Branch>): (r: seq<Expr>)
    ensures |r| == |branches|
    decreases branches, 4
  {
    if branches == [] then [] else [BranchMeaning(branches[0].elems)] + BranchMeanings(branches[1..])
  }

  function BodyMeaning(branches: seq<Branch>): Expr
    decreases branches, 5
  {
    var items := BranchMeanings(branches);
    if |items| == 1 then items[0] else Alt(items)
  }

  /** The signs are a spelling of the expression. */
  ghost predicate Spells(signs: seq<Sign>, e: Expr) {
    exists branches :: SpelledBy(branches, signs, e)
  }

  ghost predicate SpelledBy(branches: seq<Branch>, signs: seq<Sign>, e: Expr) {
    branches != [] && BodyFits(branches) && BodySigns(branches) == signs && BodyMeaning(branches) == e
  }

  // ----- Signs in place -----

  ghost predicate Spelled(toks: seq<Token>, pos: nat, signs: seq<Sign>) {
    pos + |signs| <= |toks| && forall i | 0 <= i < |signs| :: SignOf(toks[pos + i]) == signs[i]
  }

  lemma SpelledSplit(toks: seq<Token>, pos: nat, a: seq<Sign>, b: seq<Sign>)
    ensures Spelled(toks, pos, a + b) <==> Spelled(toks, pos, a) && Spelled(toks, pos + |a|, b)
  {
    if Spelled(toks, pos, a + b) {
      forall i | 0 <= i < |a| ensures SignOf(toks[pos + i]) == a[i] { assert (a + b)[i] == a[i]; }
      forall i | 0 <= i < |b| ensures SignOf(toks[pos + |a| + i]) == b[i] { assert (a + b)[|a| + i] == b[i]; }
    }
  }

  lemma SpelledFirst(toks: seq<Token>, pos: nat, signs: seq<Sign>)
    requires Spelled(toks, pos, signs) && signs != []
    ensures pos < |toks| && SignAt(toks, pos) == signs[0]
  {
  }

  lemma SpelledInside(toks: seq<Token>, pos: nat, signs: seq<Sign>)
    requires Spelled(toks, pos, signs)
    ensures pos + |signs| <= |toks|
  {
  }

  lemma SpelledOne(toks: seq<Token>, pos: nat, sign: Sign)
    ensures Spelled(toks, pos, [sign]) <==> pos < |toks| && SignAt(toks, pos) == sign
    ensures pos <= |toks| ==> Spelled(toks, pos, [])
  {
    if pos < |toks| && SignAt(toks, pos) == sign {
      forall i | 0 <= i < |[sign]| ensures SignOf(toks[pos + i]) == [sign][i] {}
    }
    if Spelled(toks, pos, [sign]) { assert SignOf(toks[pos + 0]) == [sign][0]; }
  }

  // ----- Every spelling parses to its meaning -----

  lemma {:induction false} NameParsed(toks: seq<Token>, pos: nat, name: seq<Sign>, before: string)
    requires NameShape(name) && Spelled(toks, pos, name)
    requires var next := SignAt(toks, pos + |name|); if |name| % 2 == 1 then !Separates(next) else next.kind != Ident
    ensures QualifiedName(toks, pos, before) == (before + TextOf(name), pos + |name|)
    decreases |name|
  {
    hide NameShape, Spelled, QualifiedName, TextOf;
    NameHead(toks, pos, name);
    TextOfTwo(name);
    if |name| == 1 {
      NameLast(toks, pos, before);
    } else {
      var sep, rest := name[1].text, name[2..];
      NameStep(toks, pos, before, sep);
      if rest == [] {
        NameNone(toks, pos + 2, before + name[0].text + sep);
        Associate(before, name[0].text, sep);
      } else {
        NameParsed(toks, pos + 2, rest, before + name[0].text + sep);
        Associate(before + name[0].text, sep, TextOf(rest));
        Associate(before, name[0].text, sep + TextOf(rest));
      }
    }
  }

  lemma Associate<T>(a: seq<T>, b: seq<T>, c: seq<T>)
    ensures a + b + c == a + (b + c)
  {
  }

  lemma NameHead(toks: seq<Token>, pos: nat, name: seq<Sign>)
    requires NameShape(name) && Spelled(toks, pos, name)
    ensures pos < |toks| && toks[pos].kind == Ident && toks[pos].text == name[0].text
    ensures |name| > 1 ==> pos + 1 < |toks| && SignAt(toks, pos + 1) == name[1] == P(name[1].text) && Separates(name[1])
    ensures |name| > 2 ==> NameShape(name[2..]) && Spelled(toks, pos + 2, name[2..])
    ensures |name| == 2 ==> name[2..] == []
  {
    assert SignOf(toks[pos + 0]) == name[0];
    if |name| > 1 { assert SignOf(toks[pos + 1]) == name[1]; }
    if |name| > 2 {
      var rest := name[2..];
      forall i | 0 <= i < |rest| ensures SignOf(toks[pos + 2 + i]) == rest[i] && rest[i] == name[i + 2] {
        assert SignOf(toks[pos + (i + 2)]) == name[i + 2];
      }
    }
  }

  lemma NameLast(toks: seq<Token>, pos: nat, before: string)
    requires pos < |toks| && toks[pos].kind == Ident && !Separates(SignAt(toks, pos + 1))
    ensures QualifiedName(toks, pos, before) == (before + toks[pos].text, pos + 1)
  {
  }

  lemma NameNone(toks: seq<Token>, pos: nat, before: string)
    requires pos <= |toks| && SignAt(toks, pos).kind != Ident
    ensures QualifiedName(toks, pos, before) == (before, pos)
  {
  }

  lemma NameStep(toks: seq<Token>, pos: nat, before: string, sep: string)
    requires pos + 1 < |toks| && toks[pos].kind == Ident && SignAt(toks, pos + 1) == P(sep) && Separates(P(sep))
    ensures QualifiedName(toks, pos, before) == QualifiedName(toks, pos + 2, before + toks[pos].text + sep)
  {
  }

  lemma TextOfTwo(name: seq<Sign>)
    requires name != []
    ensures |name| == 1 ==> TextOf(name) == name[0].text
    ensures |name| > 1 ==> TextOf(name) == name[0].text + (name[1].text + TextOf(name[2..]))
    ensures |name| == 2 ==> TextOf(name) == name[0].text + name[1].text
  {
    if |name| > 1 { assert name[1..][1..] == name[2..]; }
  }

  lemma CountNext(s: seq<Sign>, i: nat, text: string)
    requires i < |s|
    ensures CountOf(s[..i + 1], text) == CountOf(s[..i], text) + if s[i] == P(text) then 1 else 0
  {
    assert s[..i + 1][..i] == s[..i];
  }

  /** Skipping balanced brackets from the i-th sign inside them, i signs behind the opening one. */
  lemma {:induction false} NestedSkipped(toks: seq<Token>, pos: nat, inside: seq<Sign>, i: nat, open: string, close: string)
    requires Nested(inside, open, close) && open != close && i <= |inside|
    requires Spelled(toks, pos, inside + [P(close)])
    ensures CountOf(inside[..i], close) <= CountOf(inside[..i], open)
    ensures Balanced(toks, pos + i, open, close, 1 + CountOf(inside[..i], open) - CountOf(inside[..i], close)) == Ok((), pos + |inside| + 1)
    decreases |inside| - i
  {
    var all := inside + [P(close)];
    assert SignOf(toks[pos + i]) == all[i];
    hide CountOf;
    if i == |inside| {
      assert inside[..i] == inside;
      assert Balanced(toks, pos + i + 1, open, close, 0) == Ok((), pos + i + 1);
    } else {
      assert all[i] == inside[i];
      CountNext(inside, i, open);
      CountNext(inside, i, close);
      NestedSkipped(toks, pos, inside, i + 1, open, close);
    }
  }

  lemma {:induction false} MarksParsed(toks: seq<Token>, pos: nat, marks: seq<string>, item: Expr)
    requires (forall i | 0 <= i < |marks| :: Mark(marks[i])) && Spelled(toks, pos, MarkSigns(marks))
    requires var next := SignAt(toks, pos + |marks|); next.kind != Punct || !Mark(next.text)
    ensures Cardinalities(toks, pos, item) == Ok(Optional(item, Omissible(marks)), pos + |marks|)
    decreases |marks|
  {
    if marks != [] {
      var rest := marks[1..];
      assert SignOf(toks[pos + 0]) == MarkSigns(marks)[0] == P(marks[0]);
      forall i | 0 <= i < |rest| ensures SignOf(toks[pos + 1 + i]) == MarkSigns(rest)[i] {
        assert MarkSigns(marks)[i + 1] == MarkSigns(rest)[i];
      }
      MarksParsed(toks, pos + 1, rest, if marks[0] == "+" then item else Opt(item));
      if marks[0] != "+" { OptionalInside(item, Omissible(rest)); }
    }
  }

  lemma {:induction false} OptionalInside(e: Expr, n: nat)
    ensures Optional(Opt(e), n) == Optional(e, n + 1)
  {
    if n > 0 { OptionalInside(e, n - 1); }
  }

  /** How a core starts. */
  predicate Starts(t: Sign) {
    t.kind == Literal || t.kind == Ident || t == P("->") || t == P("=>") || t == P("(") || t == P("{") || t == P("[")
  }

  lemma {:induction false} CoreStarts(c: Core)
    requires CoreFits(c)
    ensures CoreSigns(c) != [] && Starts(CoreSigns(c)[0])
  {
    hide Nested, BodyFits;
  }

  lemma StartsApart(t: Sign)
    requires Starts(t)
    ensures !Assigns(t) && !Separates(t) && !(t.kind == Punct && Mark(t.text))
    ensures t.kind != EndOfInput && t != P("|") && t != P(")") && t != P(";")
  {
  }

  lemma {:induction false} StopsFollow(c: Core, t: Token)
    requires Stops(t)
    ensures Follows(c, SignOf(t)) && !(t.kind == Punct && Mark(t.text))
  {
    match c {
      case Hinted(_, core) => StopsFollow(core, t);
      case Assigned(_, _, core) => StopsFollow(core, t);
      case _ =>
    }
  }

  lemma {:induction false} MarkFollows(c: Core, text: string)
    requires Mark(text)
    ensures Follows(c, P(text))
  {
    match c {
      case Hinted(_, core) => MarkFollows(core, text);
      case Assigned(_, _, core) => MarkFollows(core, text);
      case _ =>
    }
  }

  lemma {:induction false} CoreParsed(toks: seq<Token>, pos: nat, c: Core)
    requires CoreFits(c) && Spelled(toks, pos, CoreSigns(c)) && Follows(c, SignAt(toks, pos + |CoreSigns(c)|))
    ensures Primary(toks, pos) == Ok(CoreMeaning(c), pos + |CoreSigns(c)|)
    decreases c, 1
  {
    hide Spelled, Primary, Nested, NameShape, Balanced, QualifiedName, BodySigns, TextOf;
    match c {
      case Word(value) =>
        SpelledOne(toks, pos, Sign(Literal, value));
        PrimaryWord(toks, pos);
      case Call(name) => CallParsed(toks, pos, name);
      case Hinted(arrow, core) =>
        SpelledSplit(toks, pos, [P(arrow)], CoreSigns(core));
        SpelledOne(toks, pos, P(arrow));
        PrimaryHinted(toks, pos);
        CoreParsed(toks, pos + 1, core);
      case Assigned(feature, operator, core) =>
        FeatureSkipped(toks, pos, feature, operator, CoreSigns(core));
        CoreParsed(toks, pos + |feature| + 1, core);
      case Group(branches) =>
        var end := pos + 1 + |BodySigns(branches)|;
        SpelledSplit(toks, pos, [P("(")], BodySigns(branches) + [P(")")]);
        SpelledSplit(toks, pos + 1, BodySigns(branches), [P(")")]);
        SpelledOne(toks, pos, P("("));
        SpelledOne(toks, end, P(")"));
        BodyParsed(toks, pos + 1, branches);
        PrimaryGroup(toks, pos);
      case Action(inside) =>
        BracketsSkipped(toks, pos, inside, "{", "}");
        PrimaryBrackets(toks, pos);
      case CrossReference(inside) =>
        BracketsSkipped(toks, pos, inside, "[", "]");
        PrimaryBrackets(toks, pos);
    }
  }

  lemma CallParsed(toks: seq<Token>, pos: nat, name: seq<Sign>)
    requires NameShape(name) && Spelled(toks, pos, name) && Follows(Call(name), SignAt(toks, pos + |name|))
    ensures Primary(toks, pos) == Ok(Ref(TextOf(name)), pos + |name|)
  {
    hide Spelled, Primary, NameShape, QualifiedName, TextOf;
    NameHead(toks, pos, name);
    NameParsed(toks, pos, name, "");
    assert "" + TextOf(name) == TextOf(name);
    PrimaryName(toks, pos);
  }

  lemma FeatureSkipped(toks: seq<Token>, pos: nat, feature: seq<Sign>, operator: string, rest: seq<Sign>)
    requires NameShape(feature) && Assigns(P(operator)) && Spelled(toks, pos, feature + ([P(operator)] + rest))
    ensures pos < |toks| && pos + |feature| + 1 <= |toks| && Spelled(toks, pos + |feature| + 1, rest)
    ensures Primary(toks, pos) == Primary(toks, pos + |feature| + 1)
  {
    hide Spelled, Primary, NameShape, QualifiedName, TextOf;
    SpelledSplit(toks, pos, feature, [P(operator)] + rest);
    SpelledSplit(toks, pos + |feature|, [P(operator)], rest);
    SpelledOne(toks, pos + |feature|, P(operator));
    NameHead(toks, pos, feature);
    NameParsed(toks, pos, feature, "");
    PrimaryName(toks, pos);
  }

  lemma BracketsSkipped(toks: seq<Token>, pos: nat, inside: seq<Sign>, open: string, close: string)
    requires Nested(inside, open, close) && open != close && Spelled(toks, pos, [P(open)] + (inside + [P(close)]))
    ensures pos < |toks| && SignAt(toks, pos) == P(open)
    ensures Balanced(toks, pos + 1, open, close, 1) == Ok((), pos + |inside| + 2)
  {
    hide Spelled, Nested, Balanced;
    SpelledSplit(toks, pos, [P(open)], inside + [P(close)]);
    SpelledOne(toks, pos, P(open));
    NestedSkipped(toks, pos + 1, inside, 0, open, close);
    assert inside[..0] == [];
  }

  // One level of the parser's functions.

  lemma PrimaryWord(toks: seq<Token>, pos: nat)
    requires pos < |toks| && toks[pos].kind == Literal
    ensures Primary(toks, pos) == Ok(Lit(toks[pos].text), pos + 1)
  {
  }

  lemma PrimaryName(toks: seq<Token>, pos: nat)
    requires pos < |toks| && toks[pos].kind == Ident
    ensures var (name, p) := QualifiedName(toks, pos, "");
      Primary(toks, pos) == if p < |toks| && Assigns(SignAt(toks, p)) then Primary(toks, p + 1) else Ok(Ref(name), p)
  {
    hide QualifiedName;
  }

  lemma PrimaryHinted(toks: seq<Token>, pos: nat)
    requires pos < |toks| && (SignAt(toks, pos) == P("->") || SignAt(toks, pos) == P("=>"))
    ensures Primary(toks, pos) == Primary(toks, pos + 1)
  {
  }

  lemma PrimaryGroup(toks: seq<Token>, pos: nat)
    requires pos < |toks| && SignAt(toks, pos) == P("(")
    ensures var r := Alternation(toks, pos + 1);
      if r.Ok? && SignAt(toks, r.pos) == P(")") then Primary(toks, pos) == Ok(r.value, r.pos + 1) else Primary(toks, pos).Err?
  {
    hide Alternation;
  }

  lemma PrimaryBrackets(toks: seq<Token>, pos: nat)
    requires pos < |toks|
    ensures SignAt(toks, pos) == P("{") ==> var r := Balanced(toks, pos + 1, "{", "}", 1);
      if r.Err? then Primary(toks, pos).Err? else Primary(toks, pos) == Ok(Nil, r.pos)
    ensures SignAt(toks, pos) == P("[") ==> var r := Balanced(toks, pos + 1, "[", "]", 1);
      if r.Err? then Primary(toks, pos).Err? else Primary(toks, pos) == Ok(Ref("crossReference"), r.pos)
  {
    hide Balanced;
  }

  lemma ElementStep(toks: seq<Token>, pos: nat)
    requires pos <= |toks|
    ensures var r := Primary(toks, pos);
      if r.Err? then Element(toks, pos).Err? else Element(toks, pos) == Cardinalities(toks, r.pos, r.value)
  {
    hide Primary, Cardinalities;
  }

  lemma SequenceStep(toks: seq<Token>, pos: nat, items: seq<Expr>)
    requires pos <= |toks|
    ensures Stops(Peek(toks, pos)) ==> Sequence(toks, pos, items) == Ok(MakeSeq(items), pos)
    ensures !Stops(Peek(toks, pos)) ==> var r := Element(toks, pos);
      if r.Err? then Sequence(toks, pos, items).Err?
      else Sequence(toks, pos, items) == Sequence(toks, r.pos, if r.value == Nil then items else items + [r.value])
  {
    hide Element, Stops;
  }

  lemma AlternativesStep(toks: seq<Token>, pos: nat, items: seq<Expr>)
    requires pos <= |toks| && items != []
    ensures !At(toks, pos, "|") ==> Alternatives(toks, pos, items) == Ok(MakeAlt(items), pos)
    ensures At(toks, pos, "|") ==> var r := Sequence(toks, pos + 1, []);
      if r.Err? then Alternatives(toks, pos, items).Err?
      else Alternatives(toks, pos, items) == Alternatives(toks, r.pos, items + [r.value])
  {
    hide Sequence;
  }

  lemma AlternationStep(toks: seq<Token>, pos: nat)
    requires pos <= |toks|
    ensures var r := Sequence(toks, pos, []);
      if r.Err? then Alternation(toks, pos).Err? else Alternation(toks, pos) == Alternatives(toks, r.pos, [r.value])
  {
    hide Sequence, Alternatives;
  }

  lemma {:induction false} ElemParsed(toks: seq<Token>, pos: nat, e: Elem)
    requires ElemFits(e) && Spelled(toks, pos, ElemSigns(e))
    requires var next := SignAt(toks, pos + |ElemSigns(e)|);
      !(next.kind == Punct && Mark(next.text)) && (e.marks == [] ==> Follows(e.core, next))
    ensures Element(toks, pos) == Ok(ElemMeaning(e), pos + |ElemSigns(e)|)
    decreases e, 2
  {
    hide Spelled, Primary, Element, Cardinalities, CoreSigns, CoreMeaning, CoreFits, Follows, MarkSigns;
    var p := pos + |CoreSigns(e.core)|;
    SpelledSplit(toks, pos, CoreSigns(e.core), MarkSigns(e.marks));
    MarksLength(e.marks);
    if e.marks != [] {
      SpelledFirst(toks, p, MarkSigns(e.marks));
      MarkFollows(e.core, e.marks[0]);
    }
    CoreParsed(toks, pos, e.core);
    MarksParsed(toks, p, e.marks, CoreMeaning(e.core));
    ElementStep(toks, pos);
  }

  lemma MarksLength(marks: seq<string>)
    ensures |MarkSigns(marks)| == |marks| && (marks != [] ==> MarkSigns(marks)[0] == P(marks[0]))
  {
  }

  /** The signs of elements start with a core. */
  lemma BranchStarts(elems: seq<Elem>)
    requires BranchFits(elems) && elems != []
    ensures ElemSigns(elems[0]) != [] && BranchSigns(elems) != []
    ensures BranchSigns(elems)[0] == ElemSigns(elems[0])[0] && Starts(ElemSigns(elems[0])[0])
  {
    hide CoreSigns, CoreFits;
    CoreStarts(elems[0].core);
  }

  lemma {:induction false} BranchParsed(toks: seq<Token>, pos: nat, elems: seq<Elem>, items: seq<Expr>)
    requires BranchFits(elems) && Spelled(toks, pos, BranchSigns(elems)) && Stops(Peek(toks, pos + |BranchSigns(elems)|))
    ensures Sequence(toks, pos, items) == Ok(MakeSeq(items + Meanings(elems)), pos + |BranchSigns(elems)|)
    decreases elems, 3
  {
    hide Spelled, Sequence, Element, ElemSigns, BranchSigns, ElemFits, ElemMeaning, Meanings, MakeSeq, Follows, Stops;
    BranchStep(elems);
    if elems == [] {
      SpelledInside(toks, pos, []);
      SequenceStep(toks, pos, items);
      assert items + [] == items;
    } else {
      var e, rest := elems[0], elems[1..];
      var p := pos + |ElemSigns(e)|;
      SpelledSplit(toks, pos, ElemSigns(e), BranchSigns(rest));
      BranchStarts(elems);
      SpelledFirst(toks, pos, ElemSigns(e));
      StartsGoOn(toks, pos);
      NextAfter(toks, p, e.core, rest);
      ElemParsed(toks, pos, e);
      SequenceStep(toks, pos, items);
      var more := if ElemMeaning(e) == Nil then items else items + [ElemMeaning(e)];
      BranchParsed(toks, p, rest, more);
      Associate(items, [ElemMeaning(e)], Meanings(rest));
    }
  }

  lemma BranchStep(elems: seq<Elem>)
    ensures elems == [] ==> BranchSigns(elems) == [] && Meanings(elems) == []
    ensures elems != [] ==>
      && BranchSigns(elems) == ElemSigns(elems[0]) + BranchSigns(elems[1..])
      && Meanings(elems) == if ElemMeaning(elems[0]) == Nil then Meanings(elems[1..]) else [ElemMeaning(elems[0])] + Meanings(elems[1..])
  {
    hide ElemSigns, ElemMeaning;
  }

  lemma StartsGoOn(toks: seq<Token>, pos: nat)
    requires Starts(SignAt(toks, pos))
    ensures !Stops(Peek(toks, pos))
  {
  }

  /** What stands behind an element does not extend it: the next element or what ends the branch. */
  lemma NextAfter(toks: seq<Token>, pos: nat, c: Core, rest: seq<Elem>)
    requires BranchFits(rest) && Spelled(toks, pos, BranchSigns(rest)) && Stops(Peek(toks, pos + |BranchSigns(rest)|))
    ensures var next := SignAt(toks, pos);
      !(next.kind == Punct && Mark(next.text)) && (Apart(c, rest) ==> Follows(c, next))
  {
    hide Spelled, BranchSigns, ElemSigns, Follows, BranchFits, Stops;
    BranchStep(rest);
    if rest == [] {
      StopsFollow(c, Peek(toks, pos));
    } else {
      BranchStarts(rest);
      SpelledFirst(toks, pos, BranchSigns(rest));
      StartsApart(SignAt(toks, pos));
    }
  }

  lemma BranchMade(elems: seq<Elem>)
    ensures MakeSeq([] + Meanings(elems)) == BranchMeaning(elems)
  {
    hide Meanings;
    assert [] + Meanings(elems) == Meanings(elems);
  }

  lemma {:induction false} RestParsed(toks: seq<Token>, pos: nat, branches: seq<Branch>, items: seq<Expr>)
    requires items != [] && BodyFits(branches) && Spelled(toks, pos, RestSigns(branches))
    requires var end := Peek(toks, pos + |RestSigns(branches)|); Stops(end) && !IsPunct(end, "|")
    ensures Alternatives(toks, pos, items) == Ok(MakeAlt(items + BranchMeanings(branches)), pos + |RestSigns(branches)|)
    decreases branches, 4
  {
    hide Spelled, Sequence, Alternatives, BranchSigns, RestSigns, BranchFits, BranchMeaning, MakeAlt, Stops;
    RestStep(branches);
    SpelledInside(toks, pos, RestSigns(branches));
    AlternativesStep(toks, pos, items);
    if branches == [] {
      assert items + [] == items;
    } else {
      var elems, rest := branches[0].elems, branches[1..];
      var p := pos + 1 + |BranchSigns(elems)|;
      SpelledSplit(toks, pos, [P("|")], BranchSigns(elems) + RestSigns(rest));
      SpelledOne(toks, pos, P("|"));
      SpelledSplit(toks, pos + 1, BranchSigns(elems), RestSigns(rest));
      BarStops(toks, p, rest);
      BranchParsed(toks, pos + 1, elems, []);
      BranchMade(elems);
      RestParsed(toks, p, rest, items + [BranchMeaning(elems)]);
      Associate(items, [BranchMeaning(elems)], BranchMeanings(rest));
    }
  }

  lemma RestStep(branches: seq<Branch>)
    ensures branches == [] ==> RestSigns(branches) == [] && BranchMeanings(branches) == []
    ensures branches != [] ==>
      && RestSigns(branches) == [P("|")] + (BranchSigns(branches[0].elems) + RestSigns(branches[1..]))
      && BodySigns(branches) == BranchSigns(branches[0].elems) + RestSigns(branches[1..])
      && BranchMeanings(branches) == [BranchMeaning(branches[0].elems)] + BranchMeanings(branches[1..])
  {
    hide BranchSigns, BranchMeaning;
  }

  /** A branch ends at the bar of the next one or where the alternation ends. */
  lemma BarStops(toks: seq<Token>, pos: nat, rest: seq<Branch>)
    requires Spelled(toks, pos, RestSigns(rest)) && Stops(Peek(toks, pos + |RestSigns(rest)|))
    ensures Stops(Peek(toks, pos))
  {
    hide Spelled, RestSigns, BranchSigns;
    RestStep(rest);
    if rest != [] { SpelledFirst(toks, pos, RestSigns(rest)); }
  }

  lemma {:induction false} BodyParsed(toks: seq<Token>, pos: nat, branches: seq<Branch>)
    requires branches != [] && BodyFits(branches) && Spelled(toks, pos, BodySigns(branches))
    requires var end := Peek(toks, pos + |BodySigns(branches)|); Stops(end) && !IsPunct(end, "|")
    ensures Alternation(toks, pos) == Ok(BodyMeaning(branches), pos + |BodySigns(branches)|)
    decreases branches, 5
  {
    hide Spelled, Sequence, Alternation, Alternatives, BodySigns, BranchSigns, RestSigns, BranchFits, BranchMeaning, Stops;
    var elems, rest := branches[0].elems, branches[1..];
    var p := pos + |BranchSigns(elems)|;
    RestStep(branches);
    SpelledSplit(toks, pos, BranchSigns(elems), RestSigns(rest));
    BarStops(toks, p, rest);
    BranchParsed(toks, pos, elems, []);
    BranchMade(elems);
    RestParsed(toks, p, rest, [BranchMeaning(elems)]);
    AlternationStep(toks, pos);
  }

  // ----- Whatever parses is spelled so -----

  /** A sign in place, and the signs after it. */
  lemma SpelledCons(toks: seq<Token>, pos: nat, sign: Sign, rest: seq<Sign>)
    requires pos < |toks| && SignAt(toks, pos) == sign && Spelled(toks, pos + 1, rest)
    ensures Spelled(toks, pos, [sign] + rest)
  {
    hide Spelled;
    SpelledOne(toks, pos, sign);
    SpelledSplit(toks, pos, [sign], rest);
  }

  lemma NameCons(first: Sign, sep: Sign, rest: seq<Sign>)
    requires first.kind == Ident && Separates(sep) && (rest == [] || NameShape(rest))
    ensures NameShape([first, sep] + rest) && TextOf([first, sep] + rest) == first.text + (sep.text + TextOf(rest))
  {
    var name := [first, sep] + rest;
    forall i | 0 <= i < |name| ensures if i % 2 == 0 then name[i].kind == Ident else Separates(name[i]) {
      if i >= 2 { assert name[i] == rest[i - 2]; }
    }
    assert name[2..] == rest;
    TextOfTwo(name);
    if rest == [] { assert sep.text + "" == sep.text; }
  }

  lemma {:induction false} NameSpelled(toks: seq<Token>, pos: nat, before: string) returns (name: seq<Sign>)
    requires pos < |toks| && toks[pos].kind == Ident
    ensures NameShape(name) && Spelled(toks, pos, name)
    ensures QualifiedName(toks, pos, before) == (before + TextOf(name), pos + |name|)
    ensures var next := SignAt(toks, pos + |name|); if |name| % 2 == 1 then !Separates(next) else next.kind != Ident
    decreases |toks| - pos
  {
    var first, sep := SignAt(toks, pos), SignAt(toks, pos + 1);
    if pos + 1 < |toks| && Separates(sep) {
      NameStep(toks, pos, before, sep.text);
      var rest: seq<Sign> := [];
      if pos + 2 < |toks| && toks[pos + 2].kind == Ident {
        rest := NameSpelled(toks, pos + 2, before + first.text + sep.text);
      } else {
        NameNone(toks, pos + 2, before + first.text + sep.text);
        SpelledOne(toks, pos + 2, sep);
      }
      hide NameShape, Spelled, QualifiedName, TextOf;
      name := [first, sep] + rest;
      NameCons(first, sep, rest);
      SpelledCons(toks, pos + 1, sep, rest);
      SpelledCons(toks, pos, first, [sep] + rest);
      assert [first] + ([sep] + rest) == name;
      NoText();
      Associate(before + first.text, sep.text, TextOf(rest));
      Associate(before, first.text, sep.text + TextOf(rest));
      assert before + first.text + sep.text + "" == before + first.text + sep.text;
    } else {
      name := [first];
      NameLast(toks, pos, before);
      SpelledOne(toks, pos, first);
      TextOfTwo(name);
    }
  }

  lemma NoText()
    ensures TextOf([]) == ""
  {
  }

  /** What lies behind an opening bracket up to the matching closing one, `inside` of it read already. */
  lemma {:induction false} BracketsSpelled(toks: seq<Token>, pos: nat, inside: seq<Sign>, open: string, close: string, depth: nat)
    returns (more: seq<Sign>)
    requires pos <= |toks| && open != close && OpenFirst(inside, open, close)
    requires depth > 0 && depth + CountOf(inside, close) == 1 + CountOf(inside, open)
    requires Balanced(toks, pos, open, close, depth).Ok?
    ensures Nested(inside + more, open, close) && Spelled(toks, pos, more + [P(close)])
    ensures Balanced(toks, pos, open, close, depth) == Ok((), pos + |more| + 1)
    decreases |toks| - pos
  {
    hide Balanced, CountOf, Spelled, Nested, OpenFirst;
    var t := SignAt(toks, pos);
    BalancedStep(toks, pos, open, close, depth);
    if t == P(close) && depth == 1 {
      more := [];
      BracketsEnd(toks, pos, inside, open, close);
    } else {
      LongerNested(inside, t, open, close);
      var rest := BracketsSpelled(toks, pos + 1, inside + [t], open, close,
                                  if t == P(open) then depth + 1 else if t == P(close) then depth - 1 else depth);
      more := [t] + rest;
      SpelledCons(toks, pos, t, rest + [P(close)]);
      Associate([t], rest, [P(close)]);
      Associate(inside, [t], rest);
    }
  }

  lemma BracketsEnd(toks: seq<Token>, pos: nat, inside: seq<Sign>, open: string, close: string)
    requires pos < |toks| && SignAt(toks, pos) == P(close)
    requires OpenFirst(inside, open, close) && CountOf(inside, close) == CountOf(inside, open)
    ensures Nested(inside + [], open, close) && Spelled(toks, pos, [] + [P(close)])
  {
    hide CountOf, Spelled, OpenFirst;
    SpelledOne(toks, pos, P(close));
    assert inside + [] == inside && [] + [P(close)] == [P(close)];
  }

  lemma CountLonger(inside: seq<Sign>, t: Sign, mark: string)
    ensures CountOf(inside + [t], mark) == CountOf(inside, mark) + (if t == P(mark) then 1 else 0)
  {
    var longer := inside + [t];
    CountNext(longer, |inside|, mark);
    assert longer[..|inside|] == inside && longer[..|longer|] == longer;
  }

  lemma LongerNested(inside: seq<Sign>, t: Sign, open: string, close: string)
    requires open != close && OpenFirst(inside, open, close) && t.kind != EndOfInput
    requires t == P(close) ==> CountOf(inside, close) < CountOf(inside, open)
    ensures var longer := inside + [t];
      && CountOf(longer, open) == CountOf(inside, open) + (if t == P(open) then 1 else 0)
      && CountOf(longer, close) == CountOf(inside, close) + (if t == P(close) then 1 else 0)
      && OpenFirst(longer, open, close)
  {
    hide CountOf;
    var longer := inside + [t];
    CountLonger(inside, t, open);
    CountLonger(inside, t, close);
    forall i | 0 <= i <= |longer| ensures CountOf(longer[..i], close) <= CountOf(longer[..i], open) {
      if i <= |inside| {
        assert longer[..i] == inside[..i];
      } else {
        assert longer[..i] == longer && inside[..|inside|] == inside;
      }
    }
  }

  lemma BalancedStep(toks: seq<Token>, pos: nat, open: string, close: string, depth: nat)
    requires pos <= |toks| && depth > 0 && open != close
    ensures var t := SignAt(toks, pos);
      if t.kind == EndOfInput then Balanced(toks, pos, open, close, depth).Err?
      else
        && pos < |toks|
        && Balanced(toks, pos, open, close, depth) ==
             Balanced(toks, pos + 1, open, close, if t == P(open) then depth + 1 else if t == P(close) then depth - 1 else depth)
        && Balanced(toks, pos + 1, open, close, 0) == Ok((), pos + 1)
  {
  }

  lemma {:induction false} MarksSpelled(toks: seq<Token>, pos: nat, item: Expr) returns (marks: seq<string>)
    requires pos <= |toks|
    ensures (forall i | 0 <= i < |marks| :: Mark(marks[i])) && Spelled(toks, pos, MarkSigns(marks))
    ensures Cardinalities(toks, pos, item) == Ok(Optional(item, Omissible(marks)), pos + |marks|)
    ensures var next := SignAt(toks, pos + |marks|); !(next.kind == Punct && Mark(next.text))
    decreases |toks| - pos
  {
    var t := SignAt(toks, pos);
    if pos < |toks| && t.kind == Punct && Mark(t.text) {
      var more := if t.text == "+" then item else Opt(item);
      var rest := MarksSpelled(toks, pos + 1, more);
      marks := [t.text] + rest;
      assert marks[1..] == rest;
      if t.text != "+" { OptionalInside(item, Omissible(rest)); }
      SpelledCons(toks, pos, t, MarkSigns(rest));
      assert MarkSigns(marks) == [t] + MarkSigns(rest);
    } else {
      marks := [];
      assert MarkSigns(marks) == [];
      SpelledOne(toks, pos, t);
    }
  }

  lemma {:induction false} CoreSpelled(toks: seq<Token>, pos: nat) returns (c: Core)
    requires pos <= |toks| && Primary(toks, pos).Ok?
    ensures CoreFits(c) && Spelled(toks, pos, CoreSigns(c))
    ensures Primary(toks, pos) == Ok(CoreMeaning(c), pos + |CoreSigns(c)|)
    ensures Follows(c, SignAt(toks, pos + |CoreSigns(c)|))
    decreases |toks| - pos, 1
  {
    var t := SignAt(toks, pos);
    PrimaryStarts(toks, pos);
    hide Primary, Spelled, Starts, CoreSigns, CoreFits, CoreMeaning, Follows;
    if t.kind == Literal {
      c := Word(t.text);
      WordSpelled(toks, pos);
    } else if t.kind == Ident {
      c := NamedSpelled(toks, pos);
    } else if t == P("->") || t == P("=>") {
      PrimaryHinted(toks, pos);
      var core := CoreSpelled(toks, pos + 1);
      c := Hinted(t.text, core);
      HintCons(toks, pos, t.text, core);
    } else if t == P("(") {
      c := GroupSpelled(toks, pos);
    } else {
      OtherStarts(t);
      c := BracketSpelled(toks, pos, t.text, if t.text == "{" then "}" else "]");
    }
  }

  lemma OtherStarts(t: Sign)
    requires Starts(t)
    ensures t.kind == Literal || t.kind == Ident || t == P("->") || t == P("=>") || t == P("(") || t == P("{") || t == P("[")
  {
  }

  lemma WordSpelled(toks: seq<Token>, pos: nat)
    requires pos < |toks| && toks[pos].kind == Literal
    ensures var c := Word(toks[pos].text);
      && CoreFits(c) && Spelled(toks, pos, CoreSigns(c)) && Follows(c, SignAt(toks, pos + |CoreSigns(c)|))
      && Primary(toks, pos) == Ok(CoreMeaning(c), pos + |CoreSigns(c)|)
  {
    hide Primary, Spelled;
    PrimaryWord(toks, pos);
    SpelledOne(toks, pos, SignAt(toks, pos));
  }

  lemma HintCons(toks: seq<Token>, pos: nat, arrow: string, core: Core)
    requires pos < |toks| && SignAt(toks, pos) == P(arrow) && (arrow == "->" || arrow == "=>")
    requires CoreFits(core) && Spelled(toks, pos + 1, CoreSigns(core)) && Follows(core, SignAt(toks, pos + 1 + |CoreSigns(core)|))
    ensures var c := Hinted(arrow, core);
      && CoreFits(c) && Spelled(toks, pos, CoreSigns(c)) && CoreMeaning(c) == CoreMeaning(core)
      && |CoreSigns(c)| == 1 + |CoreSigns(core)| && Follows(c, SignAt(toks, pos + |CoreSigns(c)|))
  {
    hide Spelled;
    SpelledCons(toks, pos, P(arrow), CoreSigns(core));
  }

  /** A name, or a feature assigned to. */
  lemma {:induction false} NamedSpelled(toks: seq<Token>, pos: nat) returns (c: Core)
    requires pos < |toks| && Primary(toks, pos).Ok? && toks[pos].kind == Ident
    ensures CoreFits(c) && Spelled(toks, pos, CoreSigns(c))
    ensures Primary(toks, pos) == Ok(CoreMeaning(c), pos + |CoreSigns(c)|)
    ensures Follows(c, SignAt(toks, pos + |CoreSigns(c)|))
    decreases |toks| - pos, 0
  {
    hide Primary, QualifiedName, Spelled, NameShape, TextOf;
    var name := NameSpelled(toks, pos, "");
    assert "" + TextOf(name) == TextOf(name);
    PrimaryName(toks, pos);
    SpelledInside(toks, pos, name);
    var op := SignAt(toks, pos + |name|);
    if pos + |name| < |toks| && Assigns(op) {
      var core := CoreSpelled(toks, pos + |name| + 1);
      c := Assigned(name, op.text, core);
      SpelledCons(toks, pos + |name|, op, CoreSigns(core));
      SpelledSplit(toks, pos, name, [op] + CoreSigns(core));
    } else {
      c := Call(name);
    }
  }

  lemma {:induction false} GroupSpelled(toks: seq<Token>, pos: nat) returns (c: Core)
    requires pos < |toks| && Primary(toks, pos).Ok? && SignAt(toks, pos) == P("(")
    ensures CoreFits(c) && Spelled(toks, pos, CoreSigns(c))
    ensures Primary(toks, pos) == Ok(CoreMeaning(c), pos + |CoreSigns(c)|)
    ensures Follows(c, SignAt(toks, pos + |CoreSigns(c)|))
    decreases |toks| - pos, 0
  {
    hide Primary, Alternation, Spelled, BodySigns, BodyFits, BodyMeaning;
    PrimaryGroup(toks, pos);
    var branches := BodySpelled(toks, pos + 1);
    var body := BodySigns(branches);
    c := Group(branches);
    SpelledInside(toks, pos + 1, body);
    SpelledOne(toks, pos + 1 + |body|, P(")"));
    SpelledSplit(toks, pos + 1, body, [P(")")]);
    SpelledCons(toks, pos, P("("), body + [P(")")]);
  }

  lemma PrimaryStarts(toks: seq<Token>, pos: nat)
    requires pos <= |toks| && Primary(toks, pos).Ok?
    ensures Starts(SignAt(toks, pos)) && pos < |toks|
  {
    hide Alternation, Balanced, QualifiedName;
  }

  lemma BracketSpelled(toks: seq<Token>, pos: nat, open: string, close: string) returns (c: Core)
    requires pos < |toks| && Primary(toks, pos).Ok? && SignAt(toks, pos) == P(open)
    requires (open == "{" && close == "}") || (open == "[" && close == "]")
    ensures CoreFits(c) && Spelled(toks, pos, CoreSigns(c)) && Follows(c, SignAt(toks, pos + |CoreSigns(c)|))
    ensures Primary(toks, pos) == Ok(CoreMeaning(c), pos + |CoreSigns(c)|)
  {
    PrimaryBrackets(toks, pos);
    assert CountOf([], open) == CountOf([], close) == 0;
    hide Primary, Balanced, Spelled, Nested, CountOf;
    assert OpenFirst([], open, close);
    var inside := BracketsSpelled(toks, pos + 1, [], open, close, 1);
    assert [] + inside == inside;
    SpelledCons(toks, pos, P(open), inside + [P(close)]);
    hide SignsOf;
    if open == "{" {
      c := Action(inside);
    } else {
      c := CrossReference(inside);
    }
  }

  lemma {:induction false} ElemSpelled(toks: seq<Token>, pos: nat) returns (e: Elem)
    requires pos <= |toks| && Element(toks, pos).Ok?
    ensures ElemFits(e) && Spelled(toks, pos, ElemSigns(e)) && ElemSigns(e) != []
    ensures Element(toks, pos) == Ok(ElemMeaning(e), pos + |ElemSigns(e)|)
    ensures e.marks == [] ==> Follows(e.core, SignAt(toks, pos + |ElemSigns(e)|))
    decreases |toks| - pos, 2
  {
    hide Primary, Element, Cardinalities, Spelled, CoreSigns, CoreFits, CoreMeaning, Follows, MarkSigns;
    ElementStep(toks, pos);
    var core := CoreSpelled(toks, pos);
    CoreStarts(core);
    var p := pos + |CoreSigns(core)|;
    SpelledInside(toks, pos, CoreSigns(core));
    var marks := MarksSpelled(toks, p, CoreMeaning(core));
    MarksLength(marks);
    SpelledSplit(toks, pos, CoreSigns(core), MarkSigns(marks));
    e := Elem(core, marks);
  }

  lemma {:induction false} BranchSpelled(toks: seq<Token>, pos: nat, items: seq<Expr>) returns (elems: seq<Elem>)
    requires pos <= |toks| && Sequence(toks, pos, items).Ok?
    ensures BranchFits(elems) && Spelled(toks, pos, BranchSigns(elems))
    ensures Sequence(toks, pos, items) == Ok(MakeSeq(items + Meanings(elems)), pos + |BranchSigns(elems)|)
    ensures Stops(Peek(toks, pos + |BranchSigns(elems)|))
    decreases |toks| - pos, 3
  {
    hide Spelled, Sequence, Element, ElemSigns, BranchSigns, ElemFits, ElemMeaning, Meanings, MakeSeq, Follows, Stops;
    SequenceStep(toks, pos, items);
    if Stops(Peek(toks, pos)) {
      elems := [];
      BranchStep([]);
      SpelledOne(toks, pos, SignAt(toks, pos));
      assert items + [] == items;
    } else {
      var e := ElemSpelled(toks, pos);
      var p := pos + |ElemSigns(e)|;
      var rest := BranchSpelled(toks, p, if ElemMeaning(e) == Nil then items else items + [ElemMeaning(e)]);
      elems := [e] + rest;
      assert elems[1..] == rest && elems[0] == e;
      BranchStep(elems);
      SpelledSplit(toks, pos, ElemSigns(e), BranchSigns(rest));
      ElemApart(toks, p, e, rest);
      Associate(items, [ElemMeaning(e)], Meanings(rest));
    }
  }

  lemma ElemApart(toks: seq<Token>, pos: nat, e: Elem, rest: seq<Elem>)
    requires Spelled(toks, pos, BranchSigns(rest)) && (e.marks == [] ==> Follows(e.core, SignAt(toks, pos)))
    ensures e.marks == [] ==> Apart(e.core, rest)
  {
    hide Spelled, BranchSigns, ElemSigns, Follows;
    BranchStep(rest);
    if rest != [] && ElemSigns(rest[0]) != [] {
      SpelledFirst(toks, pos, BranchSigns(rest));
    }
  }

  lemma {:induction false} RestSpelled(toks: seq<Token>, pos: nat, items: seq<Expr>) returns (branches: seq<Branch>)
    requires pos <= |toks| && items != [] && Alternatives(toks, pos, items).Ok? && Stops(Peek(toks, pos))
    ensures BodyFits(branches) && Spelled(toks, pos, RestSigns(branches))
    ensures Alternatives(toks, pos, items) == Ok(MakeAlt(items + BranchMeanings(branches)), pos + |RestSigns(branches)|)
    ensures var end := Peek(toks, pos + |RestSigns(branches)|); Stops(end) && !IsPunct(end, "|")
    decreases |toks| - pos, 4
  {
    hide Spelled, Sequence, Alternatives, BranchSigns, RestSigns, BranchFits, BranchMeaning, MakeAlt, Stops;
    AlternativesStep(toks, pos, items);
    if At(toks, pos, "|") {
      var elems := BranchSpelled(toks, pos + 1, []);
      BranchMade(elems);
      var p := pos + 1 + |BranchSigns(elems)|;
      var rest := RestSpelled(toks, p, items + [BranchMeaning(elems)]);
      branches := [Branch(elems)] + rest;
      assert branches[1..] == rest && branches[0].elems == elems;
      RestStep(branches);
      SpelledSplit(toks, pos + 1, BranchSigns(elems), RestSigns(rest));
      SpelledCons(toks, pos, P("|"), BranchSigns(elems) + RestSigns(rest));
      Associate(items, [BranchMeaning(elems)], BranchMeanings(rest));
    } else {
      branches := [];
      RestStep([]);
      SpelledOne(toks, pos, SignAt(toks, pos));
      assert items + [] == items;
    }
  }

  lemma {:induction false} BodySpelled(toks: seq<Token>, pos: nat) returns (branches: seq<Branch>)
    requires pos <= |toks| && Alternation(toks, pos).Ok?
    ensures branches != [] && BodyFits(branches) && Spelled(toks, pos, BodySigns(branches))
    ensures Alternation(toks, pos) == Ok(BodyMeaning(branches), pos + |BodySigns(branches)|)
    ensures var end := Peek(toks, pos + |BodySigns(branches)|); Stops(end) && !IsPunct(end, "|")
    decreases |toks| - pos, 5
  {
    hide Spelled, Sequence, Alternation, Alternatives, BodySigns, BranchSigns, RestSigns, BranchFits, BranchMeaning, Stops;
    AlternationStep(toks, pos);
    var elems := BranchSpelled(toks, pos, []);
    BranchMade(elems);
    var rest := RestSpelled(toks, pos + |BranchSigns(elems)|, [BranchMeaning(elems)]);
    branches := [Branch(elems)] + rest;
    assert branches[1..] == rest && branches[0].elems == elems;
    RestStep(branches);
    SpelledSplit(toks, pos, BranchSigns(elems), RestSigns(rest));
  }

  // ----- The main result -----

  lemma SpelledIs(toks: seq<Token>, pos: nat, signs: seq<Sign>)
    requires pos + |signs| <= |toks|
    ensures Spelled(toks, pos, signs) <==> SignsOf(toks)[pos..pos + |signs|] == signs
  {
    var slice := SignsOf(toks)[pos..pos + |signs|];
    assert forall i | 0 <= i < |signs| :: slice[i] == SignOf(toks[pos + i]);
  }

  /** The parser accepts a body, up to where a bar does not continue it, exactly if the tokens it
      consumes spell one, and its result is what they mean. */
  lemma ParsesWhatIsSpelled(toks: seq<Token>, pos: nat, e: Expr, end: nat)
    requires pos <= end <= |toks|
    ensures Alternation(toks, pos) == Ok(e, end) <==>
      Spells(SignsOf(toks)[pos..end], e) && Stops(Peek(toks, end)) && !IsPunct(Peek(toks, end), "|")
  {
    hide Alternation, Spelled, BodySigns, BodyFits, BodyMeaning, Stops;
    var signs := SignsOf(toks)[pos..end];
    if Alternation(toks, pos) == Ok(e, end) {
      var branches := BodySpelled(toks, pos);
      SpelledInside(toks, pos, BodySigns(branches));
      SpelledIs(toks, pos, BodySigns(branches));
      assert SpelledBy(branches, signs, e);
    }
    if Spells(signs, e) && Stops(Peek(toks, end)) && !IsPunct(Peek(toks, end), "|") {
      var branches :| SpelledBy(branches, signs, e);
      SpelledIs(toks, pos, BodySigns(branches));
      BodyParsed(toks, pos, branches);
    }
  }

  // ----- What an error says -----

  /** What the error names stands at q: a token that starts no element; one that stands where a group is
      to be closed; an opening bracket that nothing matches. */
  ghost predicate BlamesAt(toks: seq<Token>, q: nat, e: Error) {
    match e
    case Unexpected(line, found) => Peek(toks, q).line == line && Peek(toks, q).text == found && !Starts(SignAt(toks, q))
    case Expected(line, want, found) =>
      && want == ")" && Peek(toks, q).line == line && Peek(toks, q).text == found
      && Stops(Peek(toks, q)) && !IsPunct(Peek(toks, q), "|") && !IsPunct(Peek(toks, q), ")")
    case Unterminated(open) =>
      && (open == "{" || open == "[") && SignAt(toks, q) == P(open)
      && forall inside :: Nested(inside, open, Closing(open)) ==> !Spelled(toks, q + 1, inside + [P(Closing(open))])
  }

  function Closing(open: string): string { if open == "{" then "}" else "]" }

  ghost predicate Blames(toks: seq<Token>, pos: nat, e: Error) {
    exists q: nat :: pos <= q && BlamesAt(toks, q, e)
  }

  lemma BlamesLater(toks: seq<Token>, pos: nat, p: nat, e: Error)
    requires pos <= p && Blames(toks, p, e)
    ensures Blames(toks, pos, e)
  {
  }

  lemma {:induction false} BalancedError(toks: seq<Token>, pos: nat, open: string, close: string, depth: nat)
    requires pos <= |toks|
    ensures Balanced(toks, pos, open, close, depth).Err? ==> Balanced(toks, pos, open, close, depth) == Err(Unterminated(open))
    decreases |toks| - pos
  {
    if depth > 0 && Peek(toks, pos).kind != EndOfInput {
      var t := Peek(toks, pos);
      BalancedError(toks, pos + 1, open, close, if IsPunct(t, open) then depth + 1 else if IsPunct(t, close) then depth - 1 else depth);
    }
  }

  lemma BracketsUnclosed(toks: seq<Token>, pos: nat, open: string)
    requires pos < |toks| && (open == "{" || open == "[") && SignAt(toks, pos) == P(open)
    requires Balanced(toks, pos + 1, open, Closing(open), 1).Err?
    ensures Balanced(toks, pos + 1, open, Closing(open), 1) == Err(Unterminated(open)) && BlamesAt(toks, pos, Unterminated(open))
  {
    hide Balanced, Nested, Spelled;
    BalancedError(toks, pos + 1, open, Closing(open), 1);
    forall inside | Nested(inside, open, Closing(open)) ensures !Spelled(toks, pos + 1, inside + [P(Closing(open))]) {
      assert inside[..0] == [];
      if Spelled(toks, pos + 1, inside + [P(Closing(open))]) {
        NestedSkipped(toks, pos + 1, inside, 0, open, Closing(open));
      }
    }
  }

  lemma {:induction false} PrimaryError(toks: seq<Token>, pos: nat)
    requires pos <= |toks| && Primary(toks, pos).Err?
    ensures Blames(toks, pos, Primary(toks, pos).error)
    decreases |toks| - pos, 0
  {
    hide Alternation, Balanced, QualifiedName, BlamesAt, Stops;
    var t := Peek(toks, pos);
    if t.kind == Literal {
    } else if IsPunct(t, "->") || IsPunct(t, "=>") {
      PrimaryError(toks, pos + 1);
      BlamesLater(toks, pos, pos + 1, Primary(toks, pos).error);
    } else if IsPunct(t, "(") {
      var r := Alternation(toks, pos + 1);
      if r.Err? {
        BodyError(toks, pos + 1);
        BlamesLater(toks, pos, pos + 1, r.error);
      } else {
        GroupUnclosed(toks, pos);
      }
    } else if IsPunct(t, "{") {
      BracketsUnclosed(toks, pos, "{");
    } else if IsPunct(t, "[") {
      BracketsUnclosed(toks, pos, "[");
    } else if t.kind == Ident {
      var p := QualifiedName(toks, pos, "").1;
      PrimaryError(toks, p + 1);
      BlamesLater(toks, pos, p + 1, Primary(toks, pos).error);
    } else {
      NothingStarts(toks, pos);
    }
  }

  lemma NothingStarts(toks: seq<Token>, pos: nat)
    requires !Starts(SignAt(toks, pos))
    ensures BlamesAt(toks, pos, Unexpected(Peek(toks, pos).line, Peek(toks, pos).text))
  {
  }

  lemma GroupUnclosed(toks: seq<Token>, pos: nat)
    requires pos < |toks| && Alternation(toks, pos + 1).Ok? && !At(toks, Alternation(toks, pos + 1).pos, ")")
    ensures var q := Alternation(toks, pos + 1).pos; pos <= q && BlamesAt(toks, q, Missing(toks, q, ")").error)
  {
    hide Alternation, Spelled, BodySigns, BodyFits, BodyMeaning;
    var branches := BodySpelled(toks, pos + 1);
  }

  lemma {:induction false} SequenceError(toks: seq<Token>, pos: nat, items: seq<Expr>)
    requires pos <= |toks| && Sequence(toks, pos, items).Err?
    ensures Blames(toks, pos, Sequence(toks, pos, items).error)
    decreases |toks| - pos, 1
  {
    hide Primary, Blames, Stops;
    var r := Primary(toks, pos);
    if r.Err? {
      PrimaryError(toks, pos);
    } else {
      var item := Cardinalities(toks, r.pos, r.value);
      SequenceError(toks, item.pos, if item.value == Nil then items else items + [item.value]);
      BlamesLater(toks, pos, item.pos, Sequence(toks, pos, items).error);
    }
  }

  lemma {:induction false} AlternativesError(toks: seq<Token>, pos: nat, items: seq<Expr>)
    requires pos <= |toks| && items != [] && Alternatives(toks, pos, items).Err?
    ensures Blames(toks, pos, Alternatives(toks, pos, items).error)
    decreases |toks| - pos, 2
  {
    hide Sequence, Blames;
    var r := Sequence(toks, pos + 1, []);
    if r.Err? {
      SequenceError(toks, pos + 1, []);
      BlamesLater(toks, pos, pos + 1, r.error);
    } else {
      AlternativesError(toks, r.pos, items + [r.value]);
      BlamesLater(toks, pos, r.pos, Alternatives(toks, pos, items).error);
    }
  }

  /** A rejected body's error names a token at or behind the body's start that is the reason. */
  lemma {:induction false} BodyError(toks: seq<Token>, pos: nat)
    requires pos <= |toks| && Alternation(toks, pos).Err?
    ensures Blames(toks, pos, Alternation(toks, pos).error)
    decreases |toks| - pos, 3
  {
    hide Sequence, Alternatives, Blames;
    var r := Sequence(toks, pos, []);
    if r.Err? {
      SequenceError(toks, pos, []);
    } else {
      AlternativesError(toks, r.pos, [r.value]);
      BlamesLater(toks, pos, r.pos, Alternation(toks, pos).error);
    }
  }
}
