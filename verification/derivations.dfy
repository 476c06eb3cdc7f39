/** What a production requires of an input: finite derivations, with optional parts not taken and
    unresolved rules needing nothing. This is the specification the path analysis is measured by. */
module Derivations {
  import opened Grammar

  datatype Tree =
    | Leaf                            // a literal, an unresolved rule, a part not taken
    | Call(kid: Tree)                 // a resolved rule and the derivation of its body
    | Items(kids: seq<Tree>)          // every item of a sequence
    | Choice(index: nat, kid: Tree)   // one alternative

  predicate Derives(r: Rules, grammar: string, e: Expr, t: Tree)
    decreases t
  {
    match e
    case Ref(name) =>
      (match r.Lookup(grammar, name)
       case None => t.Leaf?
       case Some(k) => t.Call? && Derives(r, k.grammar, r.Body(k), t.kid))
    case Seq(items) => t.Items? && DerivesAll(r, grammar, items, t.kids)
    case Alt(items) => t.Choice? && t.index < |items| && Derives(r, grammar, items[t.index], t.kid)
    case _ => t.Leaf?
  }

  predicate DerivesAll(r: Rules, grammar: string, items: seq<Expr>, kids: seq<Tree>)
    decreases kids
  {
    && |items| == |kids|
    && (items != [] ==>
          var n := |items| - 1;
          DerivesAll(r, grammar, items[..n], kids[..n]) && Derives(r, grammar, items[n], kids[n]))
  }

  /** The literals a derivation spells out. */
  ghost function Literals(r: Rules, grammar: string, e: Expr, t: Tree): set<string>
    requires Derives(r, grammar, e, t)
    decreases t
  {
    match e
    case Lit(value) => {value}
    case Ref(name) =>
      (match r.Lookup(grammar, name)
       case None => {}
       case Some(k) => Literals(r, k.grammar, r.Body(k), t.kid))
    case Seq(items) => AllLiterals(r, grammar, items, t.kids)
    case Alt(items) => Literals(r, grammar, items[t.index], t.kid)
    case _ => {}
  }

  ghost function AllLiterals(r: Rules, grammar: string, items: seq<Expr>, kids: seq<Tree>): set<string>
    requires DerivesAll(r, grammar, items, kids)
    decreases kids
  {
    if items == [] then {}
    else
      var n := |items| - 1;
      AllLiterals(r, grammar, items[..n], kids[..n]) + Literals(r, grammar, items[n], kids[n])
  }

  ghost function Size(t: Tree): nat {
    match t
    case Leaf => 0
    case Call(kid) => 1 + Size(kid)
    case Items(kids) => 1 + SizeAll(kids)
    case Choice(_, kid) => 1 + Size(kid)
  }

  ghost function SizeAll(kids: seq<Tree>): nat {
    if kids == [] then 0 else SizeAll(kids[..|kids| - 1]) + 1 + Size(kids[|kids| - 1])
  }

  /** t is a derivation of production k. */
  predicate DerivesKey(r: Rules, k: Key, t: Tree) {
    k in r.productions && Derives(r, k.grammar, r.Body(k), t)
  }

  ghost function KeyLiterals(r: Rules, k: Key, t: Tree): set<string>
    requires DerivesKey(r, k, t)
  {
    Literals(r, k.grammar, r.Body(k), t)
  }

  /** The bits of a derivation's literals. */
  ghost function Needs(r: Rules, grammar: string, e: Expr, t: Tree): set<nat>
    requires Derives(r, grammar, e, t)
  {
    r.lits.LitBits(Literals(r, grammar, e, t))
  }

  ghost function KeyNeeds(r: Rules, k: Key, t: Tree): set<nat>
    requires DerivesKey(r, k, t)
  {
    Needs(r, k.grammar, r.Body(k), t)
  }

  /** Some finite derivation of k uses only literals whose bits are in `have`. */
  ghost predicate Derivable(r: Rules, k: Key, have: set<nat>) {
    exists t :: DerivesKey(r, k, t) && KeyNeeds(r, k, t) <= have
  }

  lemma LitBitsUnion(lits: LitTable, a: set<string>, b: set<string>)
    ensures lits.LitBits(a + b) == lits.LitBits(a) + lits.LitBits(b)
  {
  }
}
