/** Parsed Xtext grammars: body expressions, productions and rule resolution
    (cmd/grammar-coverage/xtext.go, classify.go). */
module Grammar {
  import opened Masks

  datatype Option<+T> = None | Some(value: T)

  /** A parsed right-hand side. Nil is the absent body of a terminal and the operand of an action's
      cardinality, both of them nil interfaces in Go. */
  datatype Expr =
    | Lit(value: string)
    | Ref(name: string)
    | Seq(items: seq<Expr>)
    | Alt(items: seq<Expr>)
    | Opt(item: Expr)
    | Nil

  datatype Kind = Rule | Fragment | Enum | Terminal

  datatype Production = Production(grammar: string, name: string, kind: Kind, body: Expr)

  /** A production's identity: its grammar and its name. */
  datatype Key = Key(grammar: string, name: string)

  function KeyOf(p: Production): Key {
    Key(p.grammar, p.name)
  }

  /** The literals productions are searched by, each with its own bit. */
  datatype LitTable = LitTable(order: seq<string>, bit: map<string, nat>) {
    ghost predicate Valid() {
      && |order| <= MASK_BITS
      && (forall i, j | 0 <= i < j < |order| :: order[i] != order[j])
      && (forall i | 0 <= i < |order| :: order[i] in bit && bit[order[i]] == i)
      && (forall l | l in bit :: bit[l] < |order| && order[bit[l]] == l)
    }

    /** A known literal gives its own bit, any other nothing. */
    function Mask(literal: string): (m: Mask)
      requires Valid()
      ensures Bits(m) == LitBits({literal})
    {
      if literal in bit then OneBit(bit[literal]) else Empty()
    }

    /** The bits of a set of literals. */
    ghost function LitBits(literals: set<string>): set<nat> {
      set l | l in literals && l in bit :: bit[l]
    }
  }

  /** The productions by key, and for each grammar the chain its rules are inherited along. */
  datatype Rules = Rules(productions: map<Key, Production>, chain: map<string, seq<string>>, lits: LitTable) {
    ghost predicate Valid() {
      && lits.Valid()
      && (forall k | k in productions :: KeyOf(productions[k]) == k)
    }

    function Body(k: Key): Expr
      requires k in productions
    {
      productions[k].body
    }

    /** lookup: the referring grammar's own rule first, then the nearest inherited one. */
    function Lookup(grammar: string, name: string): (r: Option<Key>)
      ensures r.Some? ==> r.value in productions && r.value.name == name
    {
      if Key(grammar, name) in productions then Some(Key(grammar, name))
      else if grammar in chain then Inherited(chain[grammar], name)
      else None
    }

    function Inherited(grammars: seq<string>, name: string): (r: Option<Key>)
      ensures r.Some? ==> r.value in productions && r.value.name == name
    {
      if grammars == [] then None
      else if Key(grammars[0], name) in productions then Some(Key(grammars[0], name))
      else Inherited(grammars[1..], name)
    }
  }
}
