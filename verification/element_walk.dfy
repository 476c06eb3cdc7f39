/** Element enumeration for queries (internal/grpc/query.go).

    Elements are found by a depth-first walk over two sorts of nodes, scopes and symbols, in a graph
    that may have cycles. The walk is proved to list exactly the identifiable symbols reachable from
    where it starts, once each, in declaration order. */
module ElementWalk {
  import opened QualifiedNames

  type Scope = nat
  type Symbol = nat

  datatype Option<+T> = None | Some(value: T)

  /** What the walk reads of a loaded model: the scope tree, the scopes symbols own, and the index by
      qualified name. A missing entry is an empty answer. */
  datatype Model = Model(
    members: map<Scope, seq<Symbol>>,
    anonymous: map<Scope, seq<Symbol>>,
    children: map<Scope, seq<Scope>>,
    owned: map<Symbol, Scope>,
    fqn: map<Symbol, string>,
    directChildren: map<string, seq<Symbol>>,
    qualified: map<string, seq<Symbol>>)
  {
    function Declared(s: Scope): seq<Symbol> {
      Get(members, s) + Get(anonymous, s)
    }

    function Children(s: Scope): seq<Scope> {
      Get(children, s)
    }

    function Fqn(sym: Symbol): string {
      if sym in fqn then fqn[sym] else ""
    }

    /** The members of a symbol that owns no scope. */
    function Indexed(sym: Symbol): seq<Symbol> {
      Get(directChildren, Fqn(sym))
    }

    /** A qualified name that names the symbol back. */
    predicate Identifies(sym: Symbol) {
      HasQualifiedIdentity(Fqn(sym)) && sym in Get(qualified, Fqn(sym))
    }
  }

  function Get<K, V>(m: map<K, seq<V>>, k: K): seq<V> {
    if k in m then m[k] else []
  }

  // ----- The graph -----

  datatype Node = S(sym: Symbol) | C(scope: Scope)

  /** What the walk goes to from a node. */
  predicate Edge(m: Model, a: Node, b: Node) {
    match (a, b)
    case (C(s), S(sym)) => sym in m.Declared(s)
    case (C(s), C(child)) => child in m.Children(s)
    case (S(sym), C(s)) => sym in m.owned && m.owned[sym] == s
    case (S(sym), S(child)) => sym !in m.owned && child in m.Indexed(sym)
  }

  /** The walk's steps, read off the model: a scope leads to its named and its anonymous members and to
      its child scopes, a symbol to the scope it owns, and one that owns none to what the index lists
      under its qualified name. */
  lemma StepsMeaning(m: Model, a: Node, b: Node)
    ensures Edge(m, a, b) <==>
      match (a, b)
      case (C(s), S(sym)) => (s in m.members && sym in m.members[s]) || (s in m.anonymous && sym in m.anonymous[s])
      case (C(s), C(child)) => s in m.children && child in m.children[s]
      case (S(sym), C(s)) => sym in m.owned && m.owned[sym] == s
      case (S(sym), S(child)) =>
        var name := if sym in m.fqn then m.fqn[sym] else "";
        sym !in m.owned && name in m.directChildren && child in m.directChildren[name]
  {
  }

  /** An element is listed under its qualified name exactly if it has one whose text has no empty part
      and the index finds the element back by it. */
  lemma ListableMeaning(m: Model, sym: Symbol)
    ensures m.Identifies(sym) <==>
      && sym in m.fqn && var name := m.fqn[sym];
      && name != "" && !SeparatorAt(name, 0) && !SeparatorAt(name, |name| - 2)
      && (forall i :: !(SeparatorAt(name, i) && SeparatorAt(name, i + 2)))
      && name in m.qualified && sym in m.qualified[name]
  {
    hide SeparatorAt, HasQualifiedIdentity;
    IdentityMeaning("");
    if sym in m.fqn { IdentityMeaning(m.fqn[sym]); }
  }

  ghost predicate IsPath(m: Model, p: seq<Node>) {
    p != [] && forall i | 0 <= i < |p| - 1 :: Edge(m, p[i], p[i + 1])
  }

  ghost predicate PathFromTo(m: Model, p: seq<Node>, a: Node, b: Node) {
    IsPath(m, p) && p[0] == a && p[|p| - 1] == b
  }

  ghost predicate Reachable(m: Model, a: Node, b: Node) {
    exists p :: PathFromTo(m, p, a, b)
  }

  /** Symbols and scopes of the model; everything the walk can meet is among them. */
  ghost predicate Within(m: Model, symbols: set<Symbol>, scopes: set<Scope>) {
    && (forall s, sym | sym in m.Declared(s) :: sym in symbols)
    && (forall s, c | c in m.Children(s) :: c in scopes)
    && (forall sym | sym in m.owned :: m.owned[sym] in scopes)
    && (forall f, sym | sym in Get(m.directChildren, f) :: sym in symbols)
  }

  ghost predicate Marked(seen: set<Symbol>, walked: set<Scope>, n: Node) {
    match n
    case S(sym) => sym in seen
    case C(s) => s in walked
  }

  ghost predicate NewReachable(m: Model, root: Node, seen0: set<Symbol>, walked0: set<Scope>, seen: set<Symbol>, walked: set<Scope>) {
    forall a | Marked(seen, walked, a) && !Marked(seen0, walked0, a) :: Reachable(m, root, a)
  }

  lemma Extend(m: Model, p: seq<Node>, b: Node)
    requires IsPath(m, p) && Edge(m, p[|p| - 1], b)
    ensures PathFromTo(m, p + [b], p[0], b)
  {
  }

  /** A marked set closed under successors contains everything reachable from its members. */
  lemma {:induction false} ClosedContainsPath(m: Model, p: seq<Node>, seen: set<Symbol>, walked: set<Scope>)
    requires IsPath(m, p) && Marked(seen, walked, p[0])
    requires forall a, b | Marked(seen, walked, a) && Edge(m, a, b) :: Marked(seen, walked, b)
    ensures Marked(seen, walked, p[|p| - 1])
    decreases |p|
  {
    if |p| > 1 {
      var n := |p| - 1;
      assert forall i | 0 <= i < n :: p[..n][i] == p[i];
      ClosedContainsPath(m, p[..n], seen, walked);
      assert Edge(m, p[n - 1], p[n]);
    }
  }

  // ----- The order of the listing -----

  predicate Distinct<T(==)>(s: seq<T>) {
    forall i, j | 0 <= i < j < |s| :: s[i] != s[j]
  }

  function Symbols(syms: seq<Symbol>): seq<Node> { seq(|syms|, i requires 0 <= i < |syms| => S(syms[i])) }

  function Scopes(ss: seq<Scope>): seq<Node> { seq(|ss|, i requires 0 <= i < |ss| => C(ss[i])) }

  /** What a node declares, in declaration order. */
  function Targets(m: Model, a: Node): seq<Node> {
    match a
    case C(s) => Symbols(m.Declared(s)) + Scopes(m.Children(s))
    case S(sym) => if sym in m.owned then [C(m.owned[sym])] else Symbols(m.Indexed(sym))
  }

  /** The order of declaration: named members, then anonymous ones, then child scopes. */
  lemma DeclarationOrder(m: Model, s: Scope, i: nat)
    ensures var named := if s in m.members then m.members[s] else [];
      var unnamed := if s in m.anonymous then m.anonymous[s] else [];
      var inner := if s in m.children then m.children[s] else [];
      && |Targets(m, C(s))| == |named| + |unnamed| + |inner|
      && (i < |named| ==> Targets(m, C(s))[i] == S(named[i]))
      && (i < |unnamed| ==> Targets(m, C(s))[|named| + i] == S(unnamed[i]))
      && (i < |inner| ==> Targets(m, C(s))[|named| + |unnamed| + i] == C(inner[i]))
  {
  }

  /** A path from a to b that meets no node of `off`. */
  ghost predicate ReachableOff(m: Model, a: Node, b: Node, off: seq<Node>) {
    exists q :: PathFromTo(m, q, a, b) && forall i | 0 <= i < |q| :: q[i] !in off
  }

  /** All that is declared before the j-th target of the last node of p, or reached from there without
      meeting p again, is listed. */
  ghost predicate EarlierListed(m: Model, p: seq<Node>, j: nat, out: seq<Symbol>)
    requires p != []
  {
    var targets := Targets(m, p[|p| - 1]);
    forall i, sym | 0 <= i < j && i < |targets| && m.Identifies(sym) && ReachableOff(m, targets[i], S(sym), p) :: sym in out
  }

  /** The path p goes on to b when everything declared before b there has been listed. */
  ghost predicate Turn(m: Model, p: seq<Node>, b: Node, out: seq<Symbol>)
    requires p != []
  {
    exists j: nat :: j < |Targets(m, p[|p| - 1])| && Targets(m, p[|p| - 1])[j] == b && EarlierListed(m, p, j, out)
  }

  /** p takes each turn in declaration order, and all identifiable symbols on it, the root apart, are listed. */
  ghost predicate InOrder(m: Model, p: seq<Node>, root: Node, out: seq<Symbol>) {
    && (forall i | 0 <= i < |p| && p[i].S? && p[i] != root && m.Identifies(p[i].sym) :: p[i].sym in out)
    && forall k | 0 <= k < |p| - 1 :: TurnsAt(m, p, k, out)
  }

  ghost predicate TurnsAt(m: Model, p: seq<Node>, k: nat, out: seq<Symbol>) {
    k + 1 < |p| && Turn(m, p[..k + 1], p[k + 1], out)
  }

  /** The i-th element is listed in declaration order: it is reached from the root through elements
      listed before it, and at each turn of the way all that was declared earlier is listed before it too. */
  ghost predicate ListedInOrder(m: Model, root: Node, out: seq<Symbol>, i: nat)
    requires i < |out|
  {
    exists p, last :: PathFromTo(m, p, root, last) && InOrder(m, p, root, out[..i]) && Turn(m, p, S(out[i]), out[..i])
  }

  /** The walk is done with every marked node that is not on the path. */
  ghost predicate Settled(m: Model, seen: set<Symbol>, walked: set<Scope>, path: seq<Node>) {
    forall a, b | Marked(seen, walked, a) && a !in path && Edge(m, a, b) :: Marked(seen, walked, b)
  }

  /** Marking the node one goes to leaves the walk settled off the path to it. */
  lemma SettledMore(m: Model, seen: set<Symbol>, walked: set<Scope>, path: seq<Node>)
    requires Settled(m, seen, walked, path)
    ensures forall sym :: Settled(m, seen + {sym}, walked, path + [S(sym)])
    ensures forall s | C(s) in path :: Settled(m, seen, walked + {s}, path)
  {
    hide Edge;
  }

  lemma {:induction false} SettledContains(m: Model, q: seq<Node>, seen: set<Symbol>, walked: set<Scope>, path: seq<Node>)
    requires IsPath(m, q) && Marked(seen, walked, q[0]) && Settled(m, seen, walked, path)
    requires forall i | 0 <= i < |q| :: q[i] !in path
    ensures Marked(seen, walked, q[|q| - 1])
    decreases |q|
  {
    if |q| > 1 {
      var n := |q| - 1;
      assert forall i | 0 <= i < n :: q[..n][i] == q[i];
      SettledContains(m, q[..n], seen, walked, path);
      assert Edge(m, q[n - 1], q[n]);
    }
  }

  ghost predicate AllMarked(seen: set<Symbol>, walked: set<Scope>, ns: seq<Node>) {
    forall n | n in ns :: Marked(seen, walked, n)
  }

  lemma NoneToMark(seen: set<Symbol>, walked: set<Scope>, targets: seq<Node>)
    ensures AllMarked(seen, walked, targets[..0])
  {
  }

  lemma MarkedNext(seen0: set<Symbol>, walked0: set<Scope>, seen: set<Symbol>, walked: set<Scope>, targets: seq<Node>, i: nat)
    requires i < |targets| && AllMarked(seen0, walked0, targets[..i]) && seen0 <= seen && walked0 <= walked
    requires Marked(seen, walked, targets[i])
    ensures AllMarked(seen, walked, targets[..i + 1])
  {
    assert targets[..i + 1] == targets[..i] + [targets[i]];
  }

  lemma MarkedAll(m: Model, a: Node, seen: set<Symbol>, walked: set<Scope>)
    requires var targets := Targets(m, a); AllMarked(seen, walked, targets[..|targets|])
    ensures forall b | Edge(m, a, b) :: Marked(seen, walked, b)
  {
    var targets := Targets(m, a);
    assert targets[..|targets|] == targets;
    forall b | Edge(m, a, b) ensures b in targets {
      EdgesAreTargets(m, a, b);
    }
  }

  lemma EdgesAreTargets(m: Model, a: Node, b: Node)
    requires Edge(m, a, b)
    ensures b in Targets(m, a)
  {
    match (a, b) {
      case (C(s), S(sym)) =>
        var i :| 0 <= i < |m.Declared(s)| && m.Declared(s)[i] == sym;
        assert Targets(m, a)[i] == b;
      case (C(s), C(child)) =>
        var i :| 0 <= i < |m.Children(s)| && m.Children(s)[i] == child;
        assert Targets(m, a)[|m.Declared(s)| + i] == b;
      case (S(sym), C(s)) => assert Targets(m, a)[0] == b;
      case (S(sym), S(child)) =>
        var i :| 0 <= i < |m.Indexed(sym)| && m.Indexed(sym)[i] == child;
        assert Targets(m, a)[i] == b;
    }
  }

  /** When all earlier targets are marked and the walk has settled, it may turn to the next. */
  lemma TurnAt(m: Model, path: seq<Node>, j: nat, root: Node, seen: set<Symbol>, walked: set<Scope>, out: seq<Symbol>)
    requires path != [] && root in path && j < |Targets(m, path[|path| - 1])|
    requires AllMarked(seen, walked, Targets(m, path[|path| - 1])[..j])
    requires Settled(m, seen, walked, path)
    requires forall sym | sym in seen && S(sym) != root && m.Identifies(sym) :: sym in out
    ensures Turn(m, path, Targets(m, path[|path| - 1])[j], out)
  {
    hide Targets, Settled;
    var targets := Targets(m, path[|path| - 1]);
    forall i, sym | 0 <= i < j && m.Identifies(sym) && ReachableOff(m, targets[i], S(sym), path) ensures sym in out {
      var q :| PathFromTo(m, q, targets[i], S(sym)) && forall x | 0 <= x < |q| :: q[x] !in path;
      assert targets[i] in targets[..j];
      SettledContains(m, q, seen, walked, path);
    }
    assert EarlierListed(m, path, j, out);
  }

  lemma TurnKept(m: Model, p: seq<Node>, b: Node, few: seq<Symbol>, more: seq<Symbol>)
    requires p != [] && Turn(m, p, b, few) && forall x | x in few :: x in more
    ensures Turn(m, p, b, more)
  {
    hide Targets, ReachableOff;
    var j: nat :| j < |Targets(m, p[|p| - 1])| && Targets(m, p[|p| - 1])[j] == b && EarlierListed(m, p, j, few);
    assert EarlierListed(m, p, j, more);
  }

  lemma InOrderKept(m: Model, p: seq<Node>, root: Node, few: seq<Symbol>, more: seq<Symbol>)
    requires InOrder(m, p, root, few) && forall x | x in few :: x in more
    ensures InOrder(m, p, root, more)
  {
    hide Turn;
    forall k | 0 <= k < |p| - 1 ensures TurnsAt(m, p, k, more) {
      assert TurnsAt(m, p, k, few);
      TurnKept(m, p[..k + 1], p[k + 1], few, more);
    }
  }

  lemma InOrderOn(m: Model, p: seq<Node>, b: Node, root: Node, out: seq<Symbol>)
    requires p != [] && InOrder(m, p, root, out) && Turn(m, p, b, out)
    requires b.S? && b != root && m.Identifies(b.sym) ==> b.sym in out
    ensures InOrder(m, p + [b], root, out)
  {
    hide Turn;
    var q := p + [b];
    forall k | 0 <= k < |q| - 1 ensures TurnsAt(m, q, k, out) {
      if k < |p| - 1 {
        assert TurnsAt(m, p, k, out);
        assert q[..k + 1] == p[..k + 1] && q[k + 1] == p[k + 1];
      } else {
        assert q[..k + 1] == p;
      }
    }
  }

  lemma TargetsAreEdges(m: Model, a: Node)
    ensures forall j | 0 <= j < |Targets(m, a)| :: Edge(m, a, Targets(m, a)[j])
  {
  }

  /** The walk grew from one state to another: it marked only reachable nodes, all closed under
      successors except perhaps `pending`, and listed exactly their identifiable symbols. */
  ghost predicate Grew(m: Model, root: Node, seen0: set<Symbol>, walked0: set<Scope>, out0: seq<Symbol>,
                       seen: set<Symbol>, walked: set<Scope>, out: seq<Symbol>, pending: set<Node>)
  {
    && seen0 <= seen && walked0 <= walked && out0 <= out
    && (forall a, b | Marked(seen, walked, a) && !Marked(seen0, walked0, a) && a !in pending && Edge(m, a, b) ::
          Marked(seen, walked, b))
    && NewReachable(m, root, seen0, walked0, seen, walked)
    && (forall sym :: sym in out <==> sym in out0 || (sym in seen && sym !in seen0 && m.Identifies(sym)))
  }

  /** Marking one reachable node, which is pending until all it declares is marked. */
  lemma GrewByOne(m: Model, root: Node, seen: set<Symbol>, walked: set<Scope>, out: seq<Symbol>, n: Node)
    requires !Marked(seen, walked, n) && Reachable(m, root, n) && forall o | o in out :: o in seen
    ensures Grew(m, root, seen, walked, out, seen, walked, out, {})
    ensures n.C? ==> Grew(m, root, seen, walked, out, seen, walked + {n.scope}, out, {n})
    ensures n.S? ==> Grew(m, root, seen, walked, out, seen + {n.sym}, walked, if m.Identifies(n.sym) then out + [n.sym] else out, {n})
  {
    hide Edge, Reachable, HasQualifiedIdentity;
  }

  lemma GrewNot(m: Model, root: Node, seen: set<Symbol>, walked: set<Scope>, out: seq<Symbol>)
    ensures Grew(m, root, seen, walked, out, seen, walked, out, {})
  {
    hide Edge, Reachable, HasQualifiedIdentity;
  }

  lemma GrewDone(m: Model, root: Node, seen0: set<Symbol>, walked0: set<Scope>, out0: seq<Symbol>,
                 seen: set<Symbol>, walked: set<Scope>, out: seq<Symbol>, n: Node)
    requires Grew(m, root, seen0, walked0, out0, seen, walked, out, {n})
    requires forall b | Edge(m, n, b) :: Marked(seen, walked, b)
    ensures Grew(m, root, seen0, walked0, out0, seen, walked, out, {})
  {
    hide Edge, Reachable, HasQualifiedIdentity;
  }

  class Walk {
    const model: Model
    ghost const symbols: set<Symbol>
    ghost const scopes: set<Scope>
    ghost const root: Node
    var out: seq<Symbol>
    var seen: set<Symbol>
    var walked: set<Scope>

    ghost predicate Valid()
      reads this
    {
      && Within(model, symbols, scopes)
      && seen <= symbols && walked <= scopes
      && Distinct(out) && (forall sym | sym in out :: sym in seen && model.Identifies(sym))
      && (forall sym | sym in seen && S(sym) != root && model.Identifies(sym) :: sym in out)
      && (forall i: nat | i < |out| :: ListedInOrder(model, root, out, i))
    }

    /** The walk stands at the end of `path` from the root: it got there in order and is done with
        everything else it has marked. */
    ghost predicate At(path: seq<Node>)
      reads this
    {
      && IsPath(model, path) && path[0] == root
      && InOrder(model, path, root, out) && Settled(model, seen, walked, path)
    }

    /** Walking on from a path's end leaves the walk there. */
    lemma Back(path: seq<Node>, seen1: set<Symbol>, walked1: set<Scope>, out1: seq<Symbol>)
      requires IsPath(model, path) && path[0] == root
      requires InOrder(model, path, root, out1) && Settled(model, seen1, walked1, path)
      requires GrewBut(seen1, walked1, out1, {})
      ensures At(path)
    {
      hide InOrder;
      InOrderKept(model, path, root, out1, out);
    }

    /** One step down, to the j-th target. */
    lemma Down(path: seq<Node>, j: nat)
      requires Valid() && At(path) && j < |Targets(model, path[|path| - 1])|
      requires AllMarked(seen, walked, Targets(model, path[|path| - 1])[..j])
      ensures var b := Targets(model, path[|path| - 1])[j];
        && Edge(model, path[|path| - 1], b) && Turn(model, path, b, out)
        && (b.C? ==> At(path + [b]))
    {
      hide InOrder, Targets, Turn, ListedInOrder;
      var b := Targets(model, path[|path| - 1])[j];
      TurnAt(model, path, j, root, seen, walked, out);
      TargetsAreEdges(model, path[|path| - 1]);
      if b.C? {
        Extend(model, path, b);
        InOrderOn(model, path, b, root, out);
      }
    }

    constructor (model: Model, ghost symbols: set<Symbol>, ghost scopes: set<Scope>, ghost root: Node, seen: set<Symbol>)
      requires Within(model, symbols, scopes) && seen <= symbols && forall sym | sym in seen :: S(sym) == root
      ensures Valid() && this.model == model && this.symbols == symbols && this.scopes == scopes && this.root == root
      ensures this.seen == seen && walked == {} && out == []
    {
      this.model, this.symbols, this.scopes, this.root := model, symbols, scopes, root;
      this.out, this.seen, walked := [], seen, {};
    }

    /** What the walk has added since (seen0, walked0, out0). */
    ghost predicate GrewBut(seen0: set<Symbol>, walked0: set<Scope>, out0: seq<Symbol>, pending: set<Node>)
      reads this
    {
      Grew(model, root, seen0, walked0, out0, seen, walked, out, pending)
    }

    /** scope: a scope's members, then the scopes inside it. */
    method WalkScope(s: Scope, ghost path: seq<Node>)
      requires Valid() && s in scopes && At(path) && path[|path| - 1] == C(s)
      modifies this
      ensures Valid() && GrewBut(old(seen), old(walked), old(out), {})
      ensures s in walked
      decreases symbols - seen, scopes - walked, 1
    {
      hide InOrder, Turn, ListedInOrder, Reachable, Targets, AllMarked, Edge, Settled, HasQualifiedIdentity, Grew;
      GrewNot(model, root, seen, walked, out);
      if s in walked {
        return;
      }
      ReachedBy(model, path);
      GrewByOne(model, root, seen, walked, out, C(s));
      SettledMore(model, seen, walked, path);
      walked := walked + {s};
      var declared := model.Declared(s);
      var children := model.Children(s);
      ghost var targets := Targets(model, C(s));
      ScopeTargets(model, s);
      NoneToMark(seen, walked, targets);
      for i := 0 to |declared|
        invariant Valid() && At(path) && GrewBut(old(seen), old(walked), old(out), {C(s)}) && old(seen) <= seen && old(walked) <= walked
        invariant s in walked && AllMarked(seen, walked, targets[..i])
      {
        ghost var seen1, walked1, out1 := seen, walked, out;
        Down(path, i);
        Visit(declared[i], path);
        Back(path, seen1, walked1, out1);
        GrewOn(old(seen), old(walked), old(out), seen1, walked1, out1, {C(s)});
        MarkedNext(seen1, walked1, seen, walked, targets, i);
      }
      for i := 0 to |children|
        invariant Valid() && At(path) && GrewBut(old(seen), old(walked), old(out), {C(s)}) && old(seen) <= seen && old(walked) <= walked
        invariant s in walked && AllMarked(seen, walked, targets[..|declared| + i])
      {
        ghost var seen1, walked1, out1 := seen, walked, out;
        Down(path, |declared| + i);
        WalkScope(children[i], path + [C(children[i])]);
        Back(path, seen1, walked1, out1);
        GrewOn(old(seen), old(walked), old(out), seen1, walked1, out1, {C(s)});
        MarkedNext(seen1, walked1, seen, walked, targets, |declared| + i);
      }
      MarkedAll(model, C(s), seen, walked);
      GrewDone(model, root, old(seen), old(walked), old(out), seen, walked, out, C(s));
    }

    /** Two growths in a row are one. */
    lemma GrewOn(seen0: set<Symbol>, walked0: set<Scope>, out0: seq<Symbol>,
                 seen1: set<Symbol>, walked1: set<Scope>, out1: seq<Symbol>, pending: set<Node>)
      requires Grew(model, root, seen0, walked0, out0, seen1, walked1, out1, pending)
      requires GrewBut(seen1, walked1, out1, {})
      ensures GrewBut(seen0, walked0, out0, pending)
      ensures seen1 <= seen && walked1 <= walked && out1 <= out
    {
      hide Edge, Reachable, HasQualifiedIdentity;
    }

    /** visit: an element, then what it declares. */
    method Visit(sym: Symbol, ghost path: seq<Node>)
      requires Valid() && sym in symbols && At(path)
      requires Edge(model, path[|path| - 1], S(sym)) && Turn(model, path, S(sym), out)
      modifies this
      ensures Valid() && GrewBut(old(seen), old(walked), old(out), {})
      ensures sym in seen
      decreases symbols - seen, scopes - walked, 1
    {
      hide InOrder, Turn, ListedInOrder, Reachable, Settled, Edge, HasQualifiedIdentity, Grew;
      GrewNot(model, root, seen, walked, out);
      if sym in seen {
        return;
      }
      SettledMore(model, seen, walked, path);
      ghost var on := path + [S(sym)];
      Extend(model, path, S(sym));
      ReachedBy(model, on);
      GrewByOne(model, root, seen, walked, out, S(sym));
      seen := seen + {sym};
      if model.Identifies(sym) {
        List(sym, path);
      }
      ghost var seen1, walked1, out1 := seen, walked, out;
      InOrderKept(model, path, root, old(out), out);
      TurnKept(model, path, S(sym), old(out), out);
      InOrderOn(model, path, S(sym), root, out);
      Members(sym, on);
      GrewOn(old(seen), old(walked), old(out), seen1, walked1, out1, {S(sym)});
      GrewDone(model, root, old(seen), old(walked), old(out), seen, walked, out, S(sym));
    }

    method List(sym: Symbol, ghost path: seq<Node>)
      requires Within(model, symbols, scopes) && seen <= symbols && walked <= scopes && sym in seen && sym !in out && model.Identifies(sym)
      requires Distinct(out) && (forall o | o in out :: o in seen && model.Identifies(o))
      requires forall o | o in seen && S(o) != root && model.Identifies(o) && o != sym :: o in out
      requires forall i: nat | i < |out| :: ListedInOrder(model, root, out, i)
      requires IsPath(model, path) && path[0] == root && InOrder(model, path, root, out) && Turn(model, path, S(sym), out)
      modifies this`out
      ensures Valid() && out == old(out) + [sym]
    {
      hide InOrder, Turn;
      out := out + [sym];
      forall i: nat | i < |out| ensures ListedInOrder(model, root, out, i) {
        if i < |old(out)| {
          assert ListedInOrder(model, root, old(out), i);
          assert out[..i] == old(out)[..i] && out[i] == old(out)[i];
        } else {
          assert out[..i] == old(out);
          assert PathFromTo(model, path, root, path[|path| - 1]);
        }
      }
    }

    /** members: what an element declares, through its scope or through the index. */
    method Members(sym: Symbol, ghost path: seq<Node>)
      requires Valid() && sym in seen && At(path) && path[|path| - 1] == S(sym)
      modifies this
      ensures Valid() && GrewBut(old(seen), old(walked), old(out), {})
      ensures forall b | Edge(model, S(sym), b) :: Marked(seen, walked, b)
      decreases symbols - seen, scopes - walked, 2
    {
      hide InOrder, Turn, ListedInOrder, Reachable, Settled, Edge, HasQualifiedIdentity, Grew, Targets, AllMarked;
      GrewNot(model, root, seen, walked, out);
      ghost var targets := Targets(model, S(sym));
      SymbolTargets(model, sym);
      NoneToMark(seen, walked, targets);
      if sym in model.owned {
        Down(path, 0);
        WalkScope(model.owned[sym], path + [C(model.owned[sym])]);
        OnlyTarget(model, sym, seen, walked);
        return;
      }
      var indexed := model.Indexed(sym);
      for i := 0 to |indexed|
        invariant Valid() && At(path) && GrewBut(old(seen), old(walked), old(out), {}) && old(seen) <= seen && old(walked) <= walked
        invariant AllMarked(seen, walked, targets[..i])
      {
        ghost var seen1, walked1, out1 := seen, walked, out;
        Down(path, i);
        Visit(indexed[i], path);
        Back(path, seen1, walked1, out1);
        GrewOn(old(seen), old(walked), old(out), seen1, walked1, out1, {});
        MarkedNext(seen1, walked1, seen, walked, targets, i);
      }
      MarkedAll(model, S(sym), seen, walked);
    }
  }

  lemma ReachedBy(m: Model, path: seq<Node>)
    requires IsPath(m, path)
    ensures Reachable(m, path[0], path[|path| - 1])
  {
    assert PathFromTo(m, path, path[0], path[|path| - 1]);
  }

  lemma ScopeTargets(m: Model, s: Scope)
    ensures var targets := Targets(m, C(s));
      && |targets| == |m.Declared(s)| + |m.Children(s)|
      && (forall i | 0 <= i < |m.Declared(s)| :: targets[i] == S(m.Declared(s)[i]))
      && (forall i | 0 <= i < |m.Children(s)| :: targets[|m.Declared(s)| + i] == C(m.Children(s)[i]))
      && (forall i | |m.Declared(s)| <= i < |targets| :: targets[i] == C(m.Children(s)[i - |m.Declared(s)|]))
  {
  }

  lemma OnlyTarget(m: Model, sym: Symbol, seen: set<Symbol>, walked: set<Scope>)
    requires sym in m.owned && m.owned[sym] in walked
    ensures forall b | Edge(m, S(sym), b) :: Marked(seen, walked, b)
  {
  }

  lemma SymbolTargets(m: Model, sym: Symbol)
    ensures var targets := Targets(m, S(sym));
      if sym in m.owned then targets == [C(m.owned[sym])]
      else |targets| == |m.Indexed(sym)| && forall i | 0 <= i < |targets| :: targets[i] == S(m.Indexed(sym)[i])
  {
  }

  // ----- What the walk lists -----

  /** A fresh walk that has marked what its root leads to, closed, has listed exactly the identifiable
      symbols reachable from it. */
  lemma WalkExact(m: Model, root: Node, out: seq<Symbol>, seen: set<Symbol>, walked: set<Scope>)
    requires forall b | Marked(seen, walked, b) :: b == root || Reachable(m, root, b)
    requires forall b | Edge(m, root, b) :: Marked(seen, walked, b)
    requires forall a, b | Marked(seen, walked, a) && a != root && Edge(m, a, b) :: Marked(seen, walked, b)
    ensures forall sym | S(sym) != root :: sym in seen <==> Reachable(m, root, S(sym))
  {
    forall sym | S(sym) != root ensures sym in seen <==> Reachable(m, root, S(sym)) {
      if p :| PathFromTo(m, p, root, S(sym)) {
        var more, further := seen, walked;
        match root {
          case S(r) => more := seen + {r};
          case C(r) => further := walked + {r};
        }
        forall a, b | Marked(more, further, a) && Edge(m, a, b) ensures Marked(more, further, b) {
          assert a == root || Marked(seen, walked, a);
          assert Marked(seen, walked, b);
        }
        ClosedContainsPath(m, p, more, further);
      } else if sym in seen {
        assert Marked(seen, walked, S(sym));
      }
    }
  }

  /** What a listing from a root is: the identifiable symbols reachable from it, the root apart, once
      each and in declaration order. */
  ghost predicate Enumerates(m: Model, root: Node, out: seq<Symbol>) {
    && Distinct(out)
    && (forall sym :: sym in out <==> S(sym) != root && m.Identifies(sym) && Reachable(m, root, S(sym)))
    && (forall i: nat | i < |out| :: ListedInOrder(m, root, out, i))
  }

  /** collect: what a scope leads to. */
  method Collect(m: Model, ghost symbols: set<Symbol>, ghost scopes: set<Scope>, s: Scope) returns (out: seq<Symbol>)
    requires Within(m, symbols, scopes) && s in scopes
    ensures Enumerates(m, C(s), out)
  {
    var w := new Walk(m, symbols, scopes, C(s), {});
    assert w.At([C(s)]);
    w.WalkScope(s, [C(s)]);
    WalkExact(m, C(s), w.out, w.seen, w.walked);
    out := w.out;
  }

  /** nested: what an element leads to. */
  method Nested(m: Model, ghost symbols: set<Symbol>, ghost scopes: set<Scope>, sym: Symbol) returns (out: seq<Symbol>)
    requires Within(m, symbols, scopes) && sym in symbols
    ensures Enumerates(m, S(sym), out)
  {
    var w := new Walk(m, symbols, scopes, S(sym), {sym});
    assert w.At([S(sym)]);
    w.Members(sym, [S(sym)]);
    WalkExact(m, S(sym), w.out, w.seen, w.walked);
    out := w.out;
  }

  // ----- The candidates of a query -----

  datatype Candidates = Found(symbols: seq<Symbol>) | UnknownScope(fqn: string)

  /** A scope name selects the elements it names and everything nested in them. */
  ghost predicate Selected(m: Model, fqn: string, sym: Symbol) {
    exists r | r in Get(m.qualified, fqn) :: sym == r || (m.Identifies(sym) && Reachable(m, S(r), S(sym)))
  }

  /** The elements a scope names, in order. */
  function AllRoots(m: Model, scope: seq<string>): seq<Symbol> {
    if scope == [] then [] else AllRoots(m, scope[..|scope| - 1]) + Get(m.qualified, scope[|scope| - 1])
  }

  /** Those of xs that are not there yet, in order. */
  function NewOnes(have: seq<Symbol>, xs: seq<Symbol>): seq<Symbol> {
    if xs == [] then []
    else
      var n := |xs| - 1;
      NewOnes(have, xs[..n]) + (if xs[n] in have then [] else [xs[n]])
  }

  /** A root already there adds nothing; another adds itself, then what it enumerates that is new. */
  ghost predicate Adds(m: Model, before: seq<Symbol>, root: Symbol, nested: seq<Symbol>, out: seq<Symbol>) {
    if root in before then out == before
    else Enumerates(m, S(root), nested) && out == before + [root] + NewOnes(before + [root], nested)
  }

  /** The roots' elements, one root after the other. */
  ghost predicate Gathered(m: Model, roots: seq<Symbol>, out: seq<Symbol>)
    decreases |roots|, 0
  {
    if roots == [] then out == [] else GatheredWith(m, roots[..|roots| - 1], roots[|roots| - 1], out)
  }

  ghost predicate GatheredWith(m: Model, roots: seq<Symbol>, root: Symbol, out: seq<Symbol>)
    decreases |roots|, 1
  {
    exists before, nested :: Gathered(m, roots, before) && Adds(m, before, root, nested, out)
  }

  method QueryCandidates(m: Model, ghost symbols: set<Symbol>, ghost scopes: set<Scope>,
                         documentRoot: Option<Scope>, scope: seq<string>)
    returns (r: Candidates)
    requires Within(m, symbols, scopes) && (documentRoot.Some? ==> documentRoot.value in scopes)
    requires forall f, sym | sym in Get(m.qualified, f) :: sym in symbols
    ensures scope == [] && documentRoot.None? ==> r == Found([])
    ensures scope == [] && documentRoot.Some? ==> r.Found? && Enumerates(m, C(documentRoot.value), r.symbols)
    ensures scope != [] ==> (r.UnknownScope? <==> exists f | f in scope :: Get(m.qualified, f) == [])
    ensures scope != [] && r.Found? ==> Gathered(m, AllRoots(m, scope), r.symbols)
    ensures r.UnknownScope? ==> exists i: nat :: FirstUnknown(m, scope, i) && r.fqn == scope[i]
  {
    if |scope| == 0 {
      if documentRoot.None? {
        return Found([]);
      }
      var all := Collect(m, symbols, scopes, documentRoot.value);
      return Found(all);
    }
    hide Enumerates, Gathered, AllRoots, NewOnes, Within;
    var out: seq<Symbol> := [];
    var seen: set<Symbol> := {};
    NothingYet(m);
    for i := 0 to |scope|
      invariant (forall sym :: sym in seen <==> sym in out) && Gathered(m, AllRoots(m, scope[..i]), out)
      invariant forall f | f in scope[..i] :: Get(m.qualified, f) != []
    {
      var fqn := scope[i];
      var roots := Get(m.qualified, fqn);
      OneMoreScope(m, scope, i);
      if |roots| == 0 {
        assert FirstUnknown(m, scope, i);
        return UnknownScope(fqn);
      }
      ghost var earlier := AllRoots(m, scope[..i]);
      assert earlier + roots[..0] == earlier;
      for j := 0 to |roots|
        invariant (forall sym :: sym in seen <==> sym in out) && Gathered(m, earlier + roots[..j], out)
      {
        OneMoreRoot(earlier, roots, j);
        var root := roots[j];
        if root in seen {
          GatherNext(m, earlier + roots[..j], root, out, [], out);
          continue;
        }
        var nested := Nested(m, symbols, scopes, root);
        out, seen := AddRoot(m, out, seen, root, nested, earlier + roots[..j]);
      }
      assert roots[..|roots|] == roots;
    }
    assert scope[..|scope|] == scope;
    r := Found(out);
  }

  /** candidates' innermost loop: a new root and what is nested in it. */
  method AddRoot(m: Model, before: seq<Symbol>, had: set<Symbol>, root: Symbol, nested: seq<Symbol>, ghost roots: seq<Symbol>)
    returns (out: seq<Symbol>, seen: set<Symbol>)
    requires (forall sym :: sym in had <==> sym in before) && root !in had
    requires Enumerates(m, S(root), nested) && Gathered(m, roots, before)
    ensures (forall sym :: sym in seen <==> sym in out) && Gathered(m, roots + [root], out)
  {
    hide ListedInOrder, Reachable, Gathered, NewOnes;
    seen, out := had + {root}, before + [root];
    ghost var start := out;
    NoNewOnes(start);
    for k := 0 to |nested|
      invariant forall sym :: sym in seen <==> sym in out
      invariant out == start + NewOnes(start, nested[..k])
    {
      NewOnesNext(start, nested, k);
      NewOnesMembers(start, nested[..k]);
      if nested[k] !in seen {
        seen, out := seen + {nested[k]}, out + [nested[k]];
      }
    }
    assert nested[..|nested|] == nested;
    GatherNext(m, roots, root, before, nested, out);
  }

  lemma NoNewOnes(have: seq<Symbol>)
    ensures NewOnes(have, []) == [] && have + [] == have
  {
  }

  lemma NewOnesNext(have: seq<Symbol>, xs: seq<Symbol>, k: nat)
    requires k < |xs|
    ensures NewOnes(have, xs[..k + 1]) == if xs[k] in have then NewOnes(have, xs[..k]) else NewOnes(have, xs[..k]) + [xs[k]]
  {
    assert xs[..k + 1][..k] == xs[..k];
  }

  lemma {:induction false} NewOnesMembers(have: seq<Symbol>, xs: seq<Symbol>)
    ensures forall x :: x in NewOnes(have, xs) <==> x in xs && x !in have
    ensures Distinct(xs) ==> Distinct(NewOnes(have, xs))
  {
    if xs != [] {
      var n := |xs| - 1;
      NewOnesMembers(have, xs[..n]);
      assert xs == xs[..n] + [xs[n]];
    }
  }

  lemma GatherNext(m: Model, roots: seq<Symbol>, root: Symbol, before: seq<Symbol>, nested: seq<Symbol>, out: seq<Symbol>)
    requires Gathered(m, roots, before) && Adds(m, before, root, nested, out)
    ensures Gathered(m, roots + [root], out)
  {
    hide Adds;
    assert (roots + [root])[..|roots|] == roots;
  }

  lemma OneMoreScope(m: Model, scope: seq<string>, i: nat)
    requires i < |scope|
    ensures AllRoots(m, scope[..i + 1]) == AllRoots(m, scope[..i]) + Get(m.qualified, scope[i])
    ensures forall f :: f in scope[..i + 1] <==> f in scope[..i] || f == scope[i]
  {
    assert scope[..i + 1] == scope[..i] + [scope[i]];
  }

  lemma NothingYet(m: Model)
    ensures AllRoots(m, []) == [] && Gathered(m, [], [])
  {
  }

  lemma OneMoreRoot(earlier: seq<Symbol>, roots: seq<Symbol>, j: nat)
    requires j < |roots|
    ensures earlier + roots[..j + 1] == earlier + roots[..j] + [roots[j]]
  {
  }

  /** What is gathered is, without duplicates, exactly what the roots select. */
  lemma {:induction false} GatheredMeaning(m: Model, roots: seq<Symbol>, out: seq<Symbol>)
    requires Gathered(m, roots, out)
    ensures Distinct(out) && NestedClosed(m, out)
    ensures forall sym :: sym in out <==> SelectedBy(m, roots, sym)
  {
    hide NestedClosed, Enumerates, SelectedBy, Distinct;
    if roots == [] {
      NoRoots(m);
      assert Distinct(out) by { NoRepeats(); }
    } else {
      var n := |roots| - 1;
      var before, nested :| Gathered(m, roots[..n], before) && Adds(m, before, roots[n], nested, out);
      GatheredMeaning(m, roots[..n], before);
      RootsNext(m, roots);
      if roots[n] in before {
        RootListed(m, before, roots[n]);
      } else {
        NewOnesMembers(before + [roots[n]], nested);
        DistinctJoin(before, roots[n], nested, m);
        WithRoot(m, before, roots[n], nested, out);
      }
    }
  }

  lemma NoRepeats()
    ensures Distinct<Symbol>([])
  {
  }

  lemma DistinctJoin(before: seq<Symbol>, root: Symbol, nested: seq<Symbol>, m: Model)
    requires Distinct(before) && root !in before && Enumerates(m, S(root), nested)
    ensures Distinct(before + [root] + NewOnes(before + [root], nested))
  {
    hide NewOnes;
    NewOnesMembers(before + [root], nested);
    DistinctConcat(before, [root]);
    DistinctConcat(before + [root], NewOnes(before + [root], nested));
  }

  lemma DistinctConcat(a: seq<Symbol>, b: seq<Symbol>)
    requires Distinct(a) && Distinct(b) && forall x | x in b :: x !in a
    ensures Distinct(a + b)
  {
    forall i, j | 0 <= i < j < |a + b| ensures (a + b)[i] != (a + b)[j] {
      if i < |a| <= j {
        assert b[j - |a|] in b;
      }
    }
  }

  /** A query's candidates are the duplicate-free union over the elements its scope names. */
  lemma CandidatesMeaning(m: Model, scope: seq<string>, out: seq<Symbol>)
    requires Gathered(m, AllRoots(m, scope), out)
    ensures Distinct(out) && forall sym :: sym in out <==> exists f | f in scope :: Selected(m, f, sym)
  {
    hide Gathered, Distinct, NestedClosed, AllRoots, Reachable;
    GatheredMeaning(m, AllRoots(m, scope), out);
    RootsOfScope(m, scope);
  }

  lemma {:induction false} RootsOfScope(m: Model, scope: seq<string>)
    ensures forall r :: r in AllRoots(m, scope) <==> exists f | f in scope :: r in Get(m.qualified, f)
  {
    if scope != [] {
      var n := |scope| - 1;
      RootsOfScope(m, scope[..n]);
      assert scope == scope[..n] + [scope[n]];
    }
  }

  lemma NoRoots(m: Model)
    ensures (forall sym :: !SelectedBy(m, [], sym)) && NestedClosed(m, [])
  {
  }

  /** A root already listed adds nothing. */
  lemma RootListed(m: Model, out: seq<Symbol>, root: Symbol)
    requires NestedClosed(m, out) && root in out
    ensures forall sym :: SelectedBy(m, [root], sym) ==> sym in out
  {
  }

  /** Everything identifiable that is reachable from a listed symbol is listed. */
  ghost predicate NestedClosed(m: Model, out: seq<Symbol>) {
    forall a, sym | a in out && m.Identifies(sym) && Reachable(m, S(a), S(sym)) :: sym in out
  }

  lemma ReachableTransitive(m: Model, a: Node, b: Node, c: Node)
    requires Reachable(m, a, b) && Reachable(m, b, c)
    ensures Reachable(m, a, c)
  {
    var p :| PathFromTo(m, p, a, b);
    var q :| PathFromTo(m, q, b, c);
    var joined := p + q[1..];
    forall i | 0 <= i < |joined| - 1 ensures Edge(m, joined[i], joined[i + 1]) {
      if i < |p| - 1 {
        assert Edge(m, p[i], p[i + 1]);
      } else {
        assert joined[i] == q[i - |p| + 1] && joined[i + 1] == q[i - |p| + 2];
      }
    }
    assert PathFromTo(m, joined, a, c);
  }

  /** Adding a root and what it enumerates to a closed list keeps it closed, and adds exactly what the
      root selects. */
  lemma WithRoot(m: Model, before: seq<Symbol>, root: Symbol, nested: seq<Symbol>, after: seq<Symbol>)
    requires NestedClosed(m, before) && Enumerates(m, S(root), nested)
    requires forall sym :: sym in after <==> sym in before || sym == root || sym in nested
    ensures NestedClosed(m, after)
    ensures forall sym :: sym in after <==> sym in before || SelectedBy(m, [root], sym)
  {
    assert root in [root];
    forall a, sym | a in after && m.Identifies(sym) && Reachable(m, S(a), S(sym)) ensures sym in after {
      if a in nested {
        ReachableTransitive(m, S(root), S(a), S(sym));
      }
    }
  }

  lemma RootsNext(m: Model, roots: seq<Symbol>)
    requires roots != []
    ensures var n := |roots| - 1;
      forall sym :: SelectedBy(m, roots, sym) <==> SelectedBy(m, roots[..n], sym) || SelectedBy(m, [roots[n]], sym)
  {
    assert roots == roots[..|roots| - 1] + [roots[|roots| - 1]];
  }

  ghost predicate FirstUnknown(m: Model, scope: seq<string>, i: nat) {
    i < |scope| && Get(m.qualified, scope[i]) == [] && forall j | 0 <= j < i :: Get(m.qualified, scope[j]) != []
  }

  ghost predicate SelectedBy(m: Model, roots: seq<Symbol>, sym: Symbol) {
    exists r | r in roots :: sym == r || (m.Identifies(sym) && Reachable(m, S(r), S(sym)))
  }

  // ----- The order of the candidates -----

  /** x stands in the list, and no y up to there. */
  ghost predicate Sooner(all: seq<Symbol>, x: Symbol, y: Symbol) {
    exists i: nat :: i < |all| && all[i] == x && y !in all[..i]
  }

  /** The elements of `all`, each once, in the order in which they first occur there. */
  ghost predicate FirstOccurrences(out: seq<Symbol>, all: seq<Symbol>) {
    && Distinct(out) && (forall x :: x in out <==> x in all)
    && forall i, j | 0 <= i < j < |out| :: Sooner(all, out[i], out[j])
  }

  /** The roots, each followed by what is listed for it. */
  function Flat(roots: seq<Symbol>, lists: seq<seq<Symbol>>): seq<Symbol>
    requires |roots| == |lists|
  {
    if roots == [] then []
    else
      var n := |roots| - 1;
      Flat(roots[..n], lists[..n]) + [roots[n]] + lists[n]
  }

  /** The i-th root comes with what it enumerates, or with nothing when it was listed before. */
  ghost predicate Expands(m: Model, roots: seq<Symbol>, lists: seq<seq<Symbol>>, i: nat) {
    i < |roots| == |lists| && (Enumerates(m, S(roots[i]), lists[i]) || (lists[i] == [] && roots[i] in Flat(roots[..i], lists[..i])))
  }

  lemma SoonerOn(all: seq<Symbol>, more: seq<Symbol>, x: Symbol, y: Symbol)
    requires Sooner(all, x, y)
    ensures Sooner(all + more, x, y)
  {
    var i: nat :| i < |all| && all[i] == x && y !in all[..i];
    assert (all + more)[i] == x && (all + more)[..i] == all[..i];
  }

  lemma FirstMore(out: seq<Symbol>, all: seq<Symbol>, x: Symbol)
    requires FirstOccurrences(out, all)
    ensures FirstOccurrences(if x in out then out else out + [x], all + [x])
  {
    hide Sooner;
    var next := if x in out then out else out + [x];
    forall i, j | 0 <= i < j < |next| ensures Sooner(all + [x], next[i], next[j]) {
      if j < |out| {
        SoonerOn(all, [x], next[i], next[j]);
      } else {
        assert next[i] in out;
        SoonerThanNew(all, next[i], x);
      }
    }
  }

  lemma SoonerThanNew(all: seq<Symbol>, x: Symbol, y: Symbol)
    requires x in all && y !in all
    ensures Sooner(all + [y], x, y)
  {
    var i: nat :| i < |all| && all[i] == x;
    assert (all + [y])[i] == x && (all + [y])[..i] == all[..i];
  }

  lemma {:induction false} FirstMany(out: seq<Symbol>, all: seq<Symbol>, xs: seq<Symbol>)
    requires FirstOccurrences(out, all) && Distinct(xs)
    ensures FirstOccurrences(out + NewOnes(out, xs), all + xs)
  {
    hide FirstOccurrences, NewOnes;
    if xs == [] {
      NoNewOnes(out);
      assert all + [] == all;
    } else {
      var n := |xs| - 1;
      var before := NewOnes(out, xs[..n]);
      FirstMany(out, all, xs[..n]);
      FirstMore(out + before, all + xs[..n], xs[n]);
      NewOnesMembers(out, xs[..n]);
      NewOnesNext(out, xs, n);
      assert xs[..n + 1] == xs;
      assert xs[n] !in xs[..n];
      assert (all + xs[..n]) + [xs[n]] == all + xs;
      assert (out + before) + [xs[n]] == out + (before + [xs[n]]);
    }
  }

  lemma NothingFirst()
    ensures FirstOccurrences([], [])
  {
  }

  lemma FirstMembers(out: seq<Symbol>, all: seq<Symbol>)
    requires FirstOccurrences(out, all)
    ensures forall x :: x in out <==> x in all
  {
  }

  /** One more root, with what is listed for it. */
  lemma FirstRoot(m: Model, roots: seq<Symbol>, lists: seq<seq<Symbol>>, before: seq<Symbol>, root: Symbol, nested: seq<Symbol>, out: seq<Symbol>)
    returns (list: seq<Symbol>)
    requires |roots| == |lists| && FirstOccurrences(before, Flat(roots, lists)) && Adds(m, before, root, nested, out)
    ensures FirstOccurrences(out, Flat(roots, lists) + [root] + list)
    ensures Enumerates(m, S(root), list) || (list == [] && root in Flat(roots, lists))
  {
    hide FirstOccurrences, NewOnes, Flat, Reachable, ListedInOrder;
    var all := Flat(roots, lists);
    FirstMore(before, all, root);
    FirstMembers(before, all);
    if root in before {
      list := [];
      assert all + [root] + [] == all + [root];
    } else {
      list := nested;
      FirstMany(before + [root], all + [root], nested);
    }
  }

  lemma {:induction false} GatheredInOrder(m: Model, roots: seq<Symbol>, out: seq<Symbol>) returns (lists: seq<seq<Symbol>>)
    requires Gathered(m, roots, out)
    ensures |lists| == |roots| && (forall i: nat | i < |roots| :: Expands(m, roots, lists, i))
    ensures FirstOccurrences(out, Flat(roots, lists))
  {
    hide FirstOccurrences, Enumerates, Adds;
    if roots == [] {
      lists := [];
      NothingFirst();
    } else {
      var n := |roots| - 1;
      var before, nested :| Gathered(m, roots[..n], before) && Adds(m, before, roots[n], nested, out);
      var earlier := GatheredInOrder(m, roots[..n], before);
      var list := FirstRoot(m, roots[..n], earlier, before, roots[n], nested, out);
      lists := earlier + [list];
      assert lists[..n] == earlier;
      forall i: nat | i < |roots| ensures Expands(m, roots, lists, i) {
        if i < n {
          assert Expands(m, roots[..n], earlier, i);
          assert roots[..n][..i] == roots[..i] && earlier[..i] == lists[..i];
        }
      }
    }
  }

  /** A query's candidates come in the order in which they first occur when the scope names' elements
      are written down one after the other, each followed by what is nested in it. */
  lemma CandidatesInOrder(m: Model, scope: seq<string>, out: seq<Symbol>) returns (lists: seq<seq<Symbol>>)
    requires Gathered(m, AllRoots(m, scope), out)
    ensures var roots := AllRoots(m, scope);
      && |lists| == |roots| && (forall i: nat | i < |roots| :: Expands(m, roots, lists, i))
      && FirstOccurrences(out, Flat(roots, lists))
  {
    lists := GatheredInOrder(m, AllRoots(m, scope), out);
  }
}
