/** The memoising path analyzer (cmd/grammar-coverage/classify.go).

    The analyzer caches a production's path sets only when no recursive path was dropped while
    computing them. The proof shows what that guard achieves: a cached production neither lies on nor
    reaches a cycle of required calls, so its path sets do not depend on which productions were being
    expanded, and every call answers what the memo-free analysis answers. */
module Analysis {
  import opened Masks
  import opened PathSets
  import opened Grammar
  import opened Paths

  // ----- Productions that reach no cycle -----

  /** All required calls of e unfold within n levels. Optional parts are not entered. */
  ghost predicate Unfolds(r: Rules, n: nat, grammar: string, e: Expr)
    decreases n, e
  {
    match e
    case Ref(name) =>
      (match r.Lookup(grammar, name)
       case None => true
       case Some(k) => n > 0 && Unfolds(r, n - 1, k.grammar, r.Body(k)))
    case Seq(items) => forall i | i in items :: Unfolds(r, n, grammar, i)
    case Alt(items) => forall i | i in items :: Unfolds(r, n, grammar, i)
    case _ => true
  }

  ghost predicate KeyUnfolds(r: Rules, n: nat, k: Key) {
    k in r.productions && Unfolds(r, n, k.grammar, r.Body(k))
  }

  /** No required call inside e leads into a cycle. */
  ghost predicate Acyclic(r: Rules, grammar: string, e: Expr) {
    exists n: nat :: Unfolds(r, n, grammar, e)
  }

  ghost predicate AcyclicKey(r: Rules, k: Key) {
    exists n: nat :: KeyUnfolds(r, n, k)
  }

  lemma {:induction false} UnfoldsMonotone(r: Rules, n: nat, m: nat, grammar: string, e: Expr)
    requires n <= m && Unfolds(r, n, grammar, e)
    ensures Unfolds(r, m, grammar, e)
    decreases n, e
  {
    match e {
      case Ref(name) =>
        match r.Lookup(grammar, name) {
          case None =>
          case Some(k) => UnfoldsMonotone(r, n - 1, m - 1, k.grammar, r.Body(k));
        }
      case Seq(items) => forall i | i in items { UnfoldsMonotone(r, n, m, grammar, i); }
      case Alt(items) => forall i | i in items { UnfoldsMonotone(r, n, m, grammar, i); }
      case _ =>
    }
  }

  /** The least depth at which k unfolds. */
  lemma {:induction false} Least(r: Rules, n: nat, k: Key) returns (least: nat)
    requires KeyUnfolds(r, n, k)
    ensures least <= n && KeyUnfolds(r, least, k)
    ensures least > 0 ==> !KeyUnfolds(r, least - 1, k)
  {
    if n > 0 && KeyUnfolds(r, n - 1, k) {
      least := Least(r, n - 1, k);
    } else {
      least := n;
    }
  }

  /** No production of `active` unfolds within n levels. */
  ghost predicate Deeper(r: Rules, active: set<Key>, n: nat) {
    forall a | a in active :: !KeyUnfolds(r, n, a)
  }

  lemma DeeperMonotone(r: Rules, active: set<Key>, n: nat, m: nat)
    requires Deeper(r, active, m) && n <= m
    ensures Deeper(r, active, n)
  {
    forall a | a in active ensures !KeyUnfolds(r, n, a) {
      if KeyUnfolds(r, n, a) { UnfoldsMonotone(r, n, m, a.grammar, r.Body(a)); }
    }
  }

  /** What an expression that unfolds requires does not depend on what is being expanded around it. */
  lemma {:induction false} PathsIndependent(r: Rules, n: nat, a: set<Key>, b: set<Key>, grammar: string, e: Expr)
    requires r.Valid() && Unfolds(r, n, grammar, e)
    requires n > 0 ==> Deeper(r, a, n - 1) && Deeper(r, b, n - 1)
    ensures ExprPaths(r, a, grammar, e) == ExprPaths(r, b, grammar, e)
    decreases n, e
  {
    match e {
      case Ref(name) =>
        match r.Lookup(grammar, name) {
          case None =>
          case Some(k) =>
            assert KeyUnfolds(r, n - 1, k);
            KeyPathsIndependent(r, n - 1, a, b, k);
        }
      case Seq(items) => SeqPathsIndependent(r, n, a, b, grammar, items);
      case Alt(items) => AltPathsIndependent(r, n, a, b, grammar, items);
      case _ =>
    }
  }

  lemma {:induction false} KeyPathsIndependent(r: Rules, n: nat, a: set<Key>, b: set<Key>, k: Key)
    requires r.Valid() && KeyUnfolds(r, n, k)
    requires Deeper(r, a, n) && Deeper(r, b, n)
    ensures k !in a && k !in b && PathsOf(r, a, k) == PathsOf(r, b, k)
    decreases n
  {
    var least := Least(r, n, k);
    if least > 0 {
      DeeperMonotone(r, a, least - 1, n);
      DeeperMonotone(r, b, least - 1, n);
    }
    PathsIndependent(r, least, a + {k}, b + {k}, k.grammar, r.Body(k));
  }

  lemma {:induction false} SeqPathsIndependent(r: Rules, n: nat, a: set<Key>, b: set<Key>, grammar: string, items: seq<Expr>)
    requires r.Valid() && forall i | i in items :: Unfolds(r, n, grammar, i)
    requires n > 0 ==> Deeper(r, a, n - 1) && Deeper(r, b, n - 1)
    ensures SeqPaths(r, a, grammar, items) == SeqPaths(r, b, grammar, items)
    decreases n, items
  {
    if items != [] {
      var last := |items| - 1;
      SeqPathsIndependent(r, n, a, b, grammar, items[..last]);
      PathsIndependent(r, n, a, b, grammar, items[last]);
    }
  }

  lemma {:induction false} AltPathsIndependent(r: Rules, n: nat, a: set<Key>, b: set<Key>, grammar: string, items: seq<Expr>)
    requires r.Valid() && forall i | i in items :: Unfolds(r, n, grammar, i)
    requires n > 0 ==> Deeper(r, a, n - 1) && Deeper(r, b, n - 1)
    ensures AltPaths(r, a, grammar, items) == AltPaths(r, b, grammar, items)
    decreases n, items
  {
    if items != [] {
      var last := |items| - 1;
      AltPathsIndependent(r, n, a, b, grammar, items[..last]);
      PathsIndependent(r, n, a, b, grammar, items[last]);
    }
  }

  // ----- The state of an analyzer -----

  /** Every production being expanded reaches e through required calls: whenever such a production
      unfolds within n levels, so does e. */
  ghost predicate Reached(r: Rules, active: set<Key>, grammar: string, e: Expr) {
    forall a, n: nat | a in active && KeyUnfolds(r, n, a) :: Unfolds(r, n, grammar, e)
  }

  ghost predicate ReachedKey(r: Rules, active: set<Key>, k: Key) {
    forall a, n: nat | a in active && KeyUnfolds(r, n, a) :: n > 0 && KeyUnfolds(r, n - 1, k)
  }

  /** A reached production that unfolds lies deeper than none of its callers, so it is not among them
      and has the path sets it has on its own. */
  lemma ReachedIndependent(r: Rules, active: set<Key>, k: Key)
    requires r.Valid() && AcyclicKey(r, k) && ReachedKey(r, active, k)
    ensures k !in active && PathsOf(r, active, k) == PathsOf(r, {}, k)
  {
    var n: nat :| KeyUnfolds(r, n, k);
    var least := Least(r, n, k);
    assert Deeper(r, active, least);
    KeyPathsIndependent(r, least, active, {}, k);
  }

  lemma EnterBody(r: Rules, active: set<Key>, k: Key)
    requires k in r.productions && ReachedKey(r, active, k)
    ensures Reached(r, active + {k}, k.grammar, r.Body(k))
  {
    forall a, n: nat | a in active + {k} && KeyUnfolds(r, n, a) ensures Unfolds(r, n, k.grammar, r.Body(k)) {
      if a in active {
        assert n > 0 && KeyUnfolds(r, n - 1, k);
        UnfoldsMonotone(r, n - 1, n, k.grammar, r.Body(k));
      }
    }
  }

  ghost predicate AllAcyclic(r: Rules, grammar: string, items: seq<Expr>) {
    forall i | i in items :: Acyclic(r, grammar, i)
  }

  lemma {:induction false} CommonDepth(r: Rules, grammar: string, items: seq<Expr>) returns (n: nat)
    requires AllAcyclic(r, grammar, items)
    ensures forall i | i in items :: Unfolds(r, n, grammar, i)
  {
    if items == [] {
      n := 0;
    } else {
      var before := CommonDepth(r, grammar, items[1..]);
      assert Acyclic(r, grammar, items[0]);
      var first: nat :| Unfolds(r, first, grammar, items[0]);
      n := if before < first then first else before;
      forall i | i in items ensures Unfolds(r, n, grammar, i) {
        if i in items[1..] {
          UnfoldsMonotone(r, before, n, grammar, i);
        } else {
          UnfoldsMonotone(r, first, n, grammar, i);
        }
      }
    }
  }

  /** A sequence or alternation is acyclic exactly when its items are. */
  lemma ItemsAcyclic(r: Rules, grammar: string, items: seq<Expr>)
    ensures Acyclic(r, grammar, Seq(items)) <==> AllAcyclic(r, grammar, items)
    ensures Acyclic(r, grammar, Alt(items)) <==> AllAcyclic(r, grammar, items)
  {
    if AllAcyclic(r, grammar, items) {
      var n := CommonDepth(r, grammar, items);
      assert Unfolds(r, n, grammar, Seq(items)) && Unfolds(r, n, grammar, Alt(items));
    }
    if Acyclic(r, grammar, Seq(items)) {
      var n: nat :| Unfolds(r, n, grammar, Seq(items));
      forall i | i in items ensures Acyclic(r, grammar, i) { assert Unfolds(r, n, grammar, i); }
    }
    if Acyclic(r, grammar, Alt(items)) {
      var n: nat :| Unfolds(r, n, grammar, Alt(items));
      forall i | i in items ensures Acyclic(r, grammar, i) { assert Unfolds(r, n, grammar, i); }
    }
  }

  /** A resolved call is acyclic exactly when the production it calls is. */
  lemma CallAcyclic(r: Rules, grammar: string, name: string, k: Key)
    requires r.Lookup(grammar, name) == Some(k)
    ensures Acyclic(r, grammar, Ref(name)) <==> AcyclicKey(r, k)
  {
    if n: nat :| KeyUnfolds(r, n, k) {
      assert Unfolds(r, n + 1, grammar, Ref(name));
    }
    if n: nat :| Unfolds(r, n, grammar, Ref(name)) {
      assert KeyUnfolds(r, n - 1, k);
    }
  }

  class Analyzer {
    const rules: Rules
    var memo: map<Key, seq<Mask>>
    var active: set<Key>
    var cuts: nat

    ghost predicate Valid()
      reads this
    {
      && rules.Valid()
      && active <= rules.productions.Keys
      && (forall k | k in memo :: AcyclicKey(rules, k) && memo[k] == PathsOf(rules, {}, k))
    }

    constructor (rules: Rules)
      requires rules.Valid()
      ensures Valid() && this.rules == rules && memo == map[] && active == {} && cuts == 0
    {
      this.rules := rules;
      memo, active, cuts := map[], {}, 0;
    }

    /** Path sets of a production. Between calls from outside `active` is empty and ReachedKey holds
        trivially; it is the condition under which the analyzer calls itself. */
    method Paths(p: Production) returns (paths: seq<Mask>)
      requires Valid() && KeyOf(p) in rules.productions && rules.productions[KeyOf(p)] == p
      requires ReachedKey(rules, active, KeyOf(p))
      modifies this
      ensures Valid() && active == old(active)
      ensures paths == PathsOf(rules, old(active), KeyOf(p))
      ensures cuts >= old(cuts)
      ensures cuts == old(cuts) <==> AcyclicKey(rules, KeyOf(p))
      ensures forall k | k in old(memo) :: k in memo
      ensures KeyOf(p) in memo <==> AcyclicKey(rules, KeyOf(p))
      decreases rules.productions.Keys - active, 0
    {
      var key := KeyOf(p);
      if key in memo {
        ReachedIndependent(rules, active, key);
        return memo[key];
      }
      if AcyclicKey(rules, key) {
        ReachedIndependent(rules, active, key);
      }
      if key in active {
        cuts := cuts + 1;
        return [];
      }
      EnterBody(rules, active, key);
      active := active + {key};
      var before := cuts;
      paths := ExprPathsOf(p.grammar, p.body);
      active := active - {key};
      assert active == old(active);
      assert Acyclic(rules, p.grammar, p.body) <==> AcyclicKey(rules, key) by {
        assert forall n: nat :: Unfolds(rules, n, p.grammar, p.body) <==> KeyUnfolds(rules, n, key);
      }
      if cuts == before {
        ReachedIndependent(rules, active, key);
        memo := memo[key := paths];
      }
    }

    /** Path sets of one body expression. */
    method ExprPathsOf(grammar: string, e: Expr) returns (paths: seq<Mask>)
      requires Valid() && Reached(rules, active, grammar, e)
      modifies this
      ensures Valid() && active == old(active)
      ensures paths == ExprPaths(rules, old(active), grammar, e)
      ensures cuts >= old(cuts)
      ensures cuts == old(cuts) <==> Acyclic(rules, grammar, e)
      ensures forall k | k in old(memo) :: k in memo
      decreases rules.productions.Keys - active, 1, e
    {
      hide Reached, ReachedKey, Unfolds, Acyclic, AcyclicKey, AllAcyclic, SeqPaths, AltPaths, PathsOf, Combined, Pruned;
      NoItems(rules, active, grammar);
      match e {
        case Lit(value) =>
          paths := [rules.lits.Mask(value)];
          CallsNothing(rules, grammar, e);
        case Ref(name) =>
          var called := rules.Lookup(grammar, name);
          match called {
            case None =>
              // Nothing to call, so nothing to spell.
              paths := [Empty()];
              CallsNothing(rules, grammar, e);
            case Some(k) =>
              CallAcyclic(rules, grammar, name, k);
              ReachedCall(rules, active, grammar, name, k);
              paths := Paths(rules.productions[k]);
          }
        case Opt(_) =>
          paths := [Empty()];
          CallsNothing(rules, grammar, e);
        case Nil =>
          paths := [Empty()];
          CallsNothing(rules, grammar, e);
        case Seq(items) =>
          paths := [Empty()];
          for i := 0 to |items|
            invariant Valid() && active == old(active)
            invariant paths == SeqPaths(rules, active, grammar, items[..i])
            invariant cuts >= old(cuts)
            invariant cuts == old(cuts) <==> AllAcyclic(rules, grammar, items[..i])
            invariant forall k | k in old(memo) :: k in memo
          {
            ReachedItem(rules, active, grammar, items, i);
            var part := ExprPathsOf(grammar, items[i]);
            NextItem(rules, active, grammar, items, i);
            paths := Combine(paths, part);
          }
          assert items[..|items|] == items;
          ItemsAcyclic(rules, grammar, items);
        case Alt(items) =>
          var all: seq<Mask> := [];
          for i := 0 to |items|
            invariant Valid() && active == old(active)
            invariant all == AltPaths(rules, active, grammar, items[..i])
            invariant cuts >= old(cuts)
            invariant cuts == old(cuts) <==> AllAcyclic(rules, grammar, items[..i])
            invariant forall k | k in old(memo) :: k in memo
          {
            ReachedItem(rules, active, grammar, items, i);
            var part := ExprPathsOf(grammar, items[i]);
            NextItem(rules, active, grammar, items, i);
            all := all + part;
          }
          assert items[..|items|] == items;
          ItemsAcyclic(rules, grammar, items);
          paths := Prune(all);
      }
    }
  }

  // ----- One step of the walk over a body -----

  /** An expression that calls nothing reaches no cycle. */
  lemma CallsNothing(r: Rules, grammar: string, e: Expr)
    requires e.Lit? || e.Opt? || e.Nil? || (e.Ref? && r.Lookup(grammar, e.name) == None)
    ensures Acyclic(r, grammar, e)
  {
    assert Unfolds(r, 0, grammar, e);
  }

  lemma ReachedCall(r: Rules, active: set<Key>, grammar: string, name: string, k: Key)
    requires r.Lookup(grammar, name) == Some(k) && Reached(r, active, grammar, Ref(name))
    ensures ReachedKey(r, active, k)
  {
    forall a, n: nat | a in active && KeyUnfolds(r, n, a) ensures n > 0 && KeyUnfolds(r, n - 1, k) {
      assert Unfolds(r, n, grammar, Ref(name));
    }
  }

  lemma ReachedItem(r: Rules, active: set<Key>, grammar: string, items: seq<Expr>, i: nat)
    requires i < |items| && (Reached(r, active, grammar, Seq(items)) || Reached(r, active, grammar, Alt(items)))
    ensures Reached(r, active, grammar, items[i])
  {
    forall a, n: nat | a in active && KeyUnfolds(r, n, a) ensures Unfolds(r, n, grammar, items[i]) {
      assert Unfolds(r, n, grammar, Seq(items)) || Unfolds(r, n, grammar, Alt(items));
    }
  }

  lemma NoItems(r: Rules, active: set<Key>, grammar: string)
    requires r.Valid()
    ensures SeqPaths(r, active, grammar, []) == [Empty()] && AltPaths(r, active, grammar, []) == []
    ensures AllAcyclic(r, grammar, [])
  {
  }

  lemma NextItem(r: Rules, active: set<Key>, grammar: string, items: seq<Expr>, i: nat)
    requires r.Valid() && i < |items|
    ensures SeqPaths(r, active, grammar, items[..i + 1]) ==
      Combined(SeqPaths(r, active, grammar, items[..i]), ExprPaths(r, active, grammar, items[i]))
    ensures AltPaths(r, active, grammar, items[..i + 1]) ==
      AltPaths(r, active, grammar, items[..i]) + ExprPaths(r, active, grammar, items[i])
    ensures AllAcyclic(r, grammar, items[..i + 1]) <==> AllAcyclic(r, grammar, items[..i]) && Acyclic(r, grammar, items[i])
  {
    hide Combined, ExprPaths, Acyclic;
    var next := items[..i + 1];
    assert next[..i] == items[..i] && next[i] == items[i];
    assert next == items[..i] + [items[i]];
    assert items[i] in next;
  }
}
