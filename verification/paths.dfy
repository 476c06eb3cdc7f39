/** The path analysis without its memo table, and its exactness (cmd/grammar-coverage/classify.go).

    PathsOf expands the rules a production calls and cuts a path that returns to a production still
    being expanded. The main result is that the cut loses nothing: a repeated rule on a branch can
    be pumped out of a derivation, leaving a smaller one with no further literals. */
module Paths {
  import opened Masks
  import opened PathSets
  import opened Grammar
  import opened Derivations

  /** The literal sets of production k, while the productions of `active` are being expanded. */
  function PathsOf(r: Rules, active: set<Key>, k: Key): seq<Mask>
    requires r.Valid() && k in r.productions
    decreases r.productions.Keys - active, 0
  {
    if k in active then [] else ExprPaths(r, active + {k}, k.grammar, r.Body(k))
  }

  function ExprPaths(r: Rules, active: set<Key>, grammar: string, e: Expr): seq<Mask>
    requires r.Valid()
    decreases r.productions.Keys - active, 1, e
  {
    match e
    case Lit(value) => [r.lits.Mask(value)]
    case Ref(name) =>
      (match r.Lookup(grammar, name)
       case None => [Empty()]
       case Some(k) => PathsOf(r, active, k))
    case Seq(items) => SeqPaths(r, active, grammar, items)
    case Alt(items) => Pruned(AltPaths(r, active, grammar, items))
    case _ => [Empty()]
  }

  /** The items of a sequence, combined from the left. */
  function SeqPaths(r: Rules, active: set<Key>, grammar: string, items: seq<Expr>): seq<Mask>
    requires r.Valid()
    decreases r.productions.Keys - active, 1, items
  {
    if items == [] then [Empty()]
    else
      var n := |items| - 1;
      Combined(SeqPaths(r, active, grammar, items[..n]), ExprPaths(r, active, grammar, items[n]))
  }

  function AltPaths(r: Rules, active: set<Key>, grammar: string, items: seq<Expr>): seq<Mask>
    requires r.Valid()
    decreases r.productions.Keys - active, 1, items
  {
    if items == [] then []
    else
      var n := |items| - 1;
      AltPaths(r, active, grammar, items[..n]) + ExprPaths(r, active, grammar, items[n])
  }

  // ----- Soundness: every mask is a derivation's literal set, cap or no cap -----

  lemma {:induction false} ExprSound(r: Rules, active: set<Key>, grammar: string, e: Expr, m: Mask) returns (t: Tree)
    requires r.Valid() && m in ExprPaths(r, active, grammar, e)
    ensures Derives(r, grammar, e, t) && Needs(r, grammar, e, t) == Bits(m)
    decreases r.productions.Keys - active, 1, e
  {
    t := Leaf;
    match e {
      case Lit(_) =>
      case Opt(_) =>
      case Nil =>
      case Ref(name) =>
        match r.Lookup(grammar, name) {
          case None =>
          case Some(k) =>
            var kid := KeySound(r, active, k, m);
            t := Call(kid);
        }
      case Seq(items) =>
        var kids := SeqSound(r, active, grammar, items, m);
        t := Items(kids);
      case Alt(items) =>
        PruneIsCheapestAntichain(AltPaths(r, active, grammar, items));
        t := AltSound(r, active, grammar, items, m);
    }
  }

  lemma {:induction false} KeySound(r: Rules, active: set<Key>, k: Key, m: Mask) returns (t: Tree)
    requires r.Valid() && k in r.productions && m in PathsOf(r, active, k)
    ensures DerivesKey(r, k, t) && KeyNeeds(r, k, t) == Bits(m)
    decreases r.productions.Keys - active, 0
  {
    t := ExprSound(r, active + {k}, k.grammar, r.Body(k), m);
  }

  lemma {:induction false} SeqSound(r: Rules, active: set<Key>, grammar: string, items: seq<Expr>, m: Mask)
    returns (kids: seq<Tree>)
    requires r.Valid() && m in SeqPaths(r, active, grammar, items)
    ensures DerivesAll(r, grammar, items, kids)
    ensures r.lits.LitBits(AllLiterals(r, grammar, items, kids)) == Bits(m)
    decreases r.productions.Keys - active, 1, items
  {
    hide Combined, Empty;
    if items == [] {
      kids := [];
    } else {
      var n := |items| - 1;
      var left, right := SeqPaths(r, active, grammar, items[..n]), ExprPaths(r, active, grammar, items[n]);
      var a, b := CombinedPair(left, right, m);
      var before := SeqSound(r, active, grammar, items[..n], a);
      var last := ExprSound(r, active, grammar, items[n], b);
      kids := before + [last];
      assert kids[..n] == before;
    }
  }

  lemma {:induction false} AltSound(r: Rules, active: set<Key>, grammar: string, items: seq<Expr>, m: Mask) returns (t: Tree)
    requires r.Valid() && m in AltPaths(r, active, grammar, items)
    ensures Derives(r, grammar, Alt(items), t) && Needs(r, grammar, Alt(items), t) == Bits(m)
    decreases r.productions.Keys - active, 1, items
  {
    var n := |items| - 1;
    if m in ExprPaths(r, active, grammar, items[n]) {
      var kid := ExprSound(r, active, grammar, items[n], m);
      t := Choice(n, kid);
    } else {
      t := AltSound(r, active, grammar, items[..n], m);
      assert items[..n][t.index] == items[t.index];
    }
  }

  // ----- Completeness -----

  /** No prune in the analysis loses a set to the cap. */
  ghost predicate FitsKey(r: Rules, active: set<Key>, k: Key)
    requires r.Valid() && k in r.productions
    decreases r.productions.Keys - active, 0
  {
    k in active || FitsExpr(r, active + {k}, k.grammar, r.Body(k))
  }

  ghost predicate FitsExpr(r: Rules, active: set<Key>, grammar: string, e: Expr)
    requires r.Valid()
    decreases r.productions.Keys - active, 1, e
  {
    match e
    case Ref(name) =>
      (match r.Lookup(grammar, name)
       case None => true
       case Some(k) => FitsKey(r, active, k))
    case Seq(items) => FitsSeq(r, active, grammar, items)
    case Alt(items) => FitsAlt(r, active, grammar, items) && Fits(AltPaths(r, active, grammar, items))
    case _ => true
  }

  ghost predicate FitsSeq(r: Rules, active: set<Key>, grammar: string, items: seq<Expr>)
    requires r.Valid()
    decreases r.productions.Keys - active, 1, items
  {
    items != [] ==>
      var n := |items| - 1;
      && FitsSeq(r, active, grammar, items[..n])
      && FitsExpr(r, active, grammar, items[n])
      && Fits(Cross(SeqPaths(r, active, grammar, items[..n]), ExprPaths(r, active, grammar, items[n])))
  }

  ghost predicate FitsAlt(r: Rules, active: set<Key>, grammar: string, items: seq<Expr>)
    requires r.Valid()
    decreases r.productions.Keys - active, 1, items
  {
    items != [] ==>
      FitsAlt(r, active, grammar, items[..|items| - 1]) && FitsExpr(r, active, grammar, items[|items| - 1])
  }

  /** The literal sets for which the cap cannot matter: none at all, and all of them. */
  ghost predicate Extreme(have: set<nat>) {
    have == {} || Universe <= have
  }

  /** A derivation smaller than `size` of a production being expanded, using only literals in `have`. */
  ghost predicate Pumped(r: Rules, active: set<Key>, have: set<nat>, k: Key, t: Tree, size: nat) {
    k in active && DerivesKey(r, k, t) && KeyNeeds(r, k, t) <= have && Size(t) < size
  }

  /** A derivation of e is covered by the path sets, unless it passes through a production that is
      being expanded, and then a smaller derivation of that production lies inside it. */
  lemma {:induction false} PumpExpr(r: Rules, active: set<Key>, grammar: string, e: Expr, t: Tree, have: set<nat>)
    returns (k: Key, inner: Tree)
    requires r.Valid() && Derives(r, grammar, e, t) && Needs(r, grammar, e, t) <= have
    requires FitsExpr(r, active, grammar, e) || Extreme(have)
    ensures Covers(ExprPaths(r, active, grammar, e), have) || Pumped(r, active, have, k, inner, Size(t))
    decreases r.productions.Keys - active, Size(t), 0
  {
    hide Empty, Pruned, Fits;
    k, inner := Key("", ""), Leaf;
    match e {
      case Lit(value) =>
        assert r.lits.Mask(value) in ExprPaths(r, active, grammar, e);
      case Opt(_) => assert Empty() in ExprPaths(r, active, grammar, e);
      case Nil => assert Empty() in ExprPaths(r, active, grammar, e);
      case Ref(name) =>
        match r.Lookup(grammar, name) {
          case None => assert Empty() in ExprPaths(r, active, grammar, e);
          case Some(called) => k, inner := PumpKey(r, active, called, t.kid, have);
        }
      case Seq(items) =>
        k, inner := PumpSeq(r, active, grammar, items, t.kids, have);
      case Alt(items) =>
        k, inner := PumpAlt(r, active, grammar, items, t.index, t.kid, have);
        PruneKeepsCover(AltPaths(r, active, grammar, items), have);
    }
  }

  /** The pumping step: a derivation of k inside a derivation of k replaces it. */
  lemma {:induction false} PumpKey(r: Rules, active: set<Key>, called: Key, t: Tree, have: set<nat>)
    returns (k: Key, inner: Tree)
    requires r.Valid() && DerivesKey(r, called, t) && KeyNeeds(r, called, t) <= have
    requires FitsKey(r, active, called) || Extreme(have)
    ensures Covers(PathsOf(r, active, called), have) || Pumped(r, active, have, k, inner, Size(t) + 1)
    decreases r.productions.Keys - active, Size(t), 1
  {
    hide Covers, ExprPaths, FitsExpr, Extreme, Size, Derives, Literals;
    if called in active {
      k, inner := called, t;
    } else {
      k, inner := PumpExpr(r, active + {called}, called.grammar, r.Body(called), t, have);
      if Covers(ExprPaths(r, active + {called}, called.grammar, r.Body(called)), have) || k != called {
        return;
      }
      k, inner := PumpKey(r, active, called, inner, have);
    }
  }

  lemma {:induction false} PumpSeq(r: Rules, active: set<Key>, grammar: string, items: seq<Expr>, kids: seq<Tree>, have: set<nat>)
    returns (k: Key, inner: Tree)
    requires r.Valid() && DerivesAll(r, grammar, items, kids)
    requires r.lits.LitBits(AllLiterals(r, grammar, items, kids)) <= have
    requires FitsSeq(r, active, grammar, items) || Extreme(have)
    ensures Covers(SeqPaths(r, active, grammar, items), have) || Pumped(r, active, have, k, inner, SizeAll(kids))
    decreases r.productions.Keys - active, SizeAll(kids), 0
  {
    k, inner := Key("", ""), Leaf;
    if items == [] {
      assert Empty() in SeqPaths(r, active, grammar, items);
    } else {
      var n := |items| - 1;
      var left, right := SeqPaths(r, active, grammar, items[..n]), ExprPaths(r, active, grammar, items[n]);
      k, inner := PumpSeq(r, active, grammar, items[..n], kids[..n], have);
      if Covers(left, have) {
        k, inner := PumpExpr(r, active, grammar, items[n], kids[n], have);
        if Covers(right, have) {
          CombineIntersects(left, right, have);
        }
      }
    }
  }

  lemma {:induction false} PumpAlt(r: Rules, active: set<Key>, grammar: string, items: seq<Expr>, index: nat, t: Tree, have: set<nat>)
    returns (k: Key, inner: Tree)
    requires r.Valid() && index < |items| && Derives(r, grammar, items[index], t)
    requires Needs(r, grammar, items[index], t) <= have
    requires FitsAlt(r, active, grammar, items) || Extreme(have)
    ensures Covers(AltPaths(r, active, grammar, items), have) || Pumped(r, active, have, k, inner, Size(t) + 1)
    decreases r.productions.Keys - active, Size(t), 1, |items|
  {
    hide Covers, ExprPaths, AltPaths, FitsAlt, FitsExpr, Extreme, Derives, Literals, Size, Pumped;
    var n := |items| - 1;
    AltLast(r, active, grammar, items);
    CoversConcat(AltPaths(r, active, grammar, items[..n]), ExprPaths(r, active, grammar, items[n]), have);
    if index == n {
      k, inner := PumpExpr(r, active, grammar, items[n], t, have);
      PumpedLater(r, active, have, k, inner, Size(t));
    } else {
      assert items[..n][index] == items[index];
      k, inner := PumpAlt(r, active, grammar, items[..n], index, t, have);
    }
  }

  lemma SeqLast(r: Rules, active: set<Key>, grammar: string, items: seq<Expr>)
    requires r.Valid()
    ensures SeqPaths(r, active, grammar, items) ==
      if items == [] then [Empty()]
      else Combined(SeqPaths(r, active, grammar, items[..|items| - 1]), ExprPaths(r, active, grammar, items[|items| - 1]))
  {
    hide ExprPaths, Combined;
  }

  lemma AltLast(r: Rules, active: set<Key>, grammar: string, items: seq<Expr>)
    requires r.Valid() && items != []
    ensures var n := |items| - 1;
      && AltPaths(r, active, grammar, items) == AltPaths(r, active, grammar, items[..n]) + ExprPaths(r, active, grammar, items[n])
      && (FitsAlt(r, active, grammar, items) ==> FitsAlt(r, active, grammar, items[..n]) && FitsExpr(r, active, grammar, items[n]))
  {
    hide ExprPaths, FitsExpr;
  }

  lemma PumpedLater(r: Rules, active: set<Key>, have: set<nat>, k: Key, t: Tree, size: nat)
    ensures Pumped(r, active, have, k, t, size) ==> Pumped(r, active, have, k, t, size + 1)
  {
    hide Derives, Literals, Size;
  }

  lemma CoversConcat(a: seq<Mask>, b: seq<Mask>, have: set<nat>)
    ensures Covers(a + b, have) <==> Covers(a, have) || Covers(b, have)
  {
    if Covers(a, have) { var m :| m in a && Bits(m) <= have; assert m in a + b; }
    if Covers(b, have) { var m :| m in b && Bits(m) <= have; assert m in a + b; }
  }

  // ----- The main results -----

  /** Path sets are exact for every grammar whose analysis stays within the cap: an input's literals
      contain one of the sets of Paths(p) exactly when p has a finite derivation using only them. */
  lemma PathsExact(r: Rules, k: Key, have: set<nat>)
    requires r.Valid() && k in r.productions
    requires FitsKey(r, {}, k) || Extreme(have)
    ensures Covers(PathsOf(r, {}, k), have) <==> Derivable(r, k, have)
  {
    hide PathsOf, FitsKey, Size, Covers;
    if Covers(PathsOf(r, {}, k), have) {
      CoveredIsDerivable(r, k, have);
    }
    if Derivable(r, k, have) {
      var t :| DerivesKey(r, k, t) && KeyNeeds(r, k, t) <= have;
      var _, _ := PumpKey(r, {}, k, t, have);
    }
  }

  lemma CoveredIsDerivable(r: Rules, k: Key, have: set<nat>)
    requires r.Valid() && k in r.productions && Covers(PathsOf(r, {}, k), have)
    ensures Derivable(r, k, have)
  {
    var m :| m in PathsOf(r, {}, k) && Bits(m) <= have;
    var t := KeySound(r, {}, k, m);
  }

  /** Whatever the cap dropped, an empty path set still means that no finite derivation exists. */
  lemma EmptyMeansUnderivable(r: Rules, k: Key)
    requires r.Valid() && k in r.productions
    ensures PathsOf(r, {}, k) == [] <==> !exists t :: DerivesKey(r, k, t)
  {
    PathsExact(r, k, Universe);
    if PathsOf(r, {}, k) != [] {
      var m := PathsOf(r, {}, k)[0];
      var t := KeySound(r, {}, k, m);
    }
    if t :| DerivesKey(r, k, t) {
      assert r.lits.Valid();
      assert KeyNeeds(r, k, t) <= Universe;
    }
  }

  /** Whatever the cap dropped, the first path set is empty exactly when some derivation uses no
      literal of the table. */
  lemma ZeroMeansLiteralFree(r: Rules, k: Key)
    requires r.Valid() && k in r.productions
    ensures (PathsOf(r, {}, k) != [] && IsZero(PathsOf(r, {}, k)[0])) <==> Derivable(r, k, {})
  {
    PathsExact(r, k, {});
    var ms := PathsOf(r, {}, k);
    if Covers(ms, {}) {
      PathsSorted(r, {}, k);
      var m :| m in ms && Bits(m) <= {};
      var i :| 0 <= i < |ms| && ms[i] == m;
      NoZeroAmongMany(ms, i);
    } else if ms != [] {
      assert ms[0] in ms;
    }
  }

  /** Path sets come cheapest first, pairwise incomparable and at most maxPaths of them. */
  lemma {:induction false} PathsSorted(r: Rules, active: set<Key>, k: Key)
    requires r.Valid() && k in r.productions
    ensures var ms := PathsOf(r, active, k); Sorted(ms) && Antichain(ms) && |ms| <= 24
    decreases r.productions.Keys - active, 0
  {
    if k !in active {
      ExprPathsSorted(r, active + {k}, k.grammar, r.Body(k));
    }
  }

  lemma {:induction false} ExprPathsSorted(r: Rules, active: set<Key>, grammar: string, e: Expr)
    requires r.Valid()
    ensures var ms := ExprPaths(r, active, grammar, e); Sorted(ms) && Antichain(ms) && |ms| <= MAX_PATHS
    decreases r.productions.Keys - active, 1
  {
    match e {
      case Lit(_) =>
      case Opt(_) =>
      case Nil =>
      case Ref(name) =>
        match r.Lookup(grammar, name) {
          case None =>
          case Some(k) => PathsSorted(r, active, k);
        }
      case Seq(items) =>
        if items != [] {
          var n := |items| - 1;
          PruneIsCheapestAntichain(
            Cross(SeqPaths(r, active, grammar, items[..n]), ExprPaths(r, active, grammar, items[n])));
        }
      case Alt(items) =>
        PruneIsCheapestAntichain(AltPaths(r, active, grammar, items));
    }
  }

  // ----- What the cap costs -----

  /** A production with a literal-free derivation is analysed exactly, whatever the cap dropped. */
  lemma LiteralFreeIsExact(r: Rules, k: Key, have: set<nat>)
    requires r.Valid() && k in r.productions && Derivable(r, k, {})
    ensures Covers(PathsOf(r, {}, k), have) && Derivable(r, k, have)
  {
    hide PathsOf, Derives, Literals;
    PathsExact(r, k, {});
    var m :| m in PathsOf(r, {}, k) && Bits(m) <= {};
    var t :| DerivesKey(r, k, t) && KeyNeeds(r, k, t) <= {};
  }

  /** Where the cap drops nothing, the first path is the cheapest: no derivation needs fewer literals,
      and one needs just these. */
  lemma CheapestIsFirst(r: Rules, k: Key)
    requires r.Valid() && k in r.productions && FitsKey(r, {}, k)
    ensures var ms := PathsOf(r, {}, k);
      && (forall t | DerivesKey(r, k, t) :: ms != [] && |Bits(ms[0])| <= |KeyNeeds(r, k, t)|)
      && (ms != [] ==> exists t :: DerivesKey(r, k, t) && KeyNeeds(r, k, t) == Bits(ms[0]))
  {
    hide PathsOf, FitsKey, Derives, Literals, Antichain, LessWords;
    var ms := PathsOf(r, {}, k);
    PathsSorted(r, {}, k);
    forall t | DerivesKey(r, k, t) ensures ms != [] && |Bits(ms[0])| <= |KeyNeeds(r, k, t)| {
      PathsExact(r, k, KeyNeeds(r, k, t));
      var m :| m in ms && Bits(m) <= KeyNeeds(r, k, t);
      SubsetSize(Bits(m), KeyNeeds(r, k, t));
      var i :| 0 <= i < |ms| && ms[i] == m;
      assert i > 0 ==> !Less(ms[i], ms[0]);
    }
    if ms != [] {
      var t := KeySound(r, {}, k, ms[0]);
    }
  }

  lemma {:induction false} SubsetSize(a: set<nat>, b: set<nat>)
    requires a <= b
    ensures |a| <= |b|
  {
    assert b == a + (b - a);
  }

  /** No other derivation of k needs strictly less than t. */
  ghost predicate LeastNeeds(r: Rules, k: Key, t: Tree)
    requires DerivesKey(r, k, t)
  {
    forall o | DerivesKey(r, k, o) :: !(KeyNeeds(r, k, o) < KeyNeeds(r, k, t))
  }

  /** In every grammar the cap costs exactness where it has to: if more than maxPaths derivations of k
      have different, inclusion-minimal needs, one of them is covered by no path. */
  lemma CapLosesDerivation(r: Rules, k: Key, ts: seq<Tree>) returns (i: nat)
    requires r.Valid() && k in r.productions && |ts| > MAX_PATHS
    requires forall i | 0 <= i < |ts| :: DerivesKey(r, k, ts[i]) && LeastNeeds(r, k, ts[i])
    requires forall i, j | 0 <= i < j < |ts| :: KeyNeeds(r, k, ts[i]) != KeyNeeds(r, k, ts[j])
    ensures i < |ts| && !Covers(PathsOf(r, {}, k), KeyNeeds(r, k, ts[i]))
  {
    hide PathsOf, Derives, Literals, Sorted, Antichain;
    var ms := PathsOf(r, {}, k);
    PathsSorted(r, {}, k);
    var needs := seq(|ts|, i requires 0 <= i < |ts| => KeyNeeds(r, k, ts[i]));
    i := LeftOut(needs, ms);
    assert LeastNeeds(r, k, ts[i]) && needs[i] == KeyNeeds(r, k, ts[i]);
    if m :| m in ms && Bits(m) <= needs[i] {
      var d := KeySound(r, {}, k, m);
    }
  }

  /** Some set is missing from a list of masks shorter than the list of sets. */
  lemma {:induction false} LeftOut(needs: seq<set<nat>>, ms: seq<Mask>) returns (i: nat)
    requires |needs| > |ms| && forall i, j | 0 <= i < j < |needs| :: needs[i] != needs[j]
    ensures i < |needs| && forall m | m in ms :: Bits(m) != needs[i]
    decreases |ms|
  {
    hide Bits;
    i := |needs| - 1;
    if j: nat :| j < |ms| && Bits(ms[j]) == needs[i] {
      var fewer := ms[..j] + ms[j + 1..];
      var last := i;
      i := LeftOut(needs[..last], fewer);
      forall m | m in ms ensures Bits(m) != needs[i] {
        var p :| 0 <= p < |ms| && ms[p] == m;
        if p != j {
          assert m == fewer[if p < j then p else p - 1];
        }
      }
    }
  }

  function AltOf(literals: seq<string>): Expr {
    Alt(seq(|literals|, i requires 0 <= i < |literals| => Lit(literals[i])))
  }

  /** So an alternation of more than maxPaths distinct literals has a derivation that no path covers. */
  lemma CapLosesPaths(r: Rules, k: Key, literals: seq<string>) returns (have: set<nat>)
    requires r.Valid() && k in r.productions && r.Body(k) == AltOf(literals)
    requires |literals| > MAX_PATHS && forall i, j | 0 <= i < j < |literals| :: literals[i] != literals[j]
    requires forall l | l in literals :: l in r.lits.bit
    ensures Derivable(r, k, have) && !Covers(PathsOf(r, {}, k), have)
  {
    var ts := seq(|literals|, i requires 0 <= i < |literals| => Choice(i, Leaf));
    forall i | 0 <= i < |ts| ensures DerivesKey(r, k, ts[i]) && LeastNeeds(r, k, ts[i]) && KeyNeeds(r, k, ts[i]) == {r.lits.bit[literals[i]]} {
      OneLiteral(r, k, literals, i);
    }
    hide LeastNeeds, Derives, Literals, PathsOf;
    forall i, j | 0 <= i < j < |ts| ensures KeyNeeds(r, k, ts[i]) != KeyNeeds(r, k, ts[j]) {
      OtherBit(r, literals, i, j);
    }
    var i := CapLosesDerivation(r, k, ts);
    have := KeyNeeds(r, k, ts[i]);
  }

  /** One of these literals, written a second time behind the choice among all of them. */
  function ChoiceThen(literals: seq<string>, l: string): Expr {
    Seq([AltOf(literals), Lit(l)])
  }

  /** The cap can cost exactness where a single set is minimal, and drop the cheapest: behind a choice
      among more than maxPaths literals, the one the choice lost leaves paths that all need another
      literal besides, though choosing it too needs nothing else. */
  lemma CapLosesCheapest(r: Rules, active: set<Key>, grammar: string, literals: seq<string>) returns (j: nat, t: Tree)
    requires r.Valid() && |literals| > MAX_PATHS
    requires forall i, j | 0 <= i < j < |literals| :: literals[i] != literals[j]
    requires forall l | l in literals :: l in r.lits.bit
    ensures j < |literals|
    ensures var e, least := ChoiceThen(literals, literals[j]), {r.lits.bit[literals[j]]};
      && Derives(r, grammar, e, t) && Needs(r, grammar, e, t) == least
      && (forall o | Derives(r, grammar, e, o) :: least <= Needs(r, grammar, e, o))
      && (forall m | m in ExprPaths(r, active, grammar, e) :: least < Bits(m))
  {
    hide ExprPaths, SeqPaths, Sorted, Antichain, Derives, Literals, AllLiterals, DerivesAll;
    var needs := seq(|literals|, i requires 0 <= i < |literals| => {r.lits.bit[literals[i]]});
    forall i, j | 0 <= i < j < |literals| ensures needs[i] != needs[j] { OtherBit(r, literals, i, j); }
    var choices := ExprPaths(r, active, grammar, AltOf(literals));
    ExprPathsSorted(r, active, grammar, AltOf(literals));
    j := LeftOut(needs, choices);
    var l := literals[j];
    t := Items([Choice(j, Leaf), Leaf]);
    ChoiceThenItself(r, grammar, literals, j);
    forall o | Derives(r, grammar, ChoiceThen(literals, l), o)
      ensures {r.lits.bit[l]} <= Needs(r, grammar, ChoiceThen(literals, l), o)
    {
      ChoiceThenNeeds(r, grammar, literals, l, o);
    }
    forall m | m in ExprPaths(r, active, grammar, ChoiceThen(literals, l)) ensures {r.lits.bit[l]} < Bits(m) {
      var c := ChoiceThenPath(r, active, grammar, literals, l, m);
      var d := ExprSound(r, active, grammar, AltOf(literals), c);
      ChoiceNeeds(r, grammar, literals, d);
      assert Bits(c) == needs[d.index] != needs[j];
    }
  }

  lemma ChoiceThenItself(r: Rules, grammar: string, literals: seq<string>, j: nat)
    requires j < |literals| && literals[j] in r.lits.bit
    ensures var e, t := ChoiceThen(literals, literals[j]), Items([Choice(j, Leaf), Leaf]);
      Derives(r, grammar, e, t) && Needs(r, grammar, e, t) == {r.lits.bit[literals[j]]}
  {
    var l := literals[j];
    var items, kids := [AltOf(literals), Lit(l)], [Choice(j, Leaf), Leaf];
    assert Derives(r, grammar, Lit(l), Leaf) && Literals(r, grammar, Lit(l), Leaf) == {l};
    assert AltOf(literals).items[j] == Lit(l);
    assert Derives(r, grammar, AltOf(literals), Choice(j, Leaf)) && Literals(r, grammar, AltOf(literals), Choice(j, Leaf)) == {l};
    assert items[..1] == [AltOf(literals)] && kids[..1] == [Choice(j, Leaf)] && items[..1][..0] == [] && kids[..1][..0] == [];
    assert DerivesAll(r, grammar, [], []) && AllLiterals(r, grammar, [], []) == {};
    assert DerivesAll(r, grammar, items[..1], kids[..1]) && AllLiterals(r, grammar, items[..1], kids[..1]) == {l};
    assert DerivesAll(r, grammar, items, kids) && AllLiterals(r, grammar, items, kids) == {l};
    assert r.lits.LitBits({l}) == {r.lits.bit[l]};
  }

  lemma ChoiceThenNeeds(r: Rules, grammar: string, literals: seq<string>, l: string, t: Tree)
    requires l in r.lits.bit && Derives(r, grammar, ChoiceThen(literals, l), t)
    ensures {r.lits.bit[l]} <= Needs(r, grammar, ChoiceThen(literals, l), t)
  {
    var items := ChoiceThen(literals, l).items;
    assert l in AllLiterals(r, grammar, items, t.kids);
    assert l in Literals(r, grammar, ChoiceThen(literals, l), t);
  }

  /** A path of the whole is a path of the choice and the literal behind it. */
  lemma ChoiceThenPath(r: Rules, active: set<Key>, grammar: string, literals: seq<string>, l: string, m: Mask)
    returns (c: Mask)
    requires r.Valid() && l in r.lits.bit && m in ExprPaths(r, active, grammar, ChoiceThen(literals, l))
    ensures c in ExprPaths(r, active, grammar, AltOf(literals)) && Bits(m) == Bits(c) + {r.lits.bit[l]}
  {
    hide SeqPaths, AltPaths, Combined, Empty;
    var items := [AltOf(literals), Lit(l)];
    assert items[..1] == [AltOf(literals)] && items[..1][..0] == [];
    var first, choices := SeqPaths(r, active, grammar, items[..1]), ExprPaths(r, active, grammar, AltOf(literals));
    SeqLast(r, active, grammar, items);
    SeqLast(r, active, grammar, items[..1]);
    SeqLast(r, active, grammar, []);
    var a, b := CombinedPair(first, [r.lits.Mask(l)], m);
    var empty;
    empty, c := CombinedPair([Empty()], choices, a);
    assert r.lits.LitBits({l}) == {r.lits.bit[l]};
  }

  lemma OtherBit(r: Rules, literals: seq<string>, i: nat, j: nat)
    requires r.Valid() && i < j < |literals| && literals[i] != literals[j]
    requires forall l | l in literals :: l in r.lits.bit
    ensures {r.lits.bit[literals[i]]} != {r.lits.bit[literals[j]]}
  {
    var a, b := r.lits.bit[literals[i]], r.lits.bit[literals[j]];
    assert r.lits.order[a] == literals[i] && r.lits.order[b] == literals[j];
    assert a in {a};
  }

  lemma OneLiteral(r: Rules, k: Key, literals: seq<string>, i: nat)
    requires k in r.productions && r.Body(k) == AltOf(literals) && i < |literals|
    requires forall l | l in literals :: l in r.lits.bit
    ensures var t := Choice(i, Leaf);
      DerivesKey(r, k, t) && LeastNeeds(r, k, t) && KeyNeeds(r, k, t) == {r.lits.bit[literals[i]]}
  {
    assert DerivesKey(r, k, Choice(i, Leaf));
    AltNeeds(r, k, literals, Choice(i, Leaf));
    forall o | DerivesKey(r, k, o) ensures !(KeyNeeds(r, k, o) < {r.lits.bit[literals[i]]}) {
      AltNeeds(r, k, literals, o);
    }
  }

  lemma AltNeeds(r: Rules, k: Key, literals: seq<string>, t: Tree)
    requires k in r.productions && r.Body(k) == AltOf(literals) && DerivesKey(r, k, t)
    requires forall l | l in literals :: l in r.lits.bit
    ensures t.Choice? && t.index < |literals| && KeyNeeds(r, k, t) == {r.lits.bit[literals[t.index]]}
  {
    ChoiceNeeds(r, k.grammar, literals, t);
  }

  lemma ChoiceNeeds(r: Rules, grammar: string, literals: seq<string>, t: Tree)
    requires Derives(r, grammar, AltOf(literals), t) && forall l | l in literals :: l in r.lits.bit
    ensures t.Choice? && t.index < |literals| && Needs(r, grammar, AltOf(literals), t) == {r.lits.bit[literals[t.index]]}
  {
    assert AltOf(literals).items[t.index] == Lit(literals[t.index]);
    assert Literals(r, grammar, AltOf(literals), t) == Literals(r, grammar, Lit(literals[t.index]), t.kid);
    assert r.lits.LitBits({literals[t.index]}) == {r.lits.bit[literals[t.index]]};
  }
}
