/** The diagnostics cmd/pilot-diff compares, their keys, and the groups it forms of them. */
module Diagnostics {

  datatype Diagnostic = Diagnostic(file: string, line: int, severity: string, category: string, message: string)

  /** The comparable tuple: everything but the file and the wording. */
  datatype Key = Key(line: int, severity: string, category: string)

  type Groups = map<Key, seq<Diagnostic>>

  function KeyOf(d: Diagnostic): Key { Key(d.line, d.severity, d.category) }

  function Min(a: nat, b: nat): nat { if a < b then a else b }

  /** Reading a Go map: a missing group is empty. */
  function At(g: Groups, k: Key): seq<Diagnostic> { if k in g then g[k] else [] }

  // ----- Grouping -----

  function Grouped(ds: seq<Diagnostic>): Groups {
    if ds == [] then map[]
    else
      var n := |ds| - 1;
      var before := Grouped(ds[..n]);
      before[KeyOf(ds[n]) := At(before, KeyOf(ds[n])) + [ds[n]]]
  }

  /** The diagnostics with one key, in order. */
  function OfKey(ds: seq<Diagnostic>, k: Key): seq<Diagnostic> {
    if ds == [] then []
    else
      var n := |ds| - 1;
      OfKey(ds[..n], k) + (if KeyOf(ds[n]) == k then [ds[n]] else [])
  }

  method Group(diagnostics: seq<Diagnostic>) returns (groups: Groups)
    ensures groups == Grouped(diagnostics)
  {
    groups := map[];
    for i := 0 to |diagnostics|
      invariant groups == Grouped(diagnostics[..i])
    {
      var d := diagnostics[i];
      assert diagnostics[..i + 1][..i] == diagnostics[..i];
      groups := groups[KeyOf(d) := At(groups, KeyOf(d)) + [d]];
    }
    assert diagnostics[..|diagnostics|] == diagnostics;
  }

  /** A group holds the diagnostics with its key, in order; there are no empty groups. */
  lemma {:induction false} GroupedMeaning(ds: seq<Diagnostic>, k: Key)
    ensures At(Grouped(ds), k) == OfKey(ds, k)
    ensures k in Grouped(ds) <==> OfKey(ds, k) != []
    ensures forall d | d in OfKey(ds, k) :: KeyOf(d) == k && d in ds
  {
    if ds != [] {
      var n := |ds| - 1;
      GroupedMeaning(ds[..n], k);
    }
  }

  /** A group's members are told by line, severity and category, whatever their file and wording. */
  lemma {:induction false} GroupMembers(ds: seq<Diagnostic>, k: Key)
    ensures forall d :: d in At(Grouped(ds), k) <==> d in ds && d.line == k.line && d.severity == k.severity && d.category == k.category
  {
    if ds != [] {
      var n := |ds| - 1;
      GroupMembers(ds[..n], k);
      assert ds == ds[..n] + [ds[n]];
    }
  }

  // ----- The order of keys -----

  /** Go's order on strings. */
  predicate Precedes(a: string, b: string) {
    b != [] && (a == [] || a[0] < b[0] || (a[0] == b[0] && Precedes(a[1..], b[1..])))
  }

  predicate KeyLess(a: Key, b: Key) {
    if a.line != b.line then a.line < b.line
    else if a.severity != b.severity then Precedes(a.severity, b.severity)
    else Precedes(a.category, b.category)
  }

  /** a is a proper beginning of b, or smaller where they first differ. */
  ghost predicate Sooner(a: string, b: string) {
    exists i: nat :: SoonerAt(a, b, i)
  }

  ghost predicate SoonerAt(a: string, b: string, i: nat) {
    i <= |a| && i < |b| && a[..i] == b[..i] && (i == |a| || a[i] < b[i])
  }

  /** By line, then severity, then category. */
  ghost predicate ReportOrder(a: Key, b: Key) {
    a.line < b.line ||
    (a.line == b.line && (Sooner(a.severity, b.severity) || (a.severity == b.severity && Sooner(a.category, b.category))))
  }

  lemma {:induction false} PrecedesMeaning(a: string, b: string)
    ensures Precedes(a, b) <==> Sooner(a, b)
    decreases |a|
  {
    if b != [] && (a == [] || a[0] < b[0]) {
      assert SoonerAt(a, b, 0);
    }
    if a != [] && b != [] {
      PrecedesMeaning(a[1..], b[1..]);
      if a[0] == b[0] && Sooner(a[1..], b[1..]) {
        var i: nat :| SoonerAt(a[1..], b[1..], i);
        assert a[..i + 1] == [a[0]] + a[1..][..i] && b[..i + 1] == [b[0]] + b[1..][..i];
        assert SoonerAt(a, b, i + 1);
      }
      if i: nat :| SoonerAt(a, b, i) && i > 0 {
        assert a[0] == a[..i][0] == b[..i][0] == b[0];
        assert a[1..][..i - 1] == a[..i][1..] && b[1..][..i - 1] == b[..i][1..];
        assert SoonerAt(a[1..], b[1..], i - 1);
      }
    }
  }

  lemma KeyLessMeaning(a: Key, b: Key)
    ensures KeyLess(a, b) <==> ReportOrder(a, b)
  {
    hide Precedes, Sooner;
    PrecedesMeaning(a.severity, b.severity);
    PrecedesMeaning(a.category, b.category);
    PrecedesTotal(a.severity, a.severity);
  }

  lemma {:induction false} PrecedesTotal(a: string, b: string)
    ensures !(Precedes(a, b) && Precedes(b, a)) && !Precedes(a, a)
    ensures a == b || Precedes(a, b) || Precedes(b, a)
  {
    if a != [] {
      PrecedesTotal(a[1..], a[1..]);
      if b != [] && a[0] == b[0] {
        PrecedesTotal(a[1..], b[1..]);
        assert a == [a[0]] + a[1..] && b == [b[0]] + b[1..];
      }
    }
  }

  lemma {:induction false} PrecedesTransitive(a: string, b: string, c: string)
    requires Precedes(a, b) && Precedes(b, c)
    ensures Precedes(a, c)
  {
    if a != [] && a[0] == b[0] == c[0] {
      PrecedesTransitive(a[1..], b[1..], c[1..]);
    }
  }

  /** KeyLess is a strict total order, so sorting by it has one outcome. */
  lemma KeyOrder(a: Key, b: Key, c: Key)
    ensures !KeyLess(a, a) && !(KeyLess(a, b) && KeyLess(b, a))
    ensures a == b || KeyLess(a, b) || KeyLess(b, a)
    ensures KeyLess(a, b) && KeyLess(b, c) ==> KeyLess(a, c)
  {
    hide Precedes;
    PrecedesTotal(a.severity, b.severity);
    PrecedesTotal(a.category, b.category);
    PrecedesTotal(b.category, c.category);
    PrecedesTotal(b.severity, c.severity);
    if Precedes(a.severity, b.severity) && Precedes(b.severity, c.severity) {
      PrecedesTransitive(a.severity, b.severity, c.severity);
      PrecedesTotal(a.severity, c.severity);
    }
    if Precedes(a.category, b.category) && Precedes(b.category, c.category) {
      PrecedesTransitive(a.category, b.category, c.category);
    }
  }

  ghost predicate Ascending(keys: seq<Key>) {
    forall i, j | 0 <= i < j < |keys| :: KeyLess(keys[i], keys[j])
  }

  ghost predicate InReportOrder(keys: seq<Key>) {
    forall i, j | 0 <= i < j < |keys| :: ReportOrder(keys[i], keys[j])
  }

  lemma AscendingReports(keys: seq<Key>)
    ensures Ascending(keys) <==> InReportOrder(keys)
  {
    hide KeyLess, ReportOrder;
    forall i, j | 0 <= i < j < |keys| { KeyLessMeaning(keys[i], keys[j]); }
  }

  lemma {:induction false} LeastExists(s: set<Key>)
    requires s != {}
    ensures exists k :: k in s && forall x | x in s :: x == k || KeyLess(k, x)
  {
    hide KeyLess;
    var k :| k in s;
    var rest := s - {k};
    if rest == {} {
      assert s == {k};
    } else {
      LeastExists(rest);
      var l :| l in rest && forall x | x in rest :: x == l || KeyLess(l, x);
      KeyOrder(k, l, k);
      if KeyLess(k, l) {
        forall x | x in s ensures x == k || KeyLess(k, x) {
          if x != k {
            assert x in rest;
            KeyOrder(k, l, x);
          }
        }
      } else {
        assert forall x | x in s :: x == l || KeyLess(l, x);
      }
    }
  }

  /** The keys of a set, sorted. */
  ghost function InOrder(s: set<Key>): seq<Key>
    decreases |s|
  {
    if s == {} then []
    else
      LeastExists(s);
      var k :| k in s && forall x | x in s :: x == k || KeyLess(k, x);
      [k] + InOrder(s - {k})
  }

  lemma {:induction false} InOrderSorts(s: set<Key>)
    ensures Ascending(InOrder(s)) && forall k :: k in InOrder(s) <==> k in s
    decreases |s|
  {
    hide KeyLess;
    if s != {} {
      LeastExists(s);
      var keys := InOrder(s);
      var k := keys[0];
      InOrderSorts(s - {k});
      assert keys == [k] + InOrder(s - {k});
      AscendingBehind(k, InOrder(s - {k}));
    }
  }

  lemma AscendingBehind(k: Key, keys: seq<Key>)
    requires Ascending(keys) && forall x | x in keys :: KeyLess(k, x)
    ensures Ascending([k] + keys)
  {
  }

  lemma {:induction false} AscendingIsUnique(a: seq<Key>, b: seq<Key>)
    requires Ascending(a) && Ascending(b) && forall k :: k in a <==> k in b
    ensures a == b
  {
    hide KeyLess;
    assert b != [] ==> b[0] in b;
    if a != [] {
      assert a[0] in b && (b != [] ==> b[0] in a);
      KeyOrder(a[0], b[0], a[0]);
      assert a[0] == b[0] by {
        var i :| 0 <= i < |a| && a[i] == b[0];
        var j :| 0 <= j < |b| && b[j] == a[0];
      }
      forall k ensures k in a[1..] <==> k in b[1..] {
        KeyOrder(k, k, k);
        assert k in a <==> k == a[0] || k in a[1..];
        assert k in b <==> k == b[0] || k in b[1..];
      }
      AscendingIsUnique(a[1..], b[1..]);
      assert a == [a[0]] + a[1..] && b == [b[0]] + b[1..];
    }
  }

  function InsertKey(k: Key, keys: seq<Key>): seq<Key> {
    if keys == [] || KeyLess(k, keys[0]) then [k] + keys else [keys[0]] + InsertKey(k, keys[1..])
  }

  /** sort.Slice; the keys are distinct, so its instability does not show. */
  function SortKeys(keys: seq<Key>): seq<Key> {
    if keys == [] then [] else InsertKey(keys[0], SortKeys(keys[1..]))
  }

  lemma {:induction false} InsertKeySorts(k: Key, keys: seq<Key>)
    requires Ascending(keys) && k !in keys
    ensures Ascending(InsertKey(k, keys)) && forall x :: x in InsertKey(k, keys) <==> x == k || x in keys
  {
    hide KeyLess;
    if keys != [] {
      KeyOrder(k, keys[0], keys[0]);
      if KeyLess(k, keys[0]) {
        forall j | 0 < j < |keys| ensures KeyLess(k, keys[j]) {
          KeyOrder(k, keys[0], keys[j]);
        }
        AscendingBehind(k, keys);
      } else {
        InsertKeySorts(k, keys[1..]);
        assert keys == [keys[0]] + keys[1..];
        AscendingBehind(keys[0], InsertKey(k, keys[1..]));
      }
    }
  }

  ghost predicate Unlike(keys: seq<Key>) {
    forall i, j | 0 <= i < j < |keys| :: keys[i] != keys[j]
  }

  lemma {:induction false} SortKeysSorts(keys: seq<Key>)
    requires Unlike(keys)
    ensures Ascending(SortKeys(keys)) && forall k :: k in SortKeys(keys) <==> k in keys
  {
    hide KeyLess, Ascending;
    if keys == [] {
      NoKeys();
    } else {
      SortKeysSorts(keys[1..]);
      InsertKeySorts(keys[0], SortKeys(keys[1..]));
      assert keys == [keys[0]] + keys[1..];
    }
  }

  lemma NoKeys()
    ensures Ascending([])
  {
  }

  ghost function KeySet(groups: seq<Groups>): set<Key> {
    if groups == [] then {} else KeySet(groups[..|groups| - 1]) + groups[|groups| - 1].Keys
  }

  lemma NoKeySet()
    ensures KeySet([]) == {}
  {
  }

  lemma KeySetNext(groups: seq<Groups>, i: nat)
    requires i < |groups|
    ensures KeySet(groups[..i + 1]) == KeySet(groups[..i]) + groups[i].Keys
  {
    assert groups[..i + 1][..i] == groups[..i];
  }

  /** sortedKeys. The order in which a map yields its keys is arbitrary. */
  method SortedKeys(groups: seq<Groups>) returns (sorted: seq<Key>)
    ensures sorted == InOrder(KeySet(groups))
    ensures InReportOrder(sorted) && forall k :: k in sorted <==> exists g | g in groups :: k in g
  {
    hide KeySet, InOrder, SortKeys, Lists, InReportOrder, Ascending;
    NoKeySet();
    var seen: set<Key> := {};
    var keys: seq<Key> := [];
    ListsNone();
    for i := 0 to |groups|
      invariant seen == KeySet(groups[..i])
      invariant Lists(keys, seen)
    {
      KeySetNext(groups, i);
      var rest := groups[i].Keys;
      var before := seen;
      while rest != {}
        invariant rest <= groups[i].Keys
        invariant seen == before + (groups[i].Keys - rest)
        invariant Lists(keys, seen)
        decreases |rest|
      {
        var k :| k in rest;
        rest := rest - {k};
        if k !in seen {
          ListsNext(keys, seen, k);
          seen := seen + {k};
          keys := keys + [k];
        }
      }
    }
    assert groups[..|groups|] == groups;
    sorted := SortKeys(keys);
    ListsSorted(keys, seen);
    InOrderSorts(seen);
    AscendingReports(sorted);
    KeySetMeaning(groups);
  }

  lemma {:induction false} KeySetMeaning(groups: seq<Groups>)
    ensures forall k :: k in KeySet(groups) <==> exists g | g in groups :: k in g
  {
    if groups != [] {
      var n := |groups| - 1;
      KeySetMeaning(groups[..n]);
      assert groups == groups[..n] + [groups[n]];
    }
  }

  /** keys lists the set, each key once. */
  ghost predicate Lists(keys: seq<Key>, s: set<Key>) {
    Unlike(keys) && forall k :: k in keys <==> k in s
  }

  lemma ListsNone()
    ensures Lists([], {})
  {
  }

  lemma ListsNext(keys: seq<Key>, s: set<Key>, k: Key)
    requires Lists(keys, s) && k !in s
    ensures Lists(keys + [k], s + {k})
  {
  }

  lemma ListsSorted(keys: seq<Key>, s: set<Key>)
    requires Lists(keys, s)
    ensures SortKeys(keys) == InOrder(s)
  {
    hide KeyLess, InOrder, SortKeys, Ascending;
    SortKeysSorts(keys);
    InOrderSorts(s);
    AscendingIsUnique(SortKeys(keys), InOrder(s));
  }

  // ----- Counting -----

  /** Counts under keys; one key may come several times. */
  type Weights = seq<(Key, nat)>

  /** The count under one key. */
  function Weight(ws: Weights, k: Key): nat {
    if ws == [] then 0
    else
      var n := |ws| - 1;
      Weight(ws[..n], k) + (if ws[n].0 == k then ws[n].1 else 0)
  }

  /** The count under the keys of interest. */
  function Total(ws: Weights, p: Key -> bool): nat {
    if ws == [] then 0
    else
      var n := |ws| - 1;
      Total(ws[..n], p) + (if p(ws[n].0) then ws[n].1 else 0)
  }

  lemma {:induction false} WeightConcat(a: Weights, b: Weights, k: Key)
    ensures Weight(a + b, k) == Weight(a, k) + Weight(b, k)
  {
    if b == [] {
      assert a + b == a;
    } else {
      var n := |b| - 1;
      WeightConcat(a, b[..n], k);
      assert (a + b)[..|a + b| - 1] == a + b[..n] && (a + b)[|a + b| - 1] == b[n];
    }
  }

  lemma {:induction false} TotalConcat(a: Weights, b: Weights, p: Key -> bool)
    ensures Total(a + b, p) == Total(a, p) + Total(b, p)
  {
    if b == [] {
      assert a + b == a;
    } else {
      var n := |b| - 1;
      TotalConcat(a, b[..n], p);
      assert (a + b)[..|a + b| - 1] == a + b[..n] && (a + b)[|a + b| - 1] == b[n];
    }
  }

  /** The sum over a list of keys. */
  function SumOver(keys: seq<Key>, ws: Weights, p: Key -> bool): nat {
    if keys == [] then 0
    else
      var n := |keys| - 1;
      SumOver(keys[..n], ws, p) + (if p(keys[n]) then Weight(ws, keys[n]) else 0)
  }

  lemma {:induction false} SumOfNone(keys: seq<Key>, p: Key -> bool)
    ensures SumOver(keys, [], p) == 0
  {
    if keys != [] {
      SumOfNone(keys[..|keys| - 1], p);
    }
  }

  lemma {:induction false} SumNext(keys: seq<Key>, ws: Weights, p: Key -> bool)
    requires ws != [] && Unlike(keys)
    ensures var n := |ws| - 1;
      SumOver(keys, ws, p) == SumOver(keys, ws[..n], p) + (if ws[n].0 in keys && p(ws[n].0) then ws[n].1 else 0)
  {
    if keys != [] {
      var m := |keys| - 1;
      SumNext(keys[..m], ws, p);
      assert ws[|ws| - 1].0 in keys <==> ws[|ws| - 1].0 in keys[..m] || ws[|ws| - 1].0 == keys[m];
    }
  }

  lemma {:induction false} TotalIsSum(keys: seq<Key>, ws: Weights, p: Key -> bool)
    requires Unlike(keys) && forall w | w in ws :: w.0 in keys
    ensures Total(ws, p) == SumOver(keys, ws, p)
  {
    if ws == [] {
      SumOfNone(keys, p);
    } else {
      hide SumOver;
      var n := |ws| - 1;
      TotalIsSum(keys, ws[..n], p);
      SumNext(keys, ws, p);
      assert ws[n] in ws;
    }
  }

  lemma {:induction false} SameSums(keys: seq<Key>, a: Weights, b: Weights, p: Key -> bool)
    requires forall k :: Weight(a, k) == Weight(b, k)
    ensures SumOver(keys, a, p) == SumOver(keys, b, p)
  {
    hide Weight;
    if keys != [] {
      SameSums(keys[..|keys| - 1], a, b, p);
    }
  }

  lemma AscendingUnlike(keys: seq<Key>)
    requires Ascending(keys)
    ensures Unlike(keys)
  {
    hide KeyLess;
    forall i, j | 0 <= i < j < |keys| ensures keys[i] != keys[j] {
      KeyOrder(keys[i], keys[j], keys[i]);
    }
  }

  /** Lists with the same count under every key have the same count under any choice of keys. */
  lemma TotalsAgree(a: Weights, b: Weights, p: Key -> bool)
    requires forall k :: Weight(a, k) == Weight(b, k)
    ensures Total(a, p) == Total(b, p)
  {
    hide KeyLess, Total, SumOver, InOrder, Ascending, Weight;
    var s := set w | w in a + b :: w.0;
    InOrderSorts(s);
    AscendingUnlike(InOrder(s));
    TotalIsSum(InOrder(s), a, p);
    TotalIsSum(InOrder(s), b, p);
    SameSums(InOrder(s), a, b, p);
  }

  /** Each diagnostic counts one. */
  function Ones(ds: seq<Diagnostic>): Weights {
    seq(|ds|, i requires 0 <= i < |ds| => (KeyOf(ds[i]), 1))
  }

  lemma {:induction false} WeightOfOnes(ds: seq<Diagnostic>, k: Key)
    ensures Weight(Ones(ds), k) == |OfKey(ds, k)|
  {
    if ds != [] {
      var n := |ds| - 1;
      WeightOfOnes(ds[..n], k);
      assert Ones(ds)[..n] == Ones(ds[..n]);
    }
  }

  predicate Every(k: Key) { true }

  lemma {:induction false} TotalOfOnes(ds: seq<Diagnostic>)
    ensures Total(Ones(ds), Every) == |ds|
  {
    if ds != [] {
      var n := |ds| - 1;
      TotalOfOnes(ds[..n]);
      assert Ones(ds)[..n] == Ones(ds[..n]);
    }
  }

  /** The keys of a list of diagnostics. */
  function KeysOf(ds: seq<Diagnostic>): seq<Key> {
    seq(|ds|, i requires 0 <= i < |ds| => KeyOf(ds[i]))
  }

  lemma {:induction false} CountIsMultiplicity(ds: seq<Diagnostic>, k: Key)
    ensures |OfKey(ds, k)| == multiset(KeysOf(ds))[k]
  {
    if ds != [] {
      var n := |ds| - 1;
      CountIsMultiplicity(ds[..n], k);
      assert KeysOf(ds) == KeysOf(ds[..n]) + [KeyOf(ds[n])];
    }
  }
}
