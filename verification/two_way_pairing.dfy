/** Which severities the two-way comparison pairs (cmd/pilot-diff/report.go): leftovers meet greedily in
    report order, and that determines every pair. */
module TwoWayPairing {
  import opened Diagnostics
  import opened TwoWay
  import opened TwoWayLaws

  /** The count of the entries of interest. */
  function CountIf(es: seq<SeverityEntry>, p: SeverityEntry -> bool): nat {
    if es == [] then 0
    else
      var n := |es| - 1;
      CountIf(es[..n], p) + (if p(es[n]) then es[n].count else 0)
  }

  /** Pairs of our key with their key. */
  function Pair(k: Key, other: Key): SeverityEntry -> bool {
    (e: SeverityEntry) => e.OurKey() == k && e.TheirKey() == other
  }

  /** Pairs of our key with their keys that come earlier. */
  function EarlierTheirs(k: Key, other: Key): SeverityEntry -> bool {
    (e: SeverityEntry) => e.OurKey() == k && KeyLess(e.TheirKey(), other)
  }

  /** Pairs of their key with our keys that come earlier. */
  function EarlierOurs(k: Key, other: Key): SeverityEntry -> bool {
    (e: SeverityEntry) => e.TheirKey() == other && KeyLess(e.OurKey(), k)
  }

  /** As much is paired as both sides have left when their turn comes. */
  ghost predicate Greedy(es: seq<SeverityEntry>, a: nat, b: nat, k: Key, other: Key) {
    var mine, yours := a - CountIf(es, EarlierTheirs(k, other)), b - CountIf(es, EarlierOurs(k, other));
    0 <= mine && 0 <= yours && CountIf(es, Pair(k, other)) == Min(mine, yours)
  }

  /** First by our key, then by theirs. */
  predicate PairLess(k: Key, other: Key, k2: Key, other2: Key) {
    KeyLess(k, k2) || (k == k2 && KeyLess(other, other2))
  }

  ghost predicate InPairOrder(es: seq<SeverityEntry>) {
    forall i, j | 0 <= i < j < |es| :: PairLess(es[i].OurKey(), es[i].TheirKey(), es[j].OurKey(), es[j].TheirKey())
  }

  ghost predicate AllBefore(es: seq<SeverityEntry>, k: Key, other: Key) {
    forall e | e in es :: PairLess(e.OurKey(), e.TheirKey(), k, other)
  }

  /** Nothing of the start is lost: what is paired and what is left add up under every key. */
  ghost predicate AddsUp(start: Left, s: Left) {
    && (forall e | e in s.mismatch :: e.count == |e.ours| == |e.theirs|)
    && (forall x :: |MismatchOurs(s.mismatch, x)| + |At(s.ours, x)| == |At(start.ours, x)|)
    && (forall x :: |MismatchTheirs(s.mismatch, x)| + |At(s.theirs, x)| == |At(start.theirs, x)|)
  }

  lemma CountNext(es: seq<SeverityEntry>, e: SeverityEntry, p: SeverityEntry -> bool)
    ensures CountIf(es + [e], p) == CountIf(es, p) + if p(e) then e.count else 0
  {
    assert (es + [e])[..|es|] == es;
  }

  lemma {:induction false} CountNone(es: seq<SeverityEntry>, p: SeverityEntry -> bool)
    requires forall e | e in es :: !p(e)
    ensures CountIf(es, p) == 0
  {
    if es != [] { CountNone(es[..|es| - 1], p); }
  }

  /** Where all pairs of a key are earlier ones, they are all its mismatches. */
  lemma {:induction false} EarlierIsAll(es: seq<SeverityEntry>, k: Key, other: Key)
    requires AllBefore(es, k, other) && forall e | e in es :: e.count == |e.ours| == |e.theirs|
    ensures CountIf(es, EarlierTheirs(k, other)) == |MismatchOurs(es, k)|
    ensures CountIf(es, EarlierOurs(k, other)) == |MismatchTheirs(es, other)|
  {
    hide KeyLess;
    if es != [] {
      var n := |es| - 1;
      EarlierIsAll(es[..n], k, other);
      var e := es[n];
      assert es == es[..n] + [e];
      MismatchNext(es[..n], e, k);
      MismatchNext(es[..n], e, other);
      KeyOrder(e.OurKey(), k, k);
      KeyOrder(e.TheirKey(), other, other);
      assert PairLess(e.OurKey(), e.TheirKey(), k, other);
    }
  }

  lemma NoPairYet(es: seq<SeverityEntry>, k: Key, other: Key)
    requires AllBefore(es, k, other)
    ensures CountIf(es, Pair(k, other)) == 0
  {
    hide KeyLess;
    KeyOrder(k, k, k);
    KeyOrder(other, other, other);
    CountNone(es, Pair(k, other));
  }

  lemma PairAdded(es: seq<SeverityEntry>, e: SeverityEntry, k: Key, other: Key)
    requires e.OurKey() == k && e.TheirKey() == other
    ensures CountIf(es + [e], Pair(k, other)) == CountIf(es, Pair(k, other)) + e.count
    ensures CountIf(es + [e], EarlierTheirs(k, other)) == CountIf(es, EarlierTheirs(k, other))
    ensures CountIf(es + [e], EarlierOurs(k, other)) == CountIf(es, EarlierOurs(k, other))
  {
    hide KeyLess, CountIf;
    KeyOrder(k, k, k);
    KeyOrder(other, other, other);
    CountNext(es, e, Pair(k, other));
    CountNext(es, e, EarlierTheirs(k, other));
    CountNext(es, e, EarlierOurs(k, other));
  }

  lemma StepPairs(start: Left, s: Left, k: Key, other: Key)
    requires AddsUp(start, s) && AllBefore(s.mismatch, k, other) && Compatible(k, other)
    ensures Greedy(PairStep(s, k, other).mismatch, |At(start.ours, k)|, |At(start.theirs, other)|, k, other)
  {
    hide KeyLess, At, MismatchOurs, MismatchTheirs, CountIf, AllBefore;
    EarlierIsAll(s.mismatch, k, other);
    NoPairYet(s.mismatch, k, other);
    var mine, yours := At(s.ours, k), At(s.theirs, other);
    var shared := Min(|mine|, |yours|);
    if shared > 0 {
      var e := SeverityEntry(k.line, k.category, k.severity, other.severity, shared, mine[..shared], yours[..shared]);
      PairAdded(s.mismatch, e, k, other);
    }
  }

  /** A later step leaves earlier pairs as they are. */
  lemma StepKeeps(s: Left, k: Key, other: Key, a: nat, b: nat, k2: Key, other2: Key)
    requires PairLess(k2, other2, k, other) && Greedy(s.mismatch, a, b, k2, other2)
    ensures Greedy(PairStep(s, k, other).mismatch, a, b, k2, other2)
  {
    hide KeyLess, At;
    var mine, yours := At(s.ours, k), At(s.theirs, other);
    var shared := Min(|mine|, |yours|);
    if Compatible(k, other) && shared > 0 {
      var e := SeverityEntry(k.line, k.category, k.severity, other.severity, shared, mine[..shared], yours[..shared]);
      assert e.OurKey() == k && e.TheirKey() == other;
      KeyOrder(k2, k, k2);
      KeyOrder(other2, other, other2);
      CountNext(s.mismatch, e, Pair(k2, other2));
      CountNext(s.mismatch, e, EarlierTheirs(k2, other2));
      CountNext(s.mismatch, e, EarlierOurs(k2, other2));
    }
  }

  /** One step keeps the order of the pairs and adds none but itself. */
  lemma StepInOrder(s: Left, k: Key, other: Key)
    requires InPairOrder(s.mismatch) && AllBefore(s.mismatch, k, other)
    ensures var t := PairStep(s, k, other);
      InPairOrder(t.mismatch) && forall e | e in t.mismatch :: e in s.mismatch || (e.OurKey() == k && e.TheirKey() == other)
  {
    hide KeyLess, At, PairLess;
    var t := PairStep(s, k, other);
    forall i, j | 0 <= i < j < |t.mismatch|
      ensures PairLess(t.mismatch[i].OurKey(), t.mismatch[i].TheirKey(), t.mismatch[j].OurKey(), t.mismatch[j].TheirKey())
    {
      if j == |s.mismatch| { assert s.mismatch[i] in s.mismatch; }
    }
  }

  lemma StepAddsUp(start: Left, s: Left, k: Key, other: Key)
    requires AddsUp(start, s)
    ensures AddsUp(start, PairStep(s, k, other))
  {
    hide At, MismatchOurs, MismatchTheirs;
    var t := PairStep(s, k, other);
    forall x ensures |MismatchOurs(t.mismatch, x)| + |At(t.ours, x)| == |At(start.ours, x)| &&
      |MismatchTheirs(t.mismatch, x)| + |At(t.theirs, x)| == |At(start.theirs, x)|
    {
      PairConserves(s, k, other, x);
      SameLength(MismatchOurs(t.mismatch, x), At(t.ours, x), MismatchOurs(s.mismatch, x), At(s.ours, x));
      SameLength(MismatchTheirs(t.mismatch, x), At(t.theirs, x), MismatchTheirs(s.mismatch, x), At(s.theirs, x));
    }
  }

  lemma SameLength<T>(a: seq<T>, b: seq<T>, c: seq<T>, d: seq<T>)
    requires a + b == c + d
    ensures |a| + |b| == |c| + |d|
  {
    assert |a + b| == |c + d|;
  }

  /** The pairs of the keys up to k are settled, those with k as far as `others` goes. */
  ghost predicate RowDone(start: Left, t: Left, k: Key, others: seq<Key>) {
    && AddsUp(start, t) && InPairOrder(t.mismatch)
    && (forall e | e in t.mismatch :: KeyLess(e.OurKey(), k) || (e.OurKey() == k && e.TheirKey() in others))
    && (forall o | o in others && Compatible(k, o) :: Greedy(t.mismatch, |At(start.ours, k)|, |At(start.theirs, o)|, k, o))
  }

  lemma RowBefore(t: Left, k: Key, others: seq<Key>, n: nat)
    requires n < |others| && Ascending(others)
    requires forall e | e in t.mismatch :: KeyLess(e.OurKey(), k) || (e.OurKey() == k && e.TheirKey() in others[..n])
    ensures AllBefore(t.mismatch, k, others[n])
    ensures forall o | o in others[..n] :: PairLess(k, o, k, others[n])
  {
    hide KeyLess;
    forall o | o in others[..n] ensures KeyLess(o, others[n]) {
      var i :| 0 <= i < n && others[i] == o;
    }
  }

  lemma {:induction false} RowPairs(start: Left, s: Left, k: Key, others: seq<Key>)
    requires Ascending(others) && AddsUp(start, s) && InPairOrder(s.mismatch)
    requires forall e | e in s.mismatch :: KeyLess(e.OurKey(), k)
    ensures RowDone(start, Row(s, k, others), k, others)
    ensures forall e | e in Row(s, k, others).mismatch :: e in s.mismatch || e.OurKey() == k
  {
    hide KeyLess, Ascending, AddsUp, InPairOrder, Greedy, PairLess, PairStep, At, AllBefore;
    if others != [] {
      var n := |others| - 1;
      var before, other := Row(s, k, others[..n]), others[n];
      AscendingPrefix(others, n);
      RowPairs(start, s, k, others[..n]);
      RowBefore(before, k, others, n);
      StepInOrder(before, k, other);
      StepAddsUp(start, before, k, other);
      assert others == others[..n] + [other];
      forall o | o in others && Compatible(k, o)
        ensures Greedy(PairStep(before, k, other).mismatch, |At(start.ours, k)|, |At(start.theirs, o)|, k, o)
      {
        if o in others[..n] {
          StepKeeps(before, k, other, |At(start.ours, k)|, |At(start.theirs, o)|, k, o);
        } else {
          StepPairs(start, before, k, other);
        }
      }
    }
  }

  lemma {:induction false} RowKeeps(s: Left, k: Key, others: seq<Key>, a: nat, b: nat, k2: Key, other2: Key)
    requires KeyLess(k2, k) && Greedy(s.mismatch, a, b, k2, other2)
    ensures Greedy(Row(s, k, others).mismatch, a, b, k2, other2)
  {
    hide KeyLess, Greedy, PairStep;
    if others != [] {
      var n := |others| - 1;
      RowKeeps(s, k, others[..n], a, b, k2, other2);
      StepKeeps(Row(s, k, others[..n]), k, others[n], a, b, k2, other2);
    }
  }

  /** All pairs of these keys are settled. */
  ghost predicate Done(start: Left, t: Left, keys: seq<Key>, others: seq<Key>) {
    && AddsUp(start, t) && InPairOrder(t.mismatch)
    && (forall e | e in t.mismatch :: e.OurKey() in keys)
    && (forall k, o | k in keys && o in others && Compatible(k, o) ::
          Greedy(t.mismatch, |At(start.ours, k)|, |At(start.theirs, o)|, k, o))
  }

  lemma {:induction false} RowsPair(start: Left, keys: seq<Key>, others: seq<Key>)
    requires start.mismatch == [] && Ascending(keys) && Ascending(others)
    ensures Done(start, Rows(start, keys, others), keys, others)
  {
    hide KeyLess, AddsUp, InPairOrder, Greedy, Row, At, Compatible;
    if keys == [] {
      NothingPaired(start);
    } else {
      var n := |keys| - 1;
      var before, k := Rows(start, keys[..n], others), keys[n];
      AscendingPrefix(keys, n);
      RowsPair(start, keys[..n], others);
      forall x | x in keys[..n] ensures KeyLess(x, k) {
        var i :| 0 <= i < n && keys[i] == x;
      }
      RowPairs(start, before, k, others);
      var t := Row(before, k, others);
      assert keys == keys[..n] + [k];
      forall x, o | x in keys && o in others && Compatible(x, o)
        ensures Greedy(t.mismatch, |At(start.ours, x)|, |At(start.theirs, o)|, x, o)
      {
        if x in keys[..n] {
          RowKeeps(before, k, others, |At(start.ours, x)|, |At(start.theirs, o)|, x, o);
        }
      }
    }
  }

  lemma NothingPaired(start: Left)
    requires start.mismatch == []
    ensures AddsUp(start, start) && InPairOrder(start.mismatch)
  {
    hide At;
  }

  lemma {:induction false} CountsWithin(es: seq<SeverityEntry>, k: Key, other: Key)
    requires forall e | e in es :: e.count == |e.ours| == |e.theirs|
    ensures CountIf(es, Pair(k, other)) <= |MismatchOurs(es, k)| && CountIf(es, EarlierTheirs(k, other)) <= |MismatchOurs(es, k)|
    ensures CountIf(es, Pair(k, other)) <= |MismatchTheirs(es, other)| && CountIf(es, EarlierOurs(k, other)) <= |MismatchTheirs(es, other)|
  {
    hide KeyLess;
    if es != [] {
      var n := |es| - 1;
      CountsWithin(es[..n], k, other);
      assert es == es[..n] + [es[n]];
      MismatchNext(es[..n], es[n], k);
      MismatchNext(es[..n], es[n], other);
    }
  }

  /** A key with nothing left over is in no pair. */
  lemma NothingLeftOver(start: Left, t: Left, k: Key, other: Key)
    requires AddsUp(start, t) && (At(start.ours, k) == [] || At(start.theirs, other) == [])
    ensures Greedy(t.mismatch, |At(start.ours, k)|, |At(start.theirs, other)|, k, other)
  {
    hide At, MismatchOurs, MismatchTheirs, CountIf;
    CountsWithin(t.mismatch, k, other);
    assert |MismatchOurs(t.mismatch, k)| <= |At(start.ours, k)|;
    assert |MismatchTheirs(t.mismatch, other)| <= |At(start.theirs, other)|;
  }

  /** What is left of a key on our side, and on theirs, once equal keys are matched. */
  lemma LeftCounts(ours: seq<Diagnostic>, theirs: seq<Diagnostic>, k: Key)
    ensures var f := FirstOf(ours, theirs);
      && |At(f.ours, k)| == |OfKey(ours, k)| - Min(|OfKey(ours, k)|, |OfKey(theirs, k)|)
      && |At(f.theirs, k)| == |OfKey(theirs, k)| - Min(|OfKey(ours, k)|, |OfKey(theirs, k)|)
  {
    hide FirstOf, Grouped, OfKey, EntryOurs, EntryTheirs;
    FirstOfSplits(ours, theirs, k);
    GroupedMeaning(ours, k);
    GroupedMeaning(theirs, k);
  }

  /** Severity mismatches come by our key, then theirs, each pair once; and a pair of severities at one
      place counts as much as both sides have left when all earlier pairs are made. */
  lemma PairingIsGreedy(rel: string, ours: seq<Diagnostic>, theirs: seq<Diagnostic>, k: Key, other: Key)
    requires k.line == other.line && k.category == other.category && k.severity != other.severity
    ensures InPairOrder(Compared(rel, ours, theirs).mismatch)
    ensures Greedy(Compared(rel, ours, theirs).mismatch,
                   |OfKey(ours, k)| - Min(|OfKey(ours, k)|, |OfKey(theirs, k)|),
                   |OfKey(theirs, other)| - Min(|OfKey(ours, other)|, |OfKey(theirs, other)|), k, other)
  {
    hide FirstOf, Rows, InOrder, Greedy, InPairOrder, AddsUp, OfKey, Ascending, Min;
    var f := FirstOf(ours, theirs);
    var start := Left([], f.ours, f.theirs);
    LeftCounts(ours, theirs, k);
    LeftCounts(ours, theirs, other);
    InOrderSorts(f.ours.Keys);
    InOrderSorts(f.theirs.Keys);
    RowsPair(start, InOrder(f.ours.Keys), InOrder(f.theirs.Keys));
    if k !in f.ours || other !in f.theirs {
      NothingLeftOver(start, SecondOf(f), k, other);
    }
  }
}
