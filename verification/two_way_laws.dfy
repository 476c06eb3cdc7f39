/** The two-way comparison loses no diagnostic and matches as many as can be matched. */
module TwoWayLaws {
  import opened Diagnostics
  import opened TwoWay

  // ----- What entries account for -----

  function EntryOurs(es: seq<Entry>, k: Key): seq<Diagnostic> {
    if es == [] then []
    else
      var n := |es| - 1;
      EntryOurs(es[..n], k) + (if es[n].key == k then es[n].ours else [])
  }

  function EntryTheirs(es: seq<Entry>, k: Key): seq<Diagnostic> {
    if es == [] then []
    else
      var n := |es| - 1;
      EntryTheirs(es[..n], k) + (if es[n].key == k then es[n].theirs else [])
  }

  function MismatchOurs(es: seq<SeverityEntry>, k: Key): seq<Diagnostic> {
    if es == [] then []
    else
      var n := |es| - 1;
      MismatchOurs(es[..n], k) + (if es[n].OurKey() == k then es[n].ours else [])
  }

  function MismatchTheirs(es: seq<SeverityEntry>, k: Key): seq<Diagnostic> {
    if es == [] then []
    else
      var n := |es| - 1;
      MismatchTheirs(es[..n], k) + (if es[n].TheirKey() == k then es[n].theirs else [])
  }

  lemma EntryNext(es: seq<Entry>, e: Entry, k: Key)
    ensures EntryOurs(es + [e], k) == EntryOurs(es, k) + (if e.key == k then e.ours else [])
    ensures EntryTheirs(es + [e], k) == EntryTheirs(es, k) + (if e.key == k then e.theirs else [])
    ensures EntryOurs([], k) == [] && EntryTheirs([], k) == []
  {
    assert (es + [e])[..|es|] == es;
  }

  lemma MismatchNext(es: seq<SeverityEntry>, e: SeverityEntry, k: Key)
    ensures MismatchOurs(es + [e], k) == MismatchOurs(es, k) + (if e.OurKey() == k then e.ours else [])
    ensures MismatchTheirs(es + [e], k) == MismatchTheirs(es, k) + (if e.TheirKey() == k then e.theirs else [])
    ensures MismatchOurs([], k) == [] && MismatchTheirs([], k) == []
  {
    assert (es + [e])[..|es|] == es;
  }

  // ----- The first pass -----

  /** The first pass splits each group: the agreed front, the rest, which one side lacks. */
  ghost predicate SplitAt(f: First, ours: Groups, theirs: Groups, k: Key) {
    var shared := Min(|At(ours, k)|, |At(theirs, k)|);
    && EntryOurs(f.agreement, k) == At(ours, k)[..shared] && At(f.ours, k) == At(ours, k)[shared..]
    && EntryTheirs(f.agreement, k) == At(theirs, k)[..shared] && At(f.theirs, k) == At(theirs, k)[shared..]
  }

  ghost predicate UnseenAt(f: First, k: Key) {
    EntryOurs(f.agreement, k) == EntryTheirs(f.agreement, k) == At(f.ours, k) == At(f.theirs, k) == []
  }

  lemma FirstStepAt(f: First, key: Key, mine: seq<Diagnostic>, yours: seq<Diagnostic>, k: Key)
    ensures var g := FirstStep(f, key, mine, yours);
      var shared := Min(|mine|, |yours|);
      if k == key && UnseenAt(f, k) then
        && EntryOurs(g.agreement, k) == mine[..shared] && At(g.ours, k) == mine[shared..]
        && EntryTheirs(g.agreement, k) == yours[..shared] && At(g.theirs, k) == yours[shared..]
      else
        k != key ==>
          && EntryOurs(g.agreement, k) == EntryOurs(f.agreement, k) && At(g.ours, k) == At(f.ours, k)
          && EntryTheirs(g.agreement, k) == EntryTheirs(f.agreement, k) && At(g.theirs, k) == At(f.theirs, k)
  {
    hide EntryOurs, EntryTheirs;
    var shared := Min(|mine|, |yours|);
    EntryNext(f.agreement, Entry(key, shared, mine[..shared], yours[..shared]), k);
    assert [] + mine[..shared] == mine[..shared] && [] + yours[..shared] == yours[..shared];
    Halves(EntryOurs(f.agreement, k), [], 0);
    Halves(EntryTheirs(f.agreement, k), [], 0);
  }

  lemma {:induction false} FirstSplits(ours: Groups, theirs: Groups, keys: seq<Key>, k: Key)
    requires Unlike(keys)
    ensures var f := FirstPass(ours, theirs, keys);
      if k in keys then SplitAt(f, ours, theirs, k) else UnseenAt(f, k)
  {
    hide FirstPass, EntryOurs, EntryTheirs, FirstStep, At;
    if keys == [] {
      FirstNone(ours, theirs);
      EntryNext([], Entry(k, 0, [], []), k);
      AtNone(k);
    } else {
      var n := |keys| - 1;
      FirstSplits(ours, theirs, keys[..n], k);
      FirstNext(ours, theirs, keys, n);
      assert keys[..n + 1] == keys;
      FirstStepAt(FirstPass(ours, theirs, keys[..n]), keys[n], At(ours, keys[n]), At(theirs, keys[n]), k);
      assert k in keys <==> k in keys[..n] || k == keys[n];
    }
  }

  lemma AtNone(k: Key)
    ensures At(map[], k) == []
  {
  }

  /** An agreement entry: as many of ours as of theirs, all with its key. */
  ghost predicate Agrees(e: Entry) {
    && e.count == |e.ours| == |e.theirs| > 0
    && forall d | d in e.ours + e.theirs :: KeyOf(d) == e.key
  }

  /** The groups hold what their keys say. */
  ghost predicate Sorted(g: Groups) {
    forall k | k in g :: forall d | d in g[k] :: KeyOf(d) == k
  }

  lemma GroupedSorted(ds: seq<Diagnostic>)
    ensures Sorted(Grouped(ds))
  {
    hide Grouped, OfKey;
    forall k | k in Grouped(ds) ensures forall d | d in Grouped(ds)[k] :: KeyOf(d) == k {
      GroupedMeaning(ds, k);
    }
  }

  lemma {:induction false} FirstAgrees(ours: Groups, theirs: Groups, keys: seq<Key>)
    requires Sorted(ours) && Sorted(theirs) && Ascending(keys)
    ensures var f := FirstPass(ours, theirs, keys);
      && Sorted(f.ours) && Sorted(f.theirs)
      && (forall e | e in f.agreement :: Agrees(e) && e.key in keys)
      && Ascending(EntryKeys(f.agreement))
  {
    hide FirstPass, Ascending, KeyOf, EntryKeys;
    if keys == [] {
      NoKeys();
      NoEntryKeys();
      FirstNone(ours, theirs);
    } else {
      var n := |keys| - 1;
      AscendingPrefix(keys, n);
      FirstAgrees(ours, theirs, keys[..n]);
      FirstNext(ours, theirs, keys, n);
      assert keys[..n + 1] == keys;
      var shared := Min(|At(ours, keys[n])|, |At(theirs, keys[n])|);
      AscendingEntries(FirstPass(ours, theirs, keys[..n]).agreement, keys,
                       Entry(keys[n], shared, At(ours, keys[n])[..shared], At(theirs, keys[n])[..shared]));
    }
  }

  lemma AscendingPrefix(keys: seq<Key>, n: nat)
    requires Ascending(keys) && n <= |keys|
    ensures Ascending(keys[..n])
  {
    hide KeyLess;
  }

  lemma NoEntryKeys()
    ensures EntryKeys([]) == []
  {
  }

  lemma AscendingEntries(es: seq<Entry>, keys: seq<Key>, e: Entry)
    requires keys != [] && Ascending(keys) && e.key == keys[|keys| - 1]
    requires Ascending(EntryKeys(es)) && forall x | x in es :: x.key in keys[..|keys| - 1]
    ensures Ascending(EntryKeys(es + [e]))
  {
    hide KeyLess;
    forall i | 0 <= i < |es| ensures KeyLess(es[i].key, e.key) {
      assert es[i] in es;
    }
    assert EntryKeys(es + [e]) == EntryKeys(es) + [e.key];
  }

  function EntryKeys(es: seq<Entry>): seq<Key> {
    seq(|es|, i requires 0 <= i < |es| => es[i].key)
  }

  // ----- The second pass -----

  /** Pairing moves diagnostics from what is left into the mismatches and loses none. */
  lemma PairConserves(s: Left, k: Key, other: Key, x: Key)
    ensures var t := PairStep(s, k, other);
      && MismatchOurs(t.mismatch, x) + At(t.ours, x) == MismatchOurs(s.mismatch, x) + At(s.ours, x)
      && MismatchTheirs(t.mismatch, x) + At(t.theirs, x) == MismatchTheirs(s.mismatch, x) + At(s.theirs, x)
      && (At(s.ours, x) == [] ==> At(t.ours, x) == []) && (At(s.theirs, x) == [] ==> At(t.theirs, x) == [])
  {
    hide MismatchOurs, MismatchTheirs;
    var mine, yours := At(s.ours, k), At(s.theirs, other);
    var shared := Min(|mine|, |yours|);
    MismatchNext(s.mismatch, SeverityEntry(k.line, k.category, k.severity, other.severity, shared, mine[..shared], yours[..shared]), x);
    Halves(MismatchOurs(s.mismatch, x), mine, shared);
    Halves(MismatchTheirs(s.mismatch, x), yours, shared);
  }

  lemma Halves<T>(a: seq<T>, b: seq<T>, n: nat)
    requires n <= |b|
    ensures (a + b[..n]) + b[n..] == a + b
    ensures a + [] == a
  {
    assert b == b[..n] + b[n..];
  }

  lemma {:induction false} RowConserves(s: Left, k: Key, others: seq<Key>, x: Key)
    ensures var t := Row(s, k, others);
      && MismatchOurs(t.mismatch, x) + At(t.ours, x) == MismatchOurs(s.mismatch, x) + At(s.ours, x)
      && MismatchTheirs(t.mismatch, x) + At(t.theirs, x) == MismatchTheirs(s.mismatch, x) + At(s.theirs, x)
      && (At(s.ours, x) == [] ==> At(t.ours, x) == []) && (At(s.theirs, x) == [] ==> At(t.theirs, x) == [])
  {
    hide PairStep, MismatchOurs, MismatchTheirs;
    if others != [] {
      var n := |others| - 1;
      RowConserves(s, k, others[..n], x);
      PairConserves(Row(s, k, others[..n]), k, others[n], x);
    }
  }

  lemma {:induction false} RowsConserve(s: Left, keys: seq<Key>, others: seq<Key>, x: Key)
    ensures var t := Rows(s, keys, others);
      && MismatchOurs(t.mismatch, x) + At(t.ours, x) == MismatchOurs(s.mismatch, x) + At(s.ours, x)
      && MismatchTheirs(t.mismatch, x) + At(t.theirs, x) == MismatchTheirs(s.mismatch, x) + At(s.theirs, x)
      && (At(s.ours, x) == [] ==> At(t.ours, x) == []) && (At(s.theirs, x) == [] ==> At(t.theirs, x) == [])
  {
    hide Row, MismatchOurs, MismatchTheirs;
    if keys != [] {
      var n := |keys| - 1;
      RowsConserve(s, keys[..n], others, x);
      RowConserves(Rows(s, keys[..n], others), keys[n], others, x);
    }
  }

  /** A pair that was compared has leftovers on one side at most. */
  ghost predicate Met(s: Left, k: Key, other: Key) {
    Compatible(k, other) ==> At(s.ours, k) == [] || At(s.theirs, other) == []
  }

  lemma {:induction false} RowMeets(s: Left, k: Key, others: seq<Key>, other: Key)
    requires other in others
    ensures Met(Row(s, k, others), k, other)
  {
    hide MismatchOurs, MismatchTheirs;
    var n := |others| - 1;
    var before := Row(s, k, others[..n]);
    if other != others[n] {
      assert other in others[..n];
      RowMeets(s, k, others[..n], other);
      PairConserves(before, k, others[n], k);
      PairConserves(before, k, others[n], other);
    }
  }

  lemma {:induction false} RowsMeet(s: Left, keys: seq<Key>, others: seq<Key>, k: Key, other: Key)
    requires k in keys && other in others
    ensures Met(Rows(s, keys, others), k, other)
  {
    hide MismatchOurs, MismatchTheirs, Row;
    var n := |keys| - 1;
    var before := Rows(s, keys[..n], others);
    if k == keys[n] {
      RowMeets(before, k, others, other);
    } else {
      assert k in keys[..n];
      RowsMeet(s, keys[..n], others, k, other);
      RowConserves(before, keys[n], others, k);
      RowConserves(before, keys[n], others, other);
    }
  }

  /** A mismatch entry: one place, two severities, as many of ours as of theirs, each with its key. */
  ghost predicate Mismatches(e: SeverityEntry) {
    && e.ourSeverity != e.pilotSeverity && e.count == |e.ours| == |e.theirs| > 0
    && (forall d | d in e.ours :: KeyOf(d) == Key(e.line, e.ourSeverity, e.category))
    && (forall d | d in e.theirs :: KeyOf(d) == Key(e.line, e.pilotSeverity, e.category))
  }

  ghost predicate GoodLeft(s: Left) {
    Sorted(s.ours) && Sorted(s.theirs) && forall e | e in s.mismatch :: Mismatches(e)
  }

  lemma PairIsGood(s: Left, k: Key, other: Key)
    requires GoodLeft(s)
    ensures GoodLeft(PairStep(s, k, other))
  {
    hide KeyOf;
  }

  lemma {:induction false} RowIsGood(s: Left, k: Key, others: seq<Key>)
    requires GoodLeft(s)
    ensures GoodLeft(Row(s, k, others))
  {
    hide GoodLeft, PairStep;
    if others != [] {
      RowIsGood(s, k, others[..|others| - 1]);
      PairIsGood(Row(s, k, others[..|others| - 1]), k, others[|others| - 1]);
    }
  }

  lemma {:induction false} RowsAreGood(s: Left, keys: seq<Key>, others: seq<Key>)
    requires GoodLeft(s)
    ensures GoodLeft(Rows(s, keys, others))
  {
    hide GoodLeft, Row;
    if keys != [] {
      RowsAreGood(s, keys[..|keys| - 1], others);
      RowIsGood(Rows(s, keys[..|keys| - 1], others), keys[|keys| - 1], others);
    }
  }

  // ----- What is left -----

  lemma {:induction false} OnlyAccounts(left: Groups, keys: seq<Key>, k: Key)
    requires Unlike(keys)
    ensures EntryOurs(OnlyOurs(left, keys), k) == (if k in keys then At(left, k) else [])
    ensures EntryTheirs(OnlyTheirs(left, keys), k) == (if k in keys then At(left, k) else [])
  {
    hide OnlyOurs, OnlyTheirs, EntryOurs, EntryTheirs;
    OnlyNone(left);
    if keys == [] {
      EntryNext([], Entry(k, 0, [], []), k);
    } else {
      var n := |keys| - 1;
      OnlyAccounts(left, keys[..n], k);
      OnlyNext(left, keys, n);
      assert keys[..n + 1] == keys;
      var ds := At(left, keys[n]);
      EntryNext(OnlyOurs(left, keys[..n]), Entry(keys[n], |ds|, ds, []), k);
      EntryNext(OnlyTheirs(left, keys[..n]), Entry(keys[n], |ds|, [], ds), k);
      assert k in keys <==> k in keys[..n] || k == keys[n];
    }
  }

  /** One-sided entries. */
  ghost predicate OursAlone(e: Entry) {
    e.count == |e.ours| > 0 && e.theirs == [] && forall d | d in e.ours :: KeyOf(d) == e.key
  }

  ghost predicate TheirsAlone(e: Entry) {
    e.count == |e.theirs| > 0 && e.ours == [] && forall d | d in e.theirs :: KeyOf(d) == e.key
  }

  lemma {:induction false} OnlyIsGood(left: Groups, keys: seq<Key>)
    requires Sorted(left) && Ascending(keys)
    ensures forall e | e in OnlyOurs(left, keys) :: OursAlone(e) && e.key in keys
    ensures forall e | e in OnlyTheirs(left, keys) :: TheirsAlone(e) && e.key in keys
    ensures Ascending(EntryKeys(OnlyOurs(left, keys))) && Ascending(EntryKeys(OnlyTheirs(left, keys)))
  {
    hide OnlyOurs, OnlyTheirs, Ascending, KeyOf, EntryKeys;
    NoKeys();
    NoEntryKeys();
    OnlyNone(left);
    if keys != [] {
      var n := |keys| - 1;
      AscendingPrefix(keys, n);
      OnlyIsGood(left, keys[..n]);
      OnlyNext(left, keys, n);
      assert keys[..n + 1] == keys;
      var ds := At(left, keys[n]);
      AscendingEntries(OnlyOurs(left, keys[..n]), keys, Entry(keys[n], |ds|, ds, []));
      AscendingEntries(OnlyTheirs(left, keys[..n]), keys, Entry(keys[n], |ds|, [], ds));
    }
  }

  // ----- The report -----

  /** Every entry says what it accounts for; each list is in key order. */
  ghost predicate WellFormed(r: FileReport) {
    && (forall e | e in r.agreement :: Agrees(e)) && InReportOrder(EntryKeys(r.agreement))
    && (forall e | e in r.mismatch :: Mismatches(e))
    && (forall e | e in r.oursOnly :: OursAlone(e)) && InReportOrder(EntryKeys(r.oursOnly))
    && (forall e | e in r.pilotOnly :: TheirsAlone(e)) && InReportOrder(EntryKeys(r.pilotOnly))
  }

  lemma ReportWellFormed(rel: string, ours: seq<Diagnostic>, theirs: seq<Diagnostic>)
    ensures WellFormed(Compared(rel, ours, theirs)) && Compared(rel, ours, theirs).path == rel
  {
    hide Grouped, InOrder, FirstPass, Rows, OnlyOurs, OnlyTheirs, Ascending, InReportOrder, Agrees, Mismatches, OursAlone, TheirsAlone, Sorted;
    var og, tg := Grouped(ours), Grouped(theirs);
    GroupedSorted(ours);
    GroupedSorted(theirs);
    InOrderSorts(og.Keys + tg.Keys);
    FirstAgrees(og, tg, InOrder(og.Keys + tg.Keys));
    var f := FirstOf(ours, theirs);
    RowsAreGood(Left([], f.ours, f.theirs), InOrder(f.ours.Keys), InOrder(f.theirs.Keys));
    var s := SecondOf(f);
    InOrderSorts(s.ours.Keys);
    InOrderSorts(s.theirs.Keys);
    OnlyIsGood(s.ours, InOrder(s.ours.Keys));
    OnlyIsGood(s.theirs, InOrder(s.theirs.Keys));
    var r := Compared(rel, ours, theirs);
    AscendingReports(EntryKeys(r.agreement));
    AscendingReports(EntryKeys(r.oursOnly));
    AscendingReports(EntryKeys(r.pilotOnly));
  }

  /** Under each key, each side's diagnostics are, in order, those that agree, those that differ in
      severity only, and those left alone: each is in exactly one bucket. */
  lemma NothingLost(rel: string, ours: seq<Diagnostic>, theirs: seq<Diagnostic>, k: Key)
    ensures var r := Compared(rel, ours, theirs);
      && OfKey(ours, k) == EntryOurs(r.agreement, k) + MismatchOurs(r.mismatch, k) + EntryOurs(r.oursOnly, k)
      && OfKey(theirs, k) == EntryTheirs(r.agreement, k) + MismatchTheirs(r.mismatch, k) + EntryTheirs(r.pilotOnly, k)
      && |EntryOurs(r.agreement, k)| == |EntryTheirs(r.agreement, k)| == Min(|OfKey(ours, k)|, |OfKey(theirs, k)|)
  {
    hide Grouped, InOrder, FirstOf, SecondOf, Rows, OnlyOurs, OnlyTheirs, OfKey, EntryOurs, EntryTheirs, MismatchOurs, MismatchTheirs, At;
    GroupedMeaning(ours, k);
    GroupedMeaning(theirs, k);
    var f := FirstOf(ours, theirs);
    FirstOfSplits(ours, theirs, k);
    SecondConserves(f, k);
    var s := SecondOf(f);
    LeftAccounts(s.ours, k);
    LeftAccounts(s.theirs, k);
    var shared := Min(|OfKey(ours, k)|, |OfKey(theirs, k)|);
    ThreeParts(OfKey(ours, k), shared, MismatchOurs(s.mismatch, k), At(s.ours, k));
    ThreeParts(OfKey(theirs, k), shared, MismatchTheirs(s.mismatch, k), At(s.theirs, k));
  }

  lemma SecondConserves(f: First, k: Key)
    ensures var s := SecondOf(f);
      && MismatchOurs(s.mismatch, k) + At(s.ours, k) == [] + At(f.ours, k)
      && MismatchTheirs(s.mismatch, k) + At(s.theirs, k) == [] + At(f.theirs, k)
  {
    hide InOrder, Rows, MismatchOurs, MismatchTheirs;
    RowsConserve(Left([], f.ours, f.theirs), InOrder(f.ours.Keys), InOrder(f.theirs.Keys), k);
    MismatchNext([], SeverityEntry(0, "", "", "", 0, [], []), k);
  }

  lemma ThreeParts<T>(all: seq<T>, n: nat, b: seq<T>, c: seq<T>)
    requires n <= |all|
    ensures b + c == [] + all[n..] ==> all == all[..n] + b + c
  {
    if b + c == [] + all[n..] {
      assert all == all[..n] + (b + c);
    }
  }

  lemma FirstOfSplits(ours: seq<Diagnostic>, theirs: seq<Diagnostic>, k: Key)
    ensures SplitAt(FirstOf(ours, theirs), Grouped(ours), Grouped(theirs), k)
  {
    hide Grouped, InOrder, FirstPass, EntryOurs, EntryTheirs, Ascending;
    var og, tg := Grouped(ours), Grouped(theirs);
    InOrderSorts(og.Keys + tg.Keys);
    AscendingUnlike(InOrder(og.Keys + tg.Keys));
    FirstSplits(og, tg, InOrder(og.Keys + tg.Keys), k);
  }

  lemma LeftAccounts(left: Groups, k: Key)
    ensures EntryOurs(OnlyOurs(left, InOrder(left.Keys)), k) == At(left, k)
    ensures EntryTheirs(OnlyTheirs(left, InOrder(left.Keys)), k) == At(left, k)
  {
    hide InOrder, OnlyOurs, OnlyTheirs, EntryOurs, EntryTheirs, Ascending;
    InOrderSorts(left.Keys);
    AscendingUnlike(InOrder(left.Keys));
    OnlyAccounts(left, InOrder(left.Keys), k);
  }

  /** No place has leftovers on both sides. */
  lemma OneSideLeft(rel: string, ours: seq<Diagnostic>, theirs: seq<Diagnostic>, k: Key, other: Key)
    requires k.line == other.line && k.category == other.category
    ensures var r := Compared(rel, ours, theirs);
      EntryOurs(r.oursOnly, k) == [] || EntryTheirs(r.pilotOnly, other) == []
  {
    hide Grouped, InOrder, FirstPass, Rows, OnlyOurs, OnlyTheirs, Ascending, EntryOurs, EntryTheirs, MismatchOurs, MismatchTheirs;
    var f := FirstOf(ours, theirs);
    var s := SecondOf(f);
    LeftAccounts(s.ours, k);
    LeftAccounts(s.theirs, other);
    var start := Left([], f.ours, f.theirs);
    RowsConserve(start, InOrder(f.ours.Keys), InOrder(f.theirs.Keys), k);
    RowsConserve(start, InOrder(f.ours.Keys), InOrder(f.theirs.Keys), other);
    if k == other {
      FirstOfSplits(ours, theirs, k);
    } else if k in f.ours && other in f.theirs {
      InOrderSorts(f.ours.Keys);
      InOrderSorts(f.theirs.Keys);
      RowsMeet(start, InOrder(f.ours.Keys), InOrder(f.theirs.Keys), k, other);
    }
  }
}
