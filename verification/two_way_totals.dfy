/** The counts of the two-way comparison: conservation, optimality, and the totals of a root. */
module TwoWayTotals {
  import opened Diagnostics
  import opened TwoWay
  import opened TwoWayLaws

  // ----- Counts of entries -----

  function EntryWeights(es: seq<Entry>): Weights {
    seq(|es|, i requires 0 <= i < |es| => (es[i].key, es[i].count))
  }

  /** A mismatch counts under our key on our side, under theirs on theirs. */
  function OurWeights(es: seq<SeverityEntry>): Weights {
    seq(|es|, i requires 0 <= i < |es| => (es[i].OurKey(), es[i].count))
  }

  function TheirWeights(es: seq<SeverityEntry>): Weights {
    seq(|es|, i requires 0 <= i < |es| => (es[i].TheirKey(), es[i].count))
  }

  lemma {:induction false} EntryWeight(es: seq<Entry>, k: Key)
    ensures (forall e | e in es :: e.count == |e.ours|) ==> Weight(EntryWeights(es), k) == |EntryOurs(es, k)|
    ensures (forall e | e in es :: e.count == |e.theirs|) ==> Weight(EntryWeights(es), k) == |EntryTheirs(es, k)|
  {
    if es != [] {
      var n := |es| - 1;
      EntryWeight(es[..n], k);
      assert EntryWeights(es)[..n] == EntryWeights(es[..n]);
      assert es[n] in es;
    }
  }

  lemma {:induction false} MismatchWeight(es: seq<SeverityEntry>, k: Key)
    requires forall e | e in es :: e.count == |e.ours| == |e.theirs|
    ensures Weight(OurWeights(es), k) == |MismatchOurs(es, k)| && Weight(TheirWeights(es), k) == |MismatchTheirs(es, k)|
  {
    if es != [] {
      var n := |es| - 1;
      MismatchWeight(es[..n], k);
      assert OurWeights(es)[..n] == OurWeights(es[..n]) && TheirWeights(es)[..n] == TheirWeights(es[..n]);
      assert es[n] in es;
    }
  }

  /** A report whose entries count, under each key, each side's diagnostics once. */
  ghost predicate Accounts(r: FileReport, ours: seq<Diagnostic>, theirs: seq<Diagnostic>) {
    && (forall k :: Weight(EntryWeights(r.agreement) + OurWeights(r.mismatch) + EntryWeights(r.oursOnly), k) == |OfKey(ours, k)|)
    && (forall k :: Weight(EntryWeights(r.agreement) + TheirWeights(r.mismatch) + EntryWeights(r.pilotOnly), k) == |OfKey(theirs, k)|)
  }

  lemma ReportAccounts(rel: string, ours: seq<Diagnostic>, theirs: seq<Diagnostic>)
    ensures Accounts(Compared(rel, ours, theirs), ours, theirs)
  {
    hide Compared, OfKey, Weight, EntryOurs, EntryTheirs, MismatchOurs, MismatchTheirs, EntryWeights, OurWeights, TheirWeights, Ascending, KeyOf;
    var r := Compared(rel, ours, theirs);
    ReportWellFormed(rel, ours, theirs);
    forall k ensures Weight(EntryWeights(r.agreement) + OurWeights(r.mismatch) + EntryWeights(r.oursOnly), k) == |OfKey(ours, k)|
      && Weight(EntryWeights(r.agreement) + TheirWeights(r.mismatch) + EntryWeights(r.pilotOnly), k) == |OfKey(theirs, k)| {
      NothingLost(rel, ours, theirs, k);
      EntryWeight(r.agreement, k);
      EntryWeight(r.oursOnly, k);
      EntryWeight(r.pilotOnly, k);
      MismatchWeight(r.mismatch, k);
      WeightConcat3(EntryWeights(r.agreement), OurWeights(r.mismatch), EntryWeights(r.oursOnly), k);
      WeightConcat3(EntryWeights(r.agreement), TheirWeights(r.mismatch), EntryWeights(r.pilotOnly), k);
    }
  }

  lemma WeightConcat3(a: Weights, b: Weights, c: Weights, k: Key)
    ensures Weight(a + b + c, k) == Weight(a, k) + Weight(b, k) + Weight(c, k)
  {
    hide Weight;
    WeightConcat(a + b, c, k);
    WeightConcat(a, b, k);
  }

  lemma TotalConcat3(a: Weights, b: Weights, c: Weights, p: Key -> bool)
    ensures Total(a + b + c, p) == Total(a, p) + Total(b, p) + Total(c, p)
  {
    hide Total;
    TotalConcat(a + b, c, p);
    TotalConcat(a, b, p);
  }

  /** Whatever keys one asks about, each side's diagnostics there are those agreed on, those mismatched
      and those left. */
  lemma Conserved(r: FileReport, ours: seq<Diagnostic>, theirs: seq<Diagnostic>, p: Key -> bool)
    requires Accounts(r, ours, theirs)
    ensures Total(Ones(ours), p) ==
      Total(EntryWeights(r.agreement), p) + Total(OurWeights(r.mismatch), p) + Total(EntryWeights(r.oursOnly), p)
    ensures Total(Ones(theirs), p) ==
      Total(EntryWeights(r.agreement), p) + Total(TheirWeights(r.mismatch), p) + Total(EntryWeights(r.pilotOnly), p)
  {
    hide OfKey, Weight, Total, EntryWeights, OurWeights, TheirWeights, Ones;
    forall k ensures Weight(Ones(ours), k) == |OfKey(ours, k)| && Weight(Ones(theirs), k) == |OfKey(theirs, k)| {
      WeightOfOnes(ours, k);
      WeightOfOnes(theirs, k);
    }
    TotalsAgree(Ones(ours), EntryWeights(r.agreement) + OurWeights(r.mismatch) + EntryWeights(r.oursOnly), p);
    TotalsAgree(Ones(theirs), EntryWeights(r.agreement) + TheirWeights(r.mismatch) + EntryWeights(r.pilotOnly), p);
    TotalConcat3(EntryWeights(r.agreement), OurWeights(r.mismatch), EntryWeights(r.oursOnly), p);
    TotalConcat3(EntryWeights(r.agreement), TheirWeights(r.mismatch), EntryWeights(r.pilotOnly), p);
  }

  /** Each side's counts sum to the number of its diagnostics. */
  lemma SidesSum(rel: string, ours: seq<Diagnostic>, theirs: seq<Diagnostic>)
    ensures var r := Compared(rel, ours, theirs);
      && |ours| == Total(EntryWeights(r.agreement), Every) + Total(OurWeights(r.mismatch), Every) + Total(EntryWeights(r.oursOnly), Every)
      && |theirs| == Total(EntryWeights(r.agreement), Every) + Total(OurWeights(r.mismatch), Every) + Total(EntryWeights(r.pilotOnly), Every)
  {
    hide Compared, Total, EntryWeights, OurWeights, TheirWeights, Ones, Accounts, Every;
    var r := Compared(rel, ours, theirs);
    ReportAccounts(rel, ours, theirs);
    Conserved(r, ours, theirs, Every);
    TotalOfOnes(ours);
    TotalOfOnes(theirs);
    EverySide(r.mismatch);
  }

  lemma {:induction false} EverySide(es: seq<SeverityEntry>)
    ensures Total(OurWeights(es), Every) == Total(TheirWeights(es), Every)
  {
    if es != [] {
      var n := |es| - 1;
      EverySide(es[..n]);
      assert OurWeights(es)[..n] == OurWeights(es[..n]) && TheirWeights(es)[..n] == TheirWeights(es[..n]);
    }
  }

  // ----- Maximum matching -----

  /** The keys at one place, whatever the severity. */
  function Place(line: int, category: string): Key -> bool {
    (k: Key) => k.line == line && k.category == category
  }

  /** A mismatch lies at one place, so both of its keys count there or neither. */
  lemma {:induction false} PlaceSides(es: seq<SeverityEntry>, line: int, category: string)
    ensures Total(OurWeights(es), Place(line, category)) == Total(TheirWeights(es), Place(line, category))
  {
    if es != [] {
      var n := |es| - 1;
      PlaceSides(es[..n], line, category);
      assert OurWeights(es)[..n] == OurWeights(es[..n]) && TheirWeights(es)[..n] == TheirWeights(es[..n]);
    }
  }

  /** How many pairs a report forms at a place. */
  function MatchedAt(r: FileReport, line: int, category: string): nat {
    Total(EntryWeights(r.agreement), Place(line, category)) + Total(OurWeights(r.mismatch), Place(line, category))
  }

  function CountAt(ds: seq<Diagnostic>, line: int, category: string): nat {
    Total(Ones(ds), Place(line, category))
  }

  /** Some entry accounts for a positive count. */
  lemma {:induction false} Counted(es: seq<Entry>, p: Key -> bool) returns (i: nat)
    requires Total(EntryWeights(es), p) > 0
    ensures i < |es| && p(es[i].key) && es[i].count > 0
  {
    var n := |es| - 1;
    assert EntryWeights(es)[..n] == EntryWeights(es[..n]);
    if p(es[n].key) && es[n].count > 0 {
      i := n;
    } else {
      i := Counted(es[..n], p);
    }
  }

  lemma {:induction false} EntryIsThere(es: seq<Entry>, i: nat)
    requires i < |es|
    ensures |es[i].ours| <= |EntryOurs(es, es[i].key)| && |es[i].theirs| <= |EntryTheirs(es, es[i].key)|
  {
    if i < |es| - 1 {
      EntryIsThere(es[..|es| - 1], i);
    }
  }

  /** At every place the comparison pairs as many diagnostics as the smaller side has. */
  lemma MatchingIsMaximum(rel: string, ours: seq<Diagnostic>, theirs: seq<Diagnostic>, line: int, category: string)
    ensures MatchedAt(Compared(rel, ours, theirs), line, category) == Min(CountAt(ours, line, category), CountAt(theirs, line, category))
  {
    hide Compared, Total, EntryWeights, OurWeights, TheirWeights, Ones, Accounts, EntryOurs, EntryTheirs, Ascending, KeyOf;
    var r := Compared(rel, ours, theirs);
    var p := Place(line, category);
    ReportAccounts(rel, ours, theirs);
    Conserved(r, ours, theirs, p);
    PlaceSides(r.mismatch, line, category);
    if Total(EntryWeights(r.oursOnly), p) > 0 && Total(EntryWeights(r.pilotOnly), p) > 0 {
      var i := Counted(r.oursOnly, p);
      var j := Counted(r.pilotOnly, p);
      ReportWellFormed(rel, ours, theirs);
      assert r.oursOnly[i] in r.oursOnly && r.pilotOnly[j] in r.pilotOnly;
      EntryIsThere(r.oursOnly, i);
      EntryIsThere(r.pilotOnly, j);
      OneSideLeft(rel, ours, theirs, r.oursOnly[i].key, r.pilotOnly[j].key);
      assert false;
    }
  }

  /** Under every key the agreement is as large as both sides allow. */
  lemma AgreementIsExact(rel: string, ours: seq<Diagnostic>, theirs: seq<Diagnostic>, k: Key)
    ensures Weight(EntryWeights(Compared(rel, ours, theirs).agreement), k) == Min(|OfKey(ours, k)|, |OfKey(theirs, k)|)
  {
    hide Compared, Weight, EntryWeights, EntryOurs, EntryTheirs, MismatchOurs, MismatchTheirs, OfKey, Ascending, KeyOf;
    ReportWellFormed(rel, ours, theirs);
    NothingLost(rel, ours, theirs, k);
    EntryWeight(Compared(rel, ours, theirs).agreement, k);
  }

  /** No other way of accounting for the same diagnostics agrees on more under any key, or pairs more at any place. */
  lemma NoBetterReport(rel: string, ours: seq<Diagnostic>, theirs: seq<Diagnostic>, other: FileReport, k: Key)
    requires Accounts(other, ours, theirs)
    ensures var r := Compared(rel, ours, theirs);
      && Weight(EntryWeights(other.agreement), k) <= Weight(EntryWeights(r.agreement), k)
      && MatchedAt(other, k.line, k.category) <= MatchedAt(r, k.line, k.category)
  {
    hide Compared, Weight, Total, EntryWeights, OurWeights, TheirWeights, OfKey, Ones;
    AgreementIsExact(rel, ours, theirs, k);
    MatchingIsMaximum(rel, ours, theirs, k.line, k.category);
    WeightConcat3(EntryWeights(other.agreement), OurWeights(other.mismatch), EntryWeights(other.oursOnly), k);
    WeightConcat3(EntryWeights(other.agreement), TheirWeights(other.mismatch), EntryWeights(other.pilotOnly), k);
    Conserved(other, ours, theirs, Place(k.line, k.category));
    PlaceSides(other.mismatch, k.line, k.category);
  }

  // ----- Full agreement -----

  predicate FullyAgrees(r: FileReport) {
    r.oursOnly == [] && r.pilotOnly == [] && r.mismatch == []
  }

  predicate Silent(r: FileReport) {
    r.agreement == [] && FullyAgrees(r)
  }

  /** A file agrees fully exactly if both sides report the same keys, equally often. */
  lemma FullAgreementMeaning(rel: string, ours: seq<Diagnostic>, theirs: seq<Diagnostic>)
    ensures FullyAgrees(Compared(rel, ours, theirs)) <==> multiset(KeysOf(ours)) == multiset(KeysOf(theirs))
  {
    hide Compared, OfKey, EntryOurs, EntryTheirs, MismatchOurs, MismatchTheirs, KeysOf, Ascending, KeyOf;
    var r := Compared(rel, ours, theirs);
    if FullyAgrees(r) {
      forall k ensures multiset(KeysOf(ours))[k] == multiset(KeysOf(theirs))[k] {
        NothingLost(rel, ours, theirs, k);
        CountIsMultiplicity(ours, k);
        CountIsMultiplicity(theirs, k);
        EntryNext([], Entry(k, 0, [], []), k);
        MismatchNext([], SeverityEntry(0, "", "", "", 0, [], []), k);
      }
    }
    ReportWellFormed(rel, ours, theirs);
    if multiset(KeysOf(ours)) == multiset(KeysOf(theirs)) && !FullyAgrees(r) {
      var k := SomethingOver(r);
      NothingOver(rel, ours, theirs, k);
      assert false;
    }
  }

  lemma SomethingOver(r: FileReport) returns (k: Key)
    requires WellFormed(r) && !FullyAgrees(r)
    ensures EntryOurs(r.oursOnly, k) != [] || EntryTheirs(r.pilotOnly, k) != [] || MismatchOurs(r.mismatch, k) != []
  {
    hide EntryOurs, EntryTheirs, MismatchOurs, Ascending, KeyOf;
    if r.oursOnly != [] {
      k := r.oursOnly[0].key;
      EntryIsThere(r.oursOnly, 0);
      assert r.oursOnly[0] in r.oursOnly;
    } else if r.pilotOnly != [] {
      k := r.pilotOnly[0].key;
      EntryIsThere(r.pilotOnly, 0);
      assert r.pilotOnly[0] in r.pilotOnly;
    } else {
      k := r.mismatch[0].OurKey();
      MismatchIsThere(r.mismatch, 0);
      assert r.mismatch[0] in r.mismatch;
    }
  }

  lemma NothingOver(rel: string, ours: seq<Diagnostic>, theirs: seq<Diagnostic>, k: Key)
    requires multiset(KeysOf(ours))[k] == multiset(KeysOf(theirs))[k]
    ensures var r := Compared(rel, ours, theirs);
      EntryOurs(r.oursOnly, k) == [] && EntryTheirs(r.pilotOnly, k) == [] && MismatchOurs(r.mismatch, k) == []
  {
    hide Compared, OfKey, EntryOurs, EntryTheirs, MismatchOurs, MismatchTheirs, KeysOf;
    NothingLost(rel, ours, theirs, k);
    CountIsMultiplicity(ours, k);
    CountIsMultiplicity(theirs, k);
  }

  lemma {:induction false} MismatchIsThere(es: seq<SeverityEntry>, i: nat)
    requires i < |es|
    ensures |es[i].ours| <= |MismatchOurs(es, es[i].OurKey())|
  {
    if i < |es| - 1 {
      MismatchIsThere(es[..|es| - 1], i);
    }
  }

  /** A report is empty exactly if both sides are silent. */
  lemma SilenceMeaning(rel: string, ours: seq<Diagnostic>, theirs: seq<Diagnostic>)
    ensures Silent(Compared(rel, ours, theirs)) <==> ours == [] && theirs == []
  {
    hide Compared, Total, EntryWeights, OurWeights, KeyOf, Ascending;
    var r := Compared(rel, ours, theirs);
    SidesSum(rel, ours, theirs);
    ReportWellFormed(rel, ours, theirs);
    PositiveCount(r.agreement);
    PositiveCount(r.oursOnly);
    PositiveCount(r.pilotOnly);
    PositiveMismatch(r.mismatch);
  }

  lemma PositiveCount(es: seq<Entry>)
    requires forall e | e in es :: e.count > 0
    ensures Total(EntryWeights(es), Every) > 0 <==> es != []
  {
    assert es != [] ==> es[|es| - 1] in es;
  }

  lemma PositiveMismatch(es: seq<SeverityEntry>)
    requires forall e | e in es :: e.count > 0
    ensures Total(OurWeights(es), Every) > 0 <==> es != []
  {
    assert es != [] ==> es[|es| - 1] in es;
  }

  // ----- compareRoot -----

  datatype Totals = Totals(files: nat, filesAgreeing: nat, agreement: nat, severityMismatch: nat, oursOnly: nat, pilotOnly: nat,
                           oursTotal: nat, pilotTotal: nat)

  type PerFile = map<string, seq<Diagnostic>>

  function Of(m: PerFile, rel: string): seq<Diagnostic> { if rel in m then m[rel] else [] }

  method CountEntries(entries: seq<Entry>) returns (count: nat)
    ensures count == Total(EntryWeights(entries), Every)
  {
    count := 0;
    for i := 0 to |entries|
      invariant count == Total(EntryWeights(entries[..i]), Every)
    {
      assert EntryWeights(entries[..i + 1])[..i] == EntryWeights(entries[..i]);
      count := count + entries[i].count;
    }
    assert entries[..|entries|] == entries;
  }

  method CountMismatches(entries: seq<SeverityEntry>) returns (count: nat)
    ensures count == Total(OurWeights(entries), Every)
  {
    count := 0;
    for i := 0 to |entries|
      invariant count == Total(OurWeights(entries[..i]), Every)
    {
      assert OurWeights(entries[..i + 1])[..i] == OurWeights(entries[..i]);
      count := count + entries[i].count;
    }
    assert entries[..|entries|] == entries;
  }

  /** One more file. */
  ghost function AddFile(t: Totals, r: FileReport, ours: nat, theirs: nat): Totals {
    Totals(t.files + 1, t.filesAgreeing + (if FullyAgrees(r) then 1 else 0), t.agreement + Total(EntryWeights(r.agreement), Every),
           t.severityMismatch + Total(OurWeights(r.mismatch), Every), t.oursOnly + Total(EntryWeights(r.oursOnly), Every),
           t.pilotOnly + Total(EntryWeights(r.pilotOnly), Every), t.oursTotal + ours, t.pilotTotal + theirs)
  }

  ghost function RootTotals(files: seq<string>, ours: PerFile, theirs: PerFile): Totals {
    if files == [] then Totals(0, 0, 0, 0, 0, 0, 0, 0)
    else
      var rel := files[|files| - 1];
      AddFile(RootTotals(files[..|files| - 1], ours, theirs), Compared(rel, Of(ours, rel), Of(theirs, rel)),
              |Of(ours, rel)|, |Of(theirs, rel)|)
  }

  /** The reports kept: those of files some side reports on. */
  ghost function RootFiles(files: seq<string>, ours: PerFile, theirs: PerFile): seq<FileReport> {
    if files == [] then []
    else
      var rel := files[|files| - 1];
      RootFiles(files[..|files| - 1], ours, theirs) +
        (if Of(ours, rel) == [] && Of(theirs, rel) == [] then [] else [Compared(rel, Of(ours, rel), Of(theirs, rel))])
  }

  method CompareRoot(files: seq<string>, ours: PerFile, theirs: PerFile) returns (totals: Totals, kept: seq<FileReport>)
    ensures totals == RootTotals(files, ours, theirs) && kept == RootFiles(files, ours, theirs)
  {
    hide Compared, EntryWeights, OurWeights, Total, RootTotals, RootFiles;
    totals, kept := Totals(0, 0, 0, 0, 0, 0, 0, 0), [];
    RootNone(ours, theirs);
    for i := 0 to |files|
      invariant totals == RootTotals(files[..i], ours, theirs) && kept == RootFiles(files[..i], ours, theirs)
    {
      RootNext(files, i, ours, theirs);
      var rel := files[i];
      var file := CompareFile(rel, Of(ours, rel), Of(theirs, rel));
      SilenceMeaning(rel, Of(ours, rel), Of(theirs, rel));
      totals := totals.(files := totals.files + 1, oursTotal := totals.oursTotal + |Of(ours, rel)|,
                        pilotTotal := totals.pilotTotal + |Of(theirs, rel)|);
      var agreement := CountEntries(file.agreement);
      var mismatch := CountMismatches(file.mismatch);
      var oursOnly := CountEntries(file.oursOnly);
      var pilotOnly := CountEntries(file.pilotOnly);
      totals := totals.(agreement := totals.agreement + agreement, severityMismatch := totals.severityMismatch + mismatch,
                        oursOnly := totals.oursOnly + oursOnly, pilotOnly := totals.pilotOnly + pilotOnly);
      if |file.oursOnly| == 0 && |file.pilotOnly| == 0 && |file.mismatch| == 0 {
        totals := totals.(filesAgreeing := totals.filesAgreeing + 1);
      }
      if |file.agreement| > 0 || |file.mismatch| > 0 || |file.oursOnly| > 0 || |file.pilotOnly| > 0 {
        kept := kept + [file];
      }
    }
    assert files[..|files|] == files;
  }

  lemma RootNone(ours: PerFile, theirs: PerFile)
    ensures RootTotals([], ours, theirs) == Totals(0, 0, 0, 0, 0, 0, 0, 0) && RootFiles([], ours, theirs) == []
  {
  }

  lemma RootNext(files: seq<string>, i: nat, ours: PerFile, theirs: PerFile)
    requires i < |files|
    ensures var rel := files[i];
      var r := Compared(rel, Of(ours, rel), Of(theirs, rel));
      && RootTotals(files[..i + 1], ours, theirs) ==
         AddFile(RootTotals(files[..i], ours, theirs), r, |Of(ours, rel)|, |Of(theirs, rel)|)
      && RootFiles(files[..i + 1], ours, theirs) ==
         (if Of(ours, rel) == [] && Of(theirs, rel) == [] then RootFiles(files[..i], ours, theirs)
          else RootFiles(files[..i], ours, theirs) + [r])
  {
    hide Compared, EntryWeights, OurWeights, Total;
    assert files[..i + 1][..i] == files[..i];
  }

  /** How many files have the same keys on both sides. */
  function AgreeingFiles(files: seq<string>, ours: PerFile, theirs: PerFile): nat {
    if files == [] then 0
    else
      var rel := files[|files| - 1];
      AgreeingFiles(files[..|files| - 1], ours, theirs) +
        (if multiset(KeysOf(Of(ours, rel))) == multiset(KeysOf(Of(theirs, rel))) then 1 else 0)
  }

  /** A root's totals balance on both sides, and count the files that agree. */
  lemma {:induction false} RootBalances(files: seq<string>, ours: PerFile, theirs: PerFile)
    ensures var t := RootTotals(files, ours, theirs);
      && t.oursTotal == t.agreement + t.severityMismatch + t.oursOnly
      && t.pilotTotal == t.agreement + t.severityMismatch + t.pilotOnly
      && t.files == |files| && t.filesAgreeing == AgreeingFiles(files, ours, theirs)
  {
    hide Compared, EntryWeights, OurWeights, Total, KeysOf, FullyAgrees;
    if files != [] {
      var rel := files[|files| - 1];
      RootBalances(files[..|files| - 1], ours, theirs);
      SidesSum(rel, Of(ours, rel), Of(theirs, rel));
      FullAgreementMeaning(rel, Of(ours, rel), Of(theirs, rel));
    }
  }

  /** Some side reports on the file. */
  predicate Reporting(ours: PerFile, theirs: PerFile, rel: string) {
    Of(ours, rel) != [] || Of(theirs, rel) != []
  }

  /** The places of the files some side reports on, in order. */
  ghost predicate ReportingPlaces(files: seq<string>, ours: PerFile, theirs: PerFile, at: seq<nat>) {
    && (forall p: nat {:trigger p in at} :: p in at <==> p < |files| && Reporting(ours, theirs, files[p]))
    && (forall i, j | 0 <= i < j < |at| :: at[i] < at[j])
  }

  /** The kept reports are those of the files at these places. */
  ghost predicate KeptAt(files: seq<string>, ours: PerFile, theirs: PerFile, kept: seq<FileReport>, at: seq<nat>) {
    |kept| == |at| && forall i | 0 <= i < |at| :: at[i] < |files| && kept[i] == Compared(files[at[i]], Of(ours, files[at[i]]), Of(theirs, files[at[i]]))
  }

  /** The reports kept are those of the files some side reports on, in the files' order. */
  lemma {:induction false} KeptMeaning(files: seq<string>, ours: PerFile, theirs: PerFile) returns (at: seq<nat>)
    ensures ReportingPlaces(files, ours, theirs, at) && KeptAt(files, ours, theirs, RootFiles(files, ours, theirs), at)
  {
    hide Compared, Of, Reporting, ReportingPlaces, KeptAt, RootFiles;
    if files == [] {
      at := [];
      NoPlaces(ours, theirs);
    } else {
      var n := |files| - 1;
      var before := KeptMeaning(files[..n], ours, theirs);
      at := if Reporting(ours, theirs, files[n]) then before + [n] else before;
      NextPlace(files, ours, theirs, before);
      KeptNext(files, ours, theirs, before);
    }
  }

  lemma NoPlaces(ours: PerFile, theirs: PerFile)
    ensures ReportingPlaces([], ours, theirs, []) && KeptAt([], ours, theirs, RootFiles([], ours, theirs), [])
  {
  }

  lemma RisingMore(at: seq<nat>, n: nat)
    requires (forall i, j | 0 <= i < j < |at| :: at[i] < at[j]) && forall i | 0 <= i < |at| :: at[i] < n
    ensures forall i, j | 0 <= i < j < |at + [n]| :: (at + [n])[i] < (at + [n])[j]
  {
  }

  lemma NextPlace(files: seq<string>, ours: PerFile, theirs: PerFile, before: seq<nat>)
    requires files != [] && ReportingPlaces(files[..|files| - 1], ours, theirs, before)
    ensures var n := |files| - 1;
      ReportingPlaces(files, ours, theirs, if Reporting(ours, theirs, files[n]) then before + [n] else before)
  {
    hide Reporting;
    var n := |files| - 1;
    var at := if Reporting(ours, theirs, files[n]) then before + [n] else before;
    forall i | 0 <= i < |before| ensures before[i] < n { assert before[i] in before; }
    RisingMore(before, n);
    forall p: nat ensures p in at <==> p < |files| && Reporting(ours, theirs, files[p]) {
      assert p < n ==> files[..n][p] == files[p];
      assert p in before <==> p < n && Reporting(ours, theirs, files[..n][p]);
      assert p in at <==> p in before || (Reporting(ours, theirs, files[n]) && p == n);
    }
  }

  lemma KeptNext(files: seq<string>, ours: PerFile, theirs: PerFile, before: seq<nat>)
    requires files != [] && KeptAt(files[..|files| - 1], ours, theirs, RootFiles(files[..|files| - 1], ours, theirs), before)
    ensures var n := |files| - 1;
      KeptAt(files, ours, theirs, RootFiles(files, ours, theirs), if Reporting(ours, theirs, files[n]) then before + [n] else before)
  {
    hide Compared, Of;
    assert forall i | 0 <= i < |before| :: files[..|files| - 1][before[i]] == files[before[i]];
  }
}
