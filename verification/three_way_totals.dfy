/** The totals of the three-way partition (cmd/pilot-diff/syside.go) against those of the two-way one. */
module ThreeWayTotals {
  import opened Diagnostics
  import opened TwoWay
  import opened TwoWayTotals
  import opened ThreeWay

  datatype Tally = Tally(files: nat, filesAgreeing: nat, diagnostics: nat, allThree: nat, withOurs: nat, withPilot: nat, thirdOnly: nat,
                         oursAlone: nat, pilotAlone: nat, oursAndPilot: nat)

  const ZERO := Tally(0, 0, 0, 0, 0, 0, 0, 0, 0, 0)

  /** Every entry is one all three report. */
  predicate AllAgree(es: seq<Entry3>) {
    forall e | e in es :: e.sides == AllThree
  }

  /** The tally after a file's entries. */
  function AddedTo(t: Tally, f: File3): Tally {
    t.(filesAgreeing := t.filesAgreeing + (if AllAgree(f.entries) then 1 else 0),
       allThree := t.allThree + Labelled(f, AllThree, Every), withOurs := t.withOurs + Labelled(f, OursAndThird, Every),
       withPilot := t.withPilot + Labelled(f, PilotAndThird, Every), thirdOnly := t.thirdOnly + Labelled(f, ThirdAlone, Every),
       oursAlone := t.oursAlone + Labelled(f, OursAlone, Every), pilotAlone := t.pilotAlone + Labelled(f, PilotAlone, Every),
       oursAndPilot := t.oursAndPilot + Labelled(f, OursAndPilot, Every))
  }

  function Sum(a: Tally, b: Tally): Tally {
    Tally(a.files + b.files, a.filesAgreeing + b.filesAgreeing, a.diagnostics + b.diagnostics, a.allThree + b.allThree,
          a.withOurs + b.withOurs, a.withPilot + b.withPilot, a.thirdOnly + b.thirdOnly, a.oursAlone + b.oursAlone,
          a.pilotAlone + b.pilotAlone, a.oursAndPilot + b.oursAndPilot)
  }

  class SysideTotals {
    var files: nat
    var filesAgreeing: nat
    var diagnostics: nat
    var allThree: nat
    var withOurs: nat
    var withPilot: nat
    var thirdOnly: nat
    var oursAlone: nat
    var pilotAlone: nat
    var oursAndPilot: nat

    ghost function Value(): Tally
      reads this
    {
      Tally(files, filesAgreeing, diagnostics, allThree, withOurs, withPilot, thirdOnly, oursAlone, pilotAlone, oursAndPilot)
    }

    constructor ()
      ensures Value() == ZERO
    {
      files, filesAgreeing, diagnostics, allThree, withOurs := 0, 0, 0, 0, 0;
      withPilot, thirdOnly, oursAlone, pilotAlone, oursAndPilot := 0, 0, 0, 0, 0;
    }

    method Add(file: File3)
      modifies this
      ensures Value() == AddedTo(old(Value()), file)
    {
      hide AddedTo;
      var agreeing := true;
      AddedNone(Value(), file.diagnostics);
      assert file.entries[..|file.entries|] == file.entries;
      for i := 0 to |file.entries|
        invariant Value() == AddedTo(old(Value()), File3(file.diagnostics, file.entries[..i])).(filesAgreeing := old(filesAgreeing))
        invariant agreeing == AllAgree(file.entries[..i])
      {
        var e := file.entries[i];
        AddedNext(old(Value()), file, i);
        assert file.entries[..i + 1] == file.entries[..i] + [e];
        match e.sides {
          case AllThree => allThree := allThree + e.count;
          case OursAndThird => withOurs := withOurs + e.count;
          case PilotAndThird => withPilot := withPilot + e.count;
          case ThirdAlone => thirdOnly := thirdOnly + e.count;
          case OursAlone => oursAlone := oursAlone + e.count;
          case PilotAlone => pilotAlone := pilotAlone + e.count;
          case OursAndPilot => oursAndPilot := oursAndPilot + e.count;
        }
        if e.sides != AllThree {
          agreeing := false;
        }
      }
      if agreeing {
        filesAgreeing := filesAgreeing + 1;
      }
      AddedAgreeing(old(Value()), file);
    }

    method AddRoot(root: Tally)
      modifies this
      ensures Value() == Sum(old(Value()), root)
    {
      files, filesAgreeing, diagnostics := files + root.files, filesAgreeing + root.filesAgreeing, diagnostics + root.diagnostics;
      allThree, withOurs, withPilot := allThree + root.allThree, withOurs + root.withOurs, withPilot + root.withPilot;
      thirdOnly, oursAlone, pilotAlone := thirdOnly + root.thirdOnly, oursAlone + root.oursAlone, pilotAlone + root.pilotAlone;
      oursAndPilot := oursAndPilot + root.oursAndPilot;
    }
  }

  /** The tally after one entry more, the count of agreeing files apart. */
  function Entered(t: Tally, e: Entry3): Tally {
    match e.sides
    case AllThree => t.(allThree := t.allThree + e.count)
    case OursAndThird => t.(withOurs := t.withOurs + e.count)
    case PilotAndThird => t.(withPilot := t.withPilot + e.count)
    case ThirdAlone => t.(thirdOnly := t.thirdOnly + e.count)
    case OursAlone => t.(oursAlone := t.oursAlone + e.count)
    case PilotAlone => t.(pilotAlone := t.pilotAlone + e.count)
    case OursAndPilot => t.(oursAndPilot := t.oursAndPilot + e.count)
  }

  lemma AddedNone(t: Tally, diagnostics: nat)
    ensures AddedTo(t, File3(diagnostics, [])).(filesAgreeing := t.filesAgreeing) == t
  {
    hide Labelled;
    LabelledNone(diagnostics);
  }

  lemma AddedNext(t: Tally, f: File3, i: nat)
    requires i < |f.entries|
    ensures AddedTo(t, File3(f.diagnostics, f.entries[..i + 1])).(filesAgreeing := t.filesAgreeing) ==
      Entered(AddedTo(t, File3(f.diagnostics, f.entries[..i])).(filesAgreeing := t.filesAgreeing), f.entries[i])
  {
    hide Labelled;
    LabelledNext(f, i);
  }

  lemma AddedAgreeing(t: Tally, f: File3)
    ensures AddedTo(t, f).filesAgreeing == t.filesAgreeing + if AllAgree(f.entries) then 1 else 0
  {
  }

  lemma LabelledNone(diagnostics: nat)
    ensures forall sides :: Labelled(File3(diagnostics, []), sides, Every) == 0
  {
  }

  lemma LabelledNext(f: File3, i: nat)
    requires i < |f.entries|
    ensures forall sides :: (Labelled(File3(f.diagnostics, f.entries[..i + 1]), sides, Every) ==
      Labelled(File3(f.diagnostics, f.entries[..i]), sides, Every) + LabelCount(f.entries[i], sides))
  {
    hide Total;
    forall sides ensures Labelled(File3(f.diagnostics, f.entries[..i + 1]), sides, Every) ==
      Labelled(File3(f.diagnostics, f.entries[..i]), sides, Every) + LabelCount(f.entries[i], sides) {
      var last := [(f.entries[i].key, LabelCount(f.entries[i], sides))];
      assert LabelWeights(f.entries[..i + 1], sides) == LabelWeights(f.entries[..i], sides) + last;
      TotalConcat(LabelWeights(f.entries[..i], sides), last, Every);
      TotalOne(last[0], Every);
    }
  }

  lemma TotalOne(w: (Key, nat), p: Key -> bool)
    ensures Total([w], p) == if p(w.0) then w.1 else 0
  {
    assert [w][..0] == [];
  }

  // ----- attachSyside's totals -----

  ghost function RootTally(files: seq<string>, ours: PerFile, theirs: PerFile, third: PerFile): Tally {
    if files == [] then ZERO
    else
      var rel := files[|files| - 1];
      var t := RootTally(files[..|files| - 1], ours, theirs, third);
      AddedTo(t.(files := t.files + 1, diagnostics := t.diagnostics + |Of(third, rel)|), Compared3(Of(ours, rel), Of(theirs, rel), Of(third, rel)))
  }

  method TallyRoot(files: seq<string>, ours: PerFile, theirs: PerFile, syside: PerFile) returns (totals: SysideTotals)
    ensures fresh(totals) && totals.Value() == RootTally(files, ours, theirs, syside)
  {
    hide Compared3, AddedTo;
    totals := new SysideTotals();
    for i := 0 to |files|
      invariant fresh(totals) && totals.Value() == RootTally(files[..i], ours, theirs, syside)
    {
      assert files[..i + 1][..i] == files[..i];
      var rel := files[i];
      var file := CompareSysideFile(Of(ours, rel), Of(theirs, rel), Of(syside, rel));
      assert file.diagnostics == |Of(syside, rel)| by { DiagnosticsOf(Of(ours, rel), Of(theirs, rel), Of(syside, rel)); }
      totals.files := totals.files + 1;
      totals.diagnostics := totals.diagnostics + file.diagnostics;
      totals.Add(file);
    }
    assert files[..|files|] == files;
  }

  lemma DiagnosticsOf(ours: seq<Diagnostic>, theirs: seq<Diagnostic>, third: seq<Diagnostic>)
    ensures Compared3(ours, theirs, third).diagnostics == |third|
  {
  }

  // ----- When all three agree -----

  lemma {:induction false} LabelIsThere(es: seq<Entry3>, i: nat)
    requires i < |es|
    ensures Weight(LabelWeights(es, es[i].sides), es[i].key) >= es[i].count
  {
    var n := |es| - 1;
    var sides := es[i].sides;
    assert LabelWeights(es, sides)[..n] == LabelWeights(es[..n], sides);
    if i < n {
      LabelIsThere(es[..n], i);
    }
  }

  lemma {:induction false} LabelAbsent(es: seq<Entry3>, sides: Sides, k: Key)
    requires AllAgree(es) && sides != AllThree
    ensures Weight(LabelWeights(es, sides), k) == 0
  {
    if es != [] {
      var n := |es| - 1;
      assert LabelWeights(es, sides)[..n] == LabelWeights(es[..n], sides);
      assert es[n] in es;
      LabelAbsent(es[..n], sides, k);
    }
  }

  ghost predicate SameKeys(a: seq<Diagnostic>, b: seq<Diagnostic>) {
    multiset(KeysOf(a)) == multiset(KeysOf(b))
  }

  /** All three agree on a file exactly if they report the same keys, equally often. */
  lemma ThreeAgreeMeaning(ours: seq<Diagnostic>, theirs: seq<Diagnostic>, third: seq<Diagnostic>)
    ensures AllAgree(Compared3(ours, theirs, third).entries) <==> SameKeys(ours, theirs) && SameKeys(theirs, third)
  {
    hide Compared3, LabelWeights, Weight, OfKey, KeysOf, Share;
    var es := Compared3(ours, theirs, third).entries;
    if AllAgree(es) {
      forall k ensures |OfKey(ours, k)| == |OfKey(theirs, k)| == |OfKey(third, k)| {
        forall sides ensures Share(sides, |OfKey(ours, k)|, |OfKey(theirs, k)|, |OfKey(third, k)|) == 0 || sides == AllThree {
          LabelsAreExact(ours, theirs, third, sides, k);
          if sides != AllThree {
            LabelAbsent(es, sides, k);
          }
        }
        OnlyAll(|OfKey(ours, k)|, |OfKey(theirs, k)|, |OfKey(third, k)|);
      }
      forall k ensures multiset(KeysOf(ours))[k] == multiset(KeysOf(theirs))[k] == multiset(KeysOf(third))[k] {
        CountIsMultiplicity(ours, k);
        CountIsMultiplicity(theirs, k);
        CountIsMultiplicity(third, k);
      }
    }
    if SameKeys(ours, theirs) && SameKeys(theirs, third) {
      PartitionWellFormed(ours, theirs, third);
      forall i | 0 <= i < |es| ensures es[i].sides == AllThree {
        var e := es[i];
        assert e in es;
        LabelIsThere(es, i);
        LabelsAreExact(ours, theirs, third, e.sides, e.key);
        CountIsMultiplicity(ours, e.key);
        CountIsMultiplicity(theirs, e.key);
        CountIsMultiplicity(third, e.key);
        EqualShares(e.sides, |OfKey(ours, e.key)|);
      }
    }
  }

  lemma OnlyAll(m: nat, p: nat, t: nat)
    requires forall sides :: Share(sides, m, p, t) == 0 || sides == AllThree
    ensures m == p == t
  {
    assert Share(OursAlone, m, p, t) == 0 && Share(PilotAlone, m, p, t) == 0 && Share(ThirdAlone, m, p, t) == 0;
    assert Share(OursAndThird, m, p, t) == 0 && Share(PilotAndThird, m, p, t) == 0 && Share(OursAndPilot, m, p, t) == 0;
  }

  lemma EqualShares(sides: Sides, n: nat)
    ensures sides != AllThree ==> Share(sides, n, n, n) == 0
  {
  }

  function ThreeAgreeing(files: seq<string>, ours: PerFile, theirs: PerFile, third: PerFile): nat {
    if files == [] then 0
    else
      var rel := files[|files| - 1];
      ThreeAgreeing(files[..|files| - 1], ours, theirs, third) +
        (if multiset(KeysOf(Of(ours, rel))) == multiset(KeysOf(Of(theirs, rel))) == multiset(KeysOf(Of(third, rel))) then 1 else 0)
  }

  /** Over a root the three-way tally balances for each side, its first two shares make up the two-way
      agreement, and it counts the files all three agree on, each of which the two-way totals count too. */
  lemma {:induction false} TalliesAgree(files: seq<string>, ours: PerFile, theirs: PerFile, third: PerFile)
    ensures var two, three := RootTotals(files, ours, theirs), RootTally(files, ours, theirs, third);
      && two.oursTotal == three.allThree + three.withOurs + three.oursAndPilot + three.oursAlone
      && two.pilotTotal == three.allThree + three.withPilot + three.oursAndPilot + three.pilotAlone
      && three.diagnostics == three.allThree + three.withOurs + three.withPilot + three.thirdOnly
      && two.agreement == three.allThree + three.oursAndPilot
      && three.files == two.files && three.filesAgreeing == ThreeAgreeing(files, ours, theirs, third) <= two.filesAgreeing
  {
    hide Compared, Compared3, EntryWeights, OurWeights, Total, KeysOf, FullyAgrees, AllAgree, Labelled, Ones;
    if files != [] {
      var rel := files[|files| - 1];
      var a, b, c := Of(ours, rel), Of(theirs, rel), Of(third, rel);
      TalliesAgree(files[..|files| - 1], ours, theirs, third);
      Conserved3(a, b, c, Every);
      PartitionsAgree(rel, a, b, c, Every);
      TotalOfOnes(a);
      TotalOfOnes(b);
      TotalOfOnes(c);
      ThreeAgreeMeaning(a, b, c);
      FullAgreementMeaning(rel, a, b);
    }
  }

  lemma TallyLast(files: seq<string>, ours: PerFile, theirs: PerFile, third: PerFile)
    ensures files == [] ==> RootTally(files, ours, theirs, third) == ZERO
    ensures files != [] ==>
      var rel := files[|files| - 1];
      var t := RootTally(files[..|files| - 1], ours, theirs, third);
      RootTally(files, ours, theirs, third) ==
        AddedTo(t.(files := t.files + 1, diagnostics := t.diagnostics + |Of(third, rel)|), Compared3(Of(ours, rel), Of(theirs, rel), Of(third, rel)))
  {
    hide Compared3, AddedTo;
  }

  lemma SumAdded(a: Tally, b: Tally, n: nat, f: File3)
    ensures var s := Sum(a, b);
      Sum(a, AddedTo(b.(files := b.files + 1, diagnostics := b.diagnostics + n), f)) ==
        AddedTo(s.(files := s.files + 1, diagnostics := s.diagnostics + n), f)
    ensures Sum(a, ZERO) == a
  {
    hide Labelled, AllAgree;
  }

  /** Adding roots adds what their files give: the totals of two lists of files are those of both
      together. */
  lemma {:induction false} SumOfRoots(a: seq<string>, b: seq<string>, ours: PerFile, theirs: PerFile, third: PerFile)
    ensures RootTally(a + b, ours, theirs, third) == Sum(RootTally(a, ours, theirs, third), RootTally(b, ours, theirs, third))
  {
    hide Compared3, AddedTo, Sum, RootTally, Of;
    TallyLast(b, ours, theirs, third);
    if b == [] {
      assert a + b == a;
      SumAdded(RootTally(a, ours, theirs, third), ZERO, 0, File3(0, []));
    } else {
      var n := |b| - 1;
      var rel := b[n];
      SumOfRoots(a, b[..n], ours, theirs, third);
      assert (a + b)[..|a + b| - 1] == a + b[..n] && (a + b)[|a + b| - 1] == rel;
      TallyLast(a + b, ours, theirs, third);
      SumAdded(RootTally(a, ours, theirs, third), RootTally(b[..n], ours, theirs, third), |Of(third, rel)|,
               Compared3(Of(ours, rel), Of(theirs, rel), Of(third, rel)));
    }
  }
}
