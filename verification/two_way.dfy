/** The two-way comparison of cmd/pilot-diff (report.go): one file's diagnostics from both sides are
    matched as multisets, first on the whole key and then on line and category alone. */
module TwoWay {
  import opened Diagnostics

  /** A bucket of one key, with the diagnostics it accounts for. */
  datatype Entry = Entry(key: Key, count: nat, ours: seq<Diagnostic>, theirs: seq<Diagnostic>)

  /** One place flagged by both sides with different severities. */
  datatype SeverityEntry = SeverityEntry(line: int, category: string, ourSeverity: string, pilotSeverity: string, count: nat,
                                         ours: seq<Diagnostic>, theirs: seq<Diagnostic>)
  {
    function OurKey(): Key { Key(line, ourSeverity, category) }
    function TheirKey(): Key { Key(line, pilotSeverity, category) }
  }

  datatype FileReport = FileReport(path: string, agreement: seq<Entry>, mismatch: seq<SeverityEntry>, oursOnly: seq<Entry>,
                                   pilotOnly: seq<Entry>)

  // ----- First pass: equal keys -----

  datatype First = First(agreement: seq<Entry>, ours: Groups, theirs: Groups)

  function FirstStep(f: First, k: Key, mine: seq<Diagnostic>, yours: seq<Diagnostic>): First {
    var shared := Min(|mine|, |yours|);
    First(if shared > 0 then f.agreement + [Entry(k, shared, mine[..shared], yours[..shared])] else f.agreement,
          if |mine| > shared then f.ours[k := mine[shared..]] else f.ours,
          if |yours| > shared then f.theirs[k := yours[shared..]] else f.theirs)
  }

  function FirstPass(ours: Groups, theirs: Groups, keys: seq<Key>): First {
    if keys == [] then First([], map[], map[])
    else
      var n := |keys| - 1;
      FirstStep(FirstPass(ours, theirs, keys[..n]), keys[n], At(ours, keys[n]), At(theirs, keys[n]))
  }

  // ----- Second pass: equal places, different severities -----

  datatype Left = Left(mismatch: seq<SeverityEntry>, ours: Groups, theirs: Groups)

  predicate Compatible(k: Key, other: Key) {
    other.line == k.line && other.category == k.category && other.severity != k.severity
  }

  function PairStep(s: Left, k: Key, other: Key): Left {
    var mine, yours := At(s.ours, k), At(s.theirs, other);
    var shared := Min(|mine|, |yours|);
    if !Compatible(k, other) || shared == 0 then s
    else
      Left(s.mismatch + [SeverityEntry(k.line, k.category, k.severity, other.severity, shared, mine[..shared], yours[..shared])],
           s.ours[k := mine[shared..]], s.theirs[other := yours[shared..]])
  }

  function Row(s: Left, k: Key, others: seq<Key>): Left {
    if others == [] then s else PairStep(Row(s, k, others[..|others| - 1]), k, others[|others| - 1])
  }

  function Rows(s: Left, keys: seq<Key>, others: seq<Key>): Left {
    if keys == [] then s else Row(Rows(s, keys[..|keys| - 1], others), keys[|keys| - 1], others)
  }

  // ----- What is left -----

  function OnlyOurs(left: Groups, keys: seq<Key>): seq<Entry> {
    if keys == [] then []
    else
      var n := |keys| - 1;
      var ds := At(left, keys[n]);
      OnlyOurs(left, keys[..n]) + (if ds == [] then [] else [Entry(keys[n], |ds|, ds, [])])
  }

  function OnlyTheirs(left: Groups, keys: seq<Key>): seq<Entry> {
    if keys == [] then []
    else
      var n := |keys| - 1;
      var ds := At(left, keys[n]);
      OnlyTheirs(left, keys[..n]) + (if ds == [] then [] else [Entry(keys[n], |ds|, [], ds)])
  }

  ghost function FirstOf(ours: seq<Diagnostic>, theirs: seq<Diagnostic>): First {
    FirstPass(Grouped(ours), Grouped(theirs), InOrder(Grouped(ours).Keys + Grouped(theirs).Keys))
  }

  ghost function SecondOf(f: First): Left {
    Rows(Left([], f.ours, f.theirs), InOrder(f.ours.Keys), InOrder(f.theirs.Keys))
  }

  /** What compareFile reports. */
  ghost function Compared(rel: string, ours: seq<Diagnostic>, theirs: seq<Diagnostic>): FileReport {
    var f := FirstOf(ours, theirs);
    var s := SecondOf(f);
    FileReport(rel, f.agreement, s.mismatch, OnlyOurs(s.ours, InOrder(s.ours.Keys)), OnlyTheirs(s.theirs, InOrder(s.theirs.Keys)))
  }

  // ----- compareFile -----

  lemma KeySetOf(a: Groups, b: Groups)
    ensures KeySet([a]) == a.Keys && KeySet([a, b]) == a.Keys + b.Keys
  {
    assert [a][..0] == [] && [a, b][..1] == [a];
  }

  lemma RowsKeepKeys(s: Left, keys: seq<Key>, others: seq<Key>)
    ensures Rows(s, keys, others).ours.Keys == s.ours.Keys && Rows(s, keys, others).theirs.Keys == s.theirs.Keys
    decreases keys
  {
    if keys != [] {
      var n := |keys| - 1;
      RowsKeepKeys(s, keys[..n], others);
      RowKeepsKeys(Rows(s, keys[..n], others), keys[n], others);
    }
  }

  lemma RowKeepsKeys(s: Left, k: Key, others: seq<Key>)
    ensures Row(s, k, others).ours.Keys == s.ours.Keys && Row(s, k, others).theirs.Keys == s.theirs.Keys
    decreases others
  {
    if others != [] {
      RowKeepsKeys(s, k, others[..|others| - 1]);
    }
  }

  method CompareFile(rel: string, ours: seq<Diagnostic>, theirs: seq<Diagnostic>) returns (report: FileReport)
    ensures report == Compared(rel, ours, theirs)
  {
    hide InOrder, KeySet, Grouped, FirstStep, PairStep, Row, Rows, OnlyOurs, OnlyTheirs, FirstPass;
    var ourGroups := Group(ours);
    var theirGroups := Group(theirs);
    var agreement: seq<Entry>, ourLeft: Groups, theirLeft: Groups := FirstLoop(ourGroups, theirGroups);
    KeySetOf(ourGroups, theirGroups);
    var mismatch;
    mismatch, ourLeft, theirLeft := SecondLoop(ourLeft, theirLeft);
    KeySetOf(ourLeft, theirLeft);
    KeySetOf(theirLeft, ourLeft);
    var oursOnly, pilotOnly := [], [];
    OnlyNone(ourLeft);
    OnlyNone(theirLeft);
    var keys := SortedKeys([ourLeft]);
    for i := 0 to |keys|
      invariant oursOnly == OnlyOurs(ourLeft, keys[..i])
    {
      OnlyNext(ourLeft, keys, i);
      var left := At(ourLeft, keys[i]);
      if |left| > 0 {
        oursOnly := oursOnly + [Entry(keys[i], |left|, left, [])];
      }
    }
    assert keys[..|keys|] == keys;
    keys := SortedKeys([theirLeft]);
    for i := 0 to |keys|
      invariant pilotOnly == OnlyTheirs(theirLeft, keys[..i])
    {
      OnlyNext(theirLeft, keys, i);
      var left := At(theirLeft, keys[i]);
      if |left| > 0 {
        pilotOnly := pilotOnly + [Entry(keys[i], |left|, [], left)];
      }
    }
    assert keys[..|keys|] == keys;
    report := FileReport(rel, agreement, mismatch, oursOnly, pilotOnly);
  }

  lemma OnlyNone(left: Groups)
    ensures OnlyOurs(left, []) == [] && OnlyTheirs(left, []) == []
  {
  }

  lemma OnlyNext(left: Groups, keys: seq<Key>, i: nat)
    requires i < |keys|
    ensures var ds := At(left, keys[i]);
      && OnlyOurs(left, keys[..i + 1]) ==
         (if ds == [] then OnlyOurs(left, keys[..i]) else OnlyOurs(left, keys[..i]) + [Entry(keys[i], |ds|, ds, [])])
      && OnlyTheirs(left, keys[..i + 1]) ==
         (if ds == [] then OnlyTheirs(left, keys[..i]) else OnlyTheirs(left, keys[..i]) + [Entry(keys[i], |ds|, [], ds)])
  {
    assert keys[..i + 1][..i] == keys[..i];
  }

  /** compareFile's first loop. */
  method FirstLoop(ourGroups: Groups, theirGroups: Groups) returns (agreement: seq<Entry>, ourLeft: Groups, theirLeft: Groups)
    ensures First(agreement, ourLeft, theirLeft) == FirstPass(ourGroups, theirGroups, InOrder(ourGroups.Keys + theirGroups.Keys))
  {
    hide InOrder, KeySet, FirstPass;
    agreement, ourLeft, theirLeft := [], map[], map[];
    var keys := SortedKeys([ourGroups, theirGroups]);
    KeySetOf(ourGroups, theirGroups);
    FirstNone(ourGroups, theirGroups);
    for i := 0 to |keys|
      invariant First(agreement, ourLeft, theirLeft) == FirstPass(ourGroups, theirGroups, keys[..i])
    {
      FirstNext(ourGroups, theirGroups, keys, i);
      var k := keys[i];
      var mine, yours := At(ourGroups, k), At(theirGroups, k);
      var shared := Min(|mine|, |yours|);
      if shared > 0 {
        agreement := agreement + [Entry(k, shared, mine[..shared], yours[..shared])];
      }
      if |mine| > shared {
        ourLeft := ourLeft[k := mine[shared..]];
      }
      if |yours| > shared {
        theirLeft := theirLeft[k := yours[shared..]];
      }
    }
    assert keys[..|keys|] == keys;
  }

  lemma FirstNone(ours: Groups, theirs: Groups)
    ensures FirstPass(ours, theirs, []) == First([], map[], map[])
  {
  }

  lemma FirstNext(ours: Groups, theirs: Groups, keys: seq<Key>, i: nat)
    requires i < |keys|
    ensures FirstPass(ours, theirs, keys[..i + 1]) ==
      FirstStep(FirstPass(ours, theirs, keys[..i]), keys[i], At(ours, keys[i]), At(theirs, keys[i]))
  {
    assert keys[..i + 1][..i] == keys[..i];
  }

  /** compareFile's second, nested loop. Assigning to a key that is there does not change the key set
      the inner loop sorts each time. */
  method SecondLoop(ours: Groups, theirs: Groups) returns (mismatch: seq<SeverityEntry>, ourLeft: Groups, theirLeft: Groups)
    ensures Left(mismatch, ourLeft, theirLeft) == Rows(Left([], ours, theirs), InOrder(ours.Keys), InOrder(theirs.Keys))
    ensures ourLeft.Keys == ours.Keys && theirLeft.Keys == theirs.Keys
  {
    hide InOrder, KeySet, Row, Rows;
    mismatch, ourLeft, theirLeft := [], ours, theirs;
    ghost var start := Left([], ours, theirs);
    var keys := SortedKeys([ourLeft]);
    KeySetOf(ours, theirs);
    RowsNone(start, InOrder(theirs.Keys));
    for i := 0 to |keys|
      invariant Left(mismatch, ourLeft, theirLeft) == Rows(start, keys[..i], InOrder(theirs.Keys))
    {
      ghost var before := Left(mismatch, ourLeft, theirLeft);
      RowsKeepKeys(start, keys[..i], InOrder(theirs.Keys));
      RowsNext(start, keys, i, InOrder(theirs.Keys));
      var k := keys[i];
      KeySetOf(theirLeft, theirs);
      var others := SortedKeys([theirLeft]);
      RowNone(before, k);
      for j := 0 to |others|
        invariant Left(mismatch, ourLeft, theirLeft) == Row(before, k, others[..j])
      {
        RowNext(before, k, others, j);
        var other := others[j];
        if other.line != k.line || other.category != k.category || other.severity == k.severity {
          continue;
        }
        var mine, yours := At(ourLeft, k), At(theirLeft, other);
        var shared := Min(|mine|, |yours|);
        if shared == 0 {
          continue;
        }
        mismatch := mismatch + [SeverityEntry(k.line, k.category, k.severity, other.severity, shared, mine[..shared], yours[..shared])];
        ourLeft, theirLeft := ourLeft[k := mine[shared..]], theirLeft[other := yours[shared..]];
      }
      assert others[..|others|] == others;
    }
    assert keys[..|keys|] == keys;
    RowsKeepKeys(start, keys, InOrder(theirs.Keys));
  }

  lemma RowsNone(s: Left, others: seq<Key>)
    ensures Rows(s, [], others) == s
  {
  }

  lemma RowNone(s: Left, k: Key)
    ensures Row(s, k, []) == s
  {
  }

  lemma RowsNext(s: Left, keys: seq<Key>, i: nat, others: seq<Key>)
    requires i < |keys|
    ensures Rows(s, keys[..i + 1], others) == Row(Rows(s, keys[..i], others), keys[i], others)
  {
    assert keys[..i + 1][..i] == keys[..i];
  }

  lemma RowNext(s: Left, k: Key, others: seq<Key>, j: nat)
    requires j < |others|
    ensures Row(s, k, others[..j + 1]) == PairStep(Row(s, k, others[..j]), k, others[j])
  {
    assert others[..j + 1][..j] == others[..j];
  }
}
