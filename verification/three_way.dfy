/** The three-way partition of cmd/pilot-diff (syside.go) and its agreement with the two-way one. */
module ThreeWay {
  import opened Diagnostics
  import opened TwoWay
  import opened TwoWayTotals

  /** Which implementations report a tuple. */
  datatype Sides = AllThree | OursAndThird | PilotAndThird | OursAndPilot | OursAlone | PilotAlone | ThirdAlone

  datatype Entry3 = Entry3(key: Key, count: nat, sides: Sides, ours: seq<Diagnostic>, theirs: seq<Diagnostic>, third: seq<Diagnostic>)

  datatype File3 = File3(diagnostics: nat, entries: seq<Entry3>)

  /** SysideFile.entry: nothing is recorded for a count of zero. */
  function EntryIf(e: Entry3): seq<Entry3> {
    if e.count == 0 then [] else [e]
  }

  function Nonzero(es: seq<Entry3>): seq<Entry3> {
    if es == [] then [] else Nonzero(es[..|es| - 1]) + EntryIf(es[|es| - 1])
  }

  /** How many diagnostics of a key each of the shared labels takes, one after the other. */
  datatype Cuts = Cuts(all: nat, withOurs: nat, withPilot: nat, agreed: nat)

  function CutsOf(m: nat, p: nat, t: nat): (c: Cuts)
    ensures c.all + c.withOurs + c.agreed <= m && c.all + c.withPilot + c.agreed <= p && c.all + c.withOurs + c.withPilot <= t
  {
    var all := Min(m, Min(p, t));
    var withOurs := Min(m - all, t - all);
    var withPilot := Min(p - all, t - all - withOurs);
    Cuts(all, withOurs, withPilot, Min(m - all - withOurs, p - all - withPilot))
  }

  /** The n diagnostics from i on. */
  function Part(ds: seq<Diagnostic>, i: nat, n: nat): seq<Diagnostic>
    requires i + n <= |ds|
  {
    ds[i..i + n]
  }

  /** The entries of one key: each side's group is cut into the labels naming it. */
  function KeyEntries(k: Key, mine: seq<Diagnostic>, pilot: seq<Diagnostic>, third: seq<Diagnostic>): seq<Entry3> {
    var c := CutsOf(|mine|, |pilot|, |third|);
    var m, p, t := c.all + c.withOurs + c.agreed, c.all + c.withPilot + c.agreed, c.all + c.withOurs + c.withPilot;
    Nonzero(SharedEntries(k, mine, pilot, third, c) +
      LoneEntries(k, Part(mine, m, |mine| - m), Part(pilot, p, |pilot| - p), Part(third, t, |third| - t)))
  }

  function SharedEntries(k: Key, mine: seq<Diagnostic>, pilot: seq<Diagnostic>, third: seq<Diagnostic>, c: Cuts): seq<Entry3>
    requires c == CutsOf(|mine|, |pilot|, |third|)
  {
    var m, p := c.all + c.withOurs, c.all + c.withPilot;
    [Entry3(k, c.all, AllThree, Part(mine, 0, c.all), Part(pilot, 0, c.all), Part(third, 0, c.all)),
     Entry3(k, c.withOurs, OursAndThird, Part(mine, c.all, c.withOurs), [], Part(third, c.all, c.withOurs)),
     Entry3(k, c.withPilot, PilotAndThird, [], Part(pilot, c.all, c.withPilot), Part(third, m, c.withPilot)),
     Entry3(k, c.agreed, OursAndPilot, Part(mine, m, c.agreed), Part(pilot, p, c.agreed), [])]
  }

  function LoneEntries(k: Key, mine: seq<Diagnostic>, pilot: seq<Diagnostic>, third: seq<Diagnostic>): seq<Entry3> {
    [Entry3(k, |mine|, OursAlone, mine, [], []), Entry3(k, |pilot|, PilotAlone, [], pilot, []),
     Entry3(k, |third|, ThirdAlone, [], [], third)]
  }

  function Entries(ours: Groups, theirs: Groups, third: Groups, keys: seq<Key>): seq<Entry3> {
    if keys == [] then []
    else
      var n := |keys| - 1;
      Entries(ours, theirs, third, keys[..n]) + KeyEntries(keys[n], At(ours, keys[n]), At(theirs, keys[n]), At(third, keys[n]))
  }

  ghost function Keys3(ours: seq<Diagnostic>, theirs: seq<Diagnostic>, third: seq<Diagnostic>): seq<Key> {
    InOrder(Grouped(ours).Keys + Grouped(theirs).Keys + Grouped(third).Keys)
  }

  /** What compareSysideFile returns. */
  ghost function Compared3(ours: seq<Diagnostic>, theirs: seq<Diagnostic>, third: seq<Diagnostic>): File3 {
    File3(|third|, Entries(Grouped(ours), Grouped(theirs), Grouped(third), Keys3(ours, theirs, third)))
  }

  // ----- compareSysideFile -----

  /** take: the first count of a group, and what remains of it. */
  method Take(group: seq<Diagnostic>, count: nat) returns (taken: seq<Diagnostic>, rest: seq<Diagnostic>)
    ensures count <= |group| ==> taken == Part(group, 0, count) && rest == Part(group, count, |group| - count)
    ensures count > |group| ==> taken == group && rest == []
  {
    var n := count;
    if n > |group| {
      n := |group|;
    }
    taken, rest := group[..n], group[n..];
  }

  /** A part of what remains is a part of the whole. */
  lemma Onward(ds: seq<Diagnostic>, i: nat, rest: seq<Diagnostic>, n: nat)
    requires i <= |ds| && rest == Part(ds, i, |ds| - i) && n <= |rest|
    ensures |rest| == |ds| - i && |Part(ds, i + n, |ds| - i - n)| == |ds| - i - n
    ensures Part(rest, 0, n) == Part(ds, i, n) && Part(rest, n, |rest| - n) == Part(ds, i + n, |ds| - i - n)
  {
  }

  lemma Whole(ds: seq<Diagnostic>)
    ensures Part(ds, 0, |ds|) == ds
  {
  }

  lemma KeySetOf3(a: Groups, b: Groups, c: Groups)
    ensures KeySet([a, b, c]) == a.Keys + b.Keys + c.Keys
  {
    assert [a, b, c][..2] == [a, b];
    KeySetOf(a, b);
  }

  lemma EntriesNone(ours: Groups, theirs: Groups, third: Groups)
    ensures Entries(ours, theirs, third, []) == []
  {
  }

  lemma EntriesLast(ours: Groups, theirs: Groups, third: Groups, keys: seq<Key>)
    requires keys != []
    ensures var n := |keys| - 1;
      Entries(ours, theirs, third, keys) ==
        Entries(ours, theirs, third, keys[..n]) + KeyEntries(keys[n], At(ours, keys[n]), At(theirs, keys[n]), At(third, keys[n]))
  {
    hide KeyEntries;
  }

  lemma CutsAre(m: nat, p: nat, t: nat)
    ensures var c := CutsOf(m, p, t);
      && c.all == Min(m, Min(p, t)) && c.withOurs == Min(m - c.all, t - c.all)
      && c.withPilot == Min(p - c.all, t - c.all - c.withOurs) && c.agreed == Min(m - c.all - c.withOurs, p - c.all - c.withPilot)
  {
  }

  lemma MinBounds(a: nat, b: nat)
    ensures Min(a, b) <= a && Min(a, b) <= b
  {
  }

  /** One label two groups share: their fronts, and what remains of them. */
  method TakePair(a: seq<Diagnostic>, b: seq<Diagnostic>, ghost aAll: seq<Diagnostic>, ghost i: nat, ghost bAll: seq<Diagnostic>, ghost j: nat)
    returns (n: nat, taken: (seq<Diagnostic>, seq<Diagnostic>), aRest: seq<Diagnostic>, bRest: seq<Diagnostic>)
    requires i <= |aAll| && a == Part(aAll, i, |aAll| - i) && j <= |bAll| && b == Part(bAll, j, |bAll| - j)
    ensures n == Min(|aAll| - i, |bAll| - j) && n <= |aAll| - i && n <= |bAll| - j
    ensures taken.0 == Part(aAll, i, n) && aRest == Part(aAll, i + n, |aAll| - i - n)
    ensures taken.1 == Part(bAll, j, n) && bRest == Part(bAll, j + n, |bAll| - j - n)
  {
    hide Part, Min;
    MinBounds(|a|, |b|);
    n := Min(|a|, |b|);
    Onward(aAll, i, a, n);
    Onward(bAll, j, b, n);
    var front, back;
    front, aRest := Take(a, n);
    back, bRest := Take(b, n);
    taken := (front, back);
  }

  /** The body of compareSysideFile's loop, first part: what the shared labels take, and what remains. */
  method TakeShared(k: Key, ours: seq<Diagnostic>, theirs: seq<Diagnostic>, syside: seq<Diagnostic>)
    returns (entries: seq<Entry3>, mine: seq<Diagnostic>, pilot: seq<Diagnostic>, third: seq<Diagnostic>)
    ensures var c := CutsOf(|ours|, |theirs|, |syside|);
      var m, p, t := c.all + c.withOurs + c.agreed, c.all + c.withPilot + c.agreed, c.all + c.withOurs + c.withPilot;
      && entries == Nonzero(SharedEntries(k, ours, theirs, syside, c)) && mine == Part(ours, m, |ours| - m)
      && pilot == Part(theirs, p, |theirs| - p) && third == Part(syside, t, |syside| - t)
  {
    hide EntryIf, Part, SharedEntries, CutsOf, Min, Nonzero;
    ghost var cuts := CutsOf(|ours|, |theirs|, |syside|);
    CutsAre(|ours|, |theirs|, |syside|);
    SharedIs(k, ours, theirs, syside, cuts);
    Whole(ours);
    Whole(theirs);
    Whole(syside);
    var all := Min(|ours|, Min(|theirs|, |syside|));
    Onward(ours, 0, ours, all);
    Onward(theirs, 0, theirs, all);
    Onward(syside, 0, syside, all);
    var a, b, c;
    a, mine := Take(ours, all);
    b, pilot := Take(theirs, all);
    c, third := Take(syside, all);
    entries := EntryIf(Entry3(k, all, AllThree, a, b, c));
    var withOurs, withPilot, agreed, taken;
    withOurs, taken, mine, third := TakePair(mine, third, ours, all, syside, all);
    entries := entries + EntryIf(Entry3(k, withOurs, OursAndThird, taken.0, [], taken.1));
    withPilot, taken, pilot, third := TakePair(pilot, third, theirs, all, syside, all + withOurs);
    entries := entries + EntryIf(Entry3(k, withPilot, PilotAndThird, [], taken.0, taken.1));
    agreed, taken, mine, pilot := TakePair(mine, pilot, ours, all + withOurs, theirs, all + withPilot);
    entries := entries + EntryIf(Entry3(k, agreed, OursAndPilot, taken.0, taken.1, []));
  }

  method CompareKey(k: Key, ours: seq<Diagnostic>, theirs: seq<Diagnostic>, syside: seq<Diagnostic>) returns (entries: seq<Entry3>)
    ensures entries == KeyEntries(k, ours, theirs, syside)
  {
    hide EntryIf, Part, SharedEntries, LoneEntries, CutsOf, Nonzero;
    ghost var cuts := CutsOf(|ours|, |theirs|, |syside|);
    var mine, pilot, third;
    entries, mine, pilot, third := TakeShared(k, ours, theirs, syside);
    NonzeroConcat(SharedEntries(k, ours, theirs, syside, cuts), LoneEntries(k, mine, pilot, third));
    LoneIs(k, mine, pilot, third, entries);
    entries := entries + EntryIf(Entry3(k, |mine|, OursAlone, mine, [], []));
    entries := entries + EntryIf(Entry3(k, |pilot|, PilotAlone, [], pilot, []));
    entries := entries + EntryIf(Entry3(k, |third|, ThirdAlone, [], [], third));
  }

  lemma NonzeroNext(es: seq<Entry3>, e: Entry3)
    ensures Nonzero(es + [e]) == Nonzero(es) + EntryIf(e) && Nonzero([]) == []
  {
    assert (es + [e])[..|es|] == es;
  }

  lemma {:induction false} NonzeroConcat(a: seq<Entry3>, b: seq<Entry3>)
    ensures Nonzero(a + b) == Nonzero(a) + Nonzero(b)
  {
    if b == [] {
      assert a + b == a;
    } else {
      var n := |b| - 1;
      NonzeroConcat(a, b[..n]);
      assert (a + b)[..|a + b| - 1] == a + b[..n] && (a + b)[|a + b| - 1] == b[n];
    }
  }

  lemma NonzeroOfThree(a: Entry3, b: Entry3, c: Entry3)
    ensures Nonzero([a, b, c]) == EntryIf(a) + EntryIf(b) + EntryIf(c)
  {
    hide Nonzero, EntryIf;
    NonzeroNext([], a);
    NonzeroNext([a], b);
    NonzeroNext([a, b], c);
    assert [] + [a] == [a] && [a] + [b] == [a, b] && [a, b] + [c] == [a, b, c];
    assert [] + EntryIf(a) == EntryIf(a);
  }

  lemma SharedIs(k: Key, mine: seq<Diagnostic>, pilot: seq<Diagnostic>, third: seq<Diagnostic>, c: Cuts)
    requires c == CutsOf(|mine|, |pilot|, |third|)
    ensures var m, p := c.all + c.withOurs, c.all + c.withPilot;
      Nonzero(SharedEntries(k, mine, pilot, third, c)) ==
        EntryIf(Entry3(k, c.all, AllThree, Part(mine, 0, c.all), Part(pilot, 0, c.all), Part(third, 0, c.all)))
        + EntryIf(Entry3(k, c.withOurs, OursAndThird, Part(mine, c.all, c.withOurs), [], Part(third, c.all, c.withOurs)))
        + EntryIf(Entry3(k, c.withPilot, PilotAndThird, [], Part(pilot, c.all, c.withPilot), Part(third, m, c.withPilot)))
        + EntryIf(Entry3(k, c.agreed, OursAndPilot, Part(mine, m, c.agreed), Part(pilot, p, c.agreed), []))
  {
    hide EntryIf, Part, CutsOf, Nonzero;
    var es := SharedEntries(k, mine, pilot, third, c);
    NonzeroOfThree(es[0], es[1], es[2]);
    NonzeroNext([es[0], es[1], es[2]], es[3]);
    assert es == [es[0], es[1], es[2]] + [es[3]];
  }

  lemma LoneIs(k: Key, mine: seq<Diagnostic>, pilot: seq<Diagnostic>, third: seq<Diagnostic>, shared: seq<Entry3>)
    ensures shared + Nonzero(LoneEntries(k, mine, pilot, third)) ==
      shared + EntryIf(Entry3(k, |mine|, OursAlone, mine, [], [])) + EntryIf(Entry3(k, |pilot|, PilotAlone, [], pilot, [])) +
        EntryIf(Entry3(k, |third|, ThirdAlone, [], [], third))
  {
    hide EntryIf, Nonzero;
    var es := LoneEntries(k, mine, pilot, third);
    NonzeroOfThree(es[0], es[1], es[2]);
    assert es == [es[0], es[1], es[2]];
  }

  method CompareSysideFile(ours: seq<Diagnostic>, theirs: seq<Diagnostic>, syside: seq<Diagnostic>) returns (file: File3)
    ensures file == Compared3(ours, theirs, syside)
  {
    hide InOrder, KeySet, Grouped, KeyEntries, Entries;
    var ourGroups := Group(ours);
    var theirGroups := Group(theirs);
    var sysideGroups := Group(syside);
    var keys := SortedKeys([ourGroups, theirGroups, sysideGroups]);
    KeySetOf3(ourGroups, theirGroups, sysideGroups);
    var entries := [];
    EntriesNone(ourGroups, theirGroups, sysideGroups);
    for i := 0 to |keys|
      invariant entries == Entries(ourGroups, theirGroups, sysideGroups, keys[..i])
    {
      EntriesLast(ourGroups, theirGroups, sysideGroups, keys[..i + 1]);
      assert keys[..i + 1][..i] == keys[..i];
      var more := CompareKey(keys[i], At(ourGroups, keys[i]), At(theirGroups, keys[i]), At(sysideGroups, keys[i]));
      entries := entries + more;
    }
    assert keys[..|keys|] == keys;
    file := File3(|syside|, entries);
  }

  // ----- Which diagnostics the entries account for -----

  /** The diagnostics of one side in the entries of a key. */
  function SideOf(es: seq<Entry3>, k: Key): (seq<Diagnostic>, seq<Diagnostic>, seq<Diagnostic>) {
    if es == [] then ([], [], [])
    else
      var n := |es| - 1;
      var before := SideOf(es[..n], k);
      if es[n].key == k then (before.0 + es[n].ours, before.1 + es[n].theirs, before.2 + es[n].third) else before
  }

  lemma SideNext(es: seq<Entry3>, e: Entry3, x: Key)
    ensures var t := SideOf(es, x);
      SideOf(es + [e], x) == if x == e.key then (t.0 + e.ours, t.1 + e.theirs, t.2 + e.third) else t
    ensures SideOf([], x) == ([], [], [])
  {
    assert (es + [e])[..|es|] == es;
  }

  lemma SideOfThree(a: Entry3, b: Entry3, c: Entry3, x: Key)
    requires a.key == b.key == c.key
    ensures SideOf([a, b, c], x) ==
      if x == a.key then (a.ours + b.ours + c.ours, a.theirs + b.theirs + c.theirs, a.third + b.third + c.third) else ([], [], [])
  {
    hide SideOf;
    SideNext([], a, x);
    SideNext([a], b, x);
    SideNext([a, b], c, x);
    assert [] + [a] == [a] && [a] + [b] == [a, b] && [a, b] + [c] == [a, b, c];
    NoTail(a.ours);
    NoTail(a.theirs);
    NoTail(a.third);
  }

  /** An entry that counts nothing holds nothing. */
  ghost predicate Honest(es: seq<Entry3>) {
    forall e | e in es :: e.count == 0 ==> e.ours == [] && e.theirs == [] && e.third == []
  }

  /** Dropping entries that count nothing loses nothing. */
  lemma {:induction false} SideOfNonzero(es: seq<Entry3>, x: Key)
    requires Honest(es)
    ensures SideOf(Nonzero(es), x) == SideOf(es, x)
  {
    if es != [] {
      var n := |es| - 1;
      var e := es[n];
      assert e in es;
      SideOfNonzero(es[..n], x);
      SideNext(Nonzero(es[..n]), e, x);
      assert Nonzero(es[..n]) + [] == Nonzero(es[..n]);
      var t := SideOf(es[..n], x);
      assert t.0 + [] == t.0 && t.1 + [] == t.1 && t.2 + [] == t.2;
    }
  }

  lemma {:induction false} SideConcat(a: seq<Entry3>, b: seq<Entry3>, k: Key)
    ensures var s, t := SideOf(a, k), SideOf(b, k);
      SideOf(a + b, k) == (s.0 + t.0, s.1 + t.1, s.2 + t.2)
  {
    var s := SideOf(a, k);
    if b == [] {
      assert a + b == a && s.0 + [] == s.0 && s.1 + [] == s.1 && s.2 + [] == s.2;
    } else {
      var n := |b| - 1;
      SideConcat(a, b[..n], k);
      assert (a + b)[..|a + b| - 1] == a + b[..n] && (a + b)[|a + b| - 1] == b[n];
      var t := SideOf(b[..n], k);
      assert (s.0 + t.0) + b[n].ours == s.0 + (t.0 + b[n].ours);
      assert (s.1 + t.1) + b[n].theirs == s.1 + (t.1 + b[n].theirs);
      assert (s.2 + t.2) + b[n].third == s.2 + (t.2 + b[n].third);
    }
  }

  /** Consecutive parts make up the whole. */
  lemma Parts(ds: seq<Diagnostic>, a: nat, b: nat, c: nat)
    requires a + b + c <= |ds|
    ensures Part(ds, 0, a) + Part(ds, a, b) + Part(ds, a + b, c) + Part(ds, a + b + c, |ds| - a - b - c) == ds
  {
  }

  lemma SharedAccount(k: Key, mine: seq<Diagnostic>, pilot: seq<Diagnostic>, third: seq<Diagnostic>, x: Key)
    ensures var c := CutsOf(|mine|, |pilot|, |third|);
      var m, p := c.all + c.withOurs, c.all + c.withPilot;
      && Honest(SharedEntries(k, mine, pilot, third, c))
      && SideOf(SharedEntries(k, mine, pilot, third, c), x) ==
        if x != k then ([], [], [])
        else (Part(mine, 0, c.all) + Part(mine, c.all, c.withOurs) + Part(mine, m, c.agreed),
              Part(pilot, 0, c.all) + Part(pilot, c.all, c.withPilot) + Part(pilot, p, c.agreed),
              Part(third, 0, c.all) + Part(third, c.all, c.withOurs) + Part(third, m, c.withPilot))
  {
    hide SideOf, CutsOf;
    var c := CutsOf(|mine|, |pilot|, |third|);
    var es := SharedEntries(k, mine, pilot, third, c);
    SideOfThree(es[0], es[1], es[2], x);
    SideNext([es[0], es[1], es[2]], es[3], x);
    assert es == [es[0], es[1], es[2]] + [es[3]];
    hide Part;
    NoTail(es[0].ours + es[1].ours);
    NoTail(es[0].theirs);
    NoTail(es[0].third + es[1].third + es[2].third);
  }

  lemma LoneAccount(k: Key, mine: seq<Diagnostic>, pilot: seq<Diagnostic>, third: seq<Diagnostic>, x: Key)
    ensures Honest(LoneEntries(k, mine, pilot, third))
    ensures SideOf(LoneEntries(k, mine, pilot, third), x) == if x == k then (mine, pilot, third) else ([], [], [])
  {
    hide SideOf;
    var es := LoneEntries(k, mine, pilot, third);
    SideOfThree(es[0], es[1], es[2], x);
    assert es == [es[0], es[1], es[2]];
    NoTail(mine);
    NoTail(pilot);
    NoTail(third);
    NoTail<Diagnostic>([]);
  }

  /** The entries of a key account for each side's group, in order. */
  lemma KeyEntriesAccount(k: Key, mine: seq<Diagnostic>, pilot: seq<Diagnostic>, third: seq<Diagnostic>, x: Key)
    ensures SideOf(KeyEntries(k, mine, pilot, third), x) == if x == k then (mine, pilot, third) else ([], [], [])
  {
    hide SideOf, SharedEntries, LoneEntries, Part, CutsOf, Nonzero;
    var c := CutsOf(|mine|, |pilot|, |third|);
    var m, p, t := c.all + c.withOurs + c.agreed, c.all + c.withPilot + c.agreed, c.all + c.withOurs + c.withPilot;
    var ms, ps, ts := Part(mine, m, |mine| - m), Part(pilot, p, |pilot| - p), Part(third, t, |third| - t);
    var shared, lone := SharedEntries(k, mine, pilot, third, c), LoneEntries(k, ms, ps, ts);
    SharedAccount(k, mine, pilot, third, x);
    LoneAccount(k, ms, ps, ts, x);
    SideConcat(shared, lone, x);
    HonestConcat(shared, lone);
    SideOfNonzero(shared + lone, x);
    Parts(mine, c.all, c.withOurs, c.agreed);
    Parts(pilot, c.all, c.withPilot, c.agreed);
    Parts(third, c.all, c.withOurs, c.withPilot);
    NoTail<Diagnostic>([]);
  }

  lemma HonestConcat(a: seq<Entry3>, b: seq<Entry3>)
    requires Honest(a) && Honest(b)
    ensures Honest(a + b)
  {
  }

  lemma NoTail<T>(a: seq<T>)
    ensures a + [] == a && [] + a == a
  {
  }

  lemma {:induction false} EntriesAccount(ours: Groups, theirs: Groups, third: Groups, keys: seq<Key>, x: Key)
    requires Unlike(keys)
    ensures SideOf(Entries(ours, theirs, third, keys), x) ==
      if x in keys then (At(ours, x), At(theirs, x), At(third, x)) else ([], [], [])
  {
    hide Entries, SideOf, KeyEntries;
    if keys == [] {
      EntriesNone(ours, theirs, third);
      SideNone(x);
    } else {
      var n := |keys| - 1;
      var k := keys[n];
      EntriesAccount(ours, theirs, third, keys[..n], x);
      EntriesLast(ours, theirs, third, keys);
      var more := KeyEntries(k, At(ours, k), At(theirs, k), At(third, k));
      SideConcat(Entries(ours, theirs, third, keys[..n]), more, x);
      KeyEntriesAccount(k, At(ours, k), At(theirs, k), At(third, k), x);
      assert x in keys <==> x in keys[..n] || x == k;
      NoTail(At(ours, x));
      NoTail(At(theirs, x));
      NoTail(At(third, x));
      NoTail<Diagnostic>([]);
    }
  }

  lemma SideNone(x: Key)
    ensures SideOf([], x) == ([], [], [])
  {
  }

  /** Under each key, each side's diagnostics are, in order, those of the entries: none is lost, none is
      counted twice. */
  lemma NothingLost3(ours: seq<Diagnostic>, theirs: seq<Diagnostic>, third: seq<Diagnostic>, k: Key)
    ensures SideOf(Compared3(ours, theirs, third).entries, k) == (OfKey(ours, k), OfKey(theirs, k), OfKey(third, k))
  {
    hide Entries, SideOf, Grouped, InOrder, OfKey, Ascending;
    GroupedMeaning(ours, k);
    GroupedMeaning(theirs, k);
    GroupedMeaning(third, k);
    var keys := Keys3(ours, theirs, third);
    InOrderSorts(Grouped(ours).Keys + Grouped(theirs).Keys + Grouped(third).Keys);
    AscendingUnlike(keys);
    EntriesAccount(Grouped(ours), Grouped(theirs), Grouped(third), keys, k);
  }

  // ----- How much each label counts -----

  /** What an entry of one label counts. */
  function LabelCount(e: Entry3, sides: Sides): nat { if e.sides == sides then e.count else 0 }

  function LabelWeights(es: seq<Entry3>, sides: Sides): Weights {
    seq(|es|, i requires 0 <= i < |es| => (es[i].key, LabelCount(es[i], sides)))
  }

  /** The share of a label under a key that the sides report m, p and t times. */
  function Share(sides: Sides, m: nat, p: nat, t: nat): nat {
    var all := Min(m, Min(p, t));
    match sides
    case AllThree => all
    case OursAndThird => Min(m, t) - all
    case PilotAndThird => Min(p, t) - all
    case OursAndPilot => Min(m, p) - all
    case OursAlone => m - Min(m, if p < t then t else p)
    case PilotAlone => p - Min(p, if m < t then t else m)
    case ThirdAlone => t - Min(t, if m < p then p else m)
  }

  lemma LabelConcat(a: seq<Entry3>, b: seq<Entry3>, sides: Sides, k: Key)
    ensures Weight(LabelWeights(a + b, sides), k) == Weight(LabelWeights(a, sides), k) + Weight(LabelWeights(b, sides), k)
  {
    assert LabelWeights(a + b, sides) == LabelWeights(a, sides) + LabelWeights(b, sides);
    WeightConcat(LabelWeights(a, sides), LabelWeights(b, sides), k);
  }

  lemma LabelNext(es: seq<Entry3>, e: Entry3, sides: Sides, x: Key)
    ensures Weight(LabelWeights(es + [e], sides), x) == Weight(LabelWeights(es, sides), x) + (if e.key == x then LabelCount(e, sides) else 0)
    ensures Weight(LabelWeights([], sides), x) == 0
  {
    assert LabelWeights(es + [e], sides)[..|es|] == LabelWeights(es, sides);
  }

  lemma LabelOfThree(a: Entry3, b: Entry3, c: Entry3, sides: Sides, x: Key)
    requires a.key == b.key == c.key
    ensures Weight(LabelWeights([a, b, c], sides), x) ==
      if x == a.key then LabelCount(a, sides) + LabelCount(b, sides) + LabelCount(c, sides) else 0
  {
    hide Weight, LabelWeights;
    LabelNext([], a, sides, x);
    LabelNext([a], b, sides, x);
    LabelNext([a, b], c, sides, x);
    assert [] + [a] == [a] && [a] + [b] == [a, b] && [a, b] + [c] == [a, b, c];
  }

  lemma {:induction false} LabelOfNonzero(es: seq<Entry3>, sides: Sides, x: Key)
    ensures Weight(LabelWeights(Nonzero(es), sides), x) == Weight(LabelWeights(es, sides), x)
  {
    hide Weight, LabelWeights;
    if es != [] {
      var n := |es| - 1;
      LabelOfNonzero(es[..n], sides, x);
      LabelNext(es[..n], es[n], sides, x);
      LabelNext(Nonzero(es[..n]), es[n], sides, x);
      assert es == es[..n] + [es[n]] && Nonzero(es[..n]) + [] == Nonzero(es[..n]);
    }
  }

  /** Each label counts, under a key, exactly its share: all three the least count, a pair what the
      two have beyond it, one alone what it has beyond the larger of the others. */
  lemma KeyEntriesShare(k: Key, mine: seq<Diagnostic>, pilot: seq<Diagnostic>, third: seq<Diagnostic>, sides: Sides, x: Key)
    ensures Weight(LabelWeights(KeyEntries(k, mine, pilot, third), sides), x) ==
      if x == k then Share(sides, |mine|, |pilot|, |third|) else 0
  {
    hide LabelWeights, Weight, Share, SharedEntries, LoneEntries, CutsOf, Nonzero;
    var c := CutsOf(|mine|, |pilot|, |third|);
    var m, p, t := c.all + c.withOurs + c.agreed, c.all + c.withPilot + c.agreed, c.all + c.withOurs + c.withPilot;
    var ms, ps, ts := Part(mine, m, |mine| - m), Part(pilot, p, |pilot| - p), Part(third, t, |third| - t);
    var shared, lone := SharedEntries(k, mine, pilot, third, c), LoneEntries(k, ms, ps, ts);
    LabelOfNonzero(shared + lone, sides, x);
    LabelConcat(shared, lone, sides, x);
    SharedShare(k, mine, pilot, third, sides, x);
    LoneShare(k, ms, ps, ts, sides, x);
    SharesTaken(|mine|, |pilot|, |third|, sides);
  }

  lemma SharedShare(k: Key, mine: seq<Diagnostic>, pilot: seq<Diagnostic>, third: seq<Diagnostic>, sides: Sides, x: Key)
    ensures var c := CutsOf(|mine|, |pilot|, |third|);
      Weight(LabelWeights(SharedEntries(k, mine, pilot, third, c), sides), x) ==
        if x != k then 0
        else match sides
          case AllThree => c.all
          case OursAndThird => c.withOurs
          case PilotAndThird => c.withPilot
          case OursAndPilot => c.agreed
          case _ => 0
  {
    hide LabelWeights, Weight, Part, CutsOf;
    var es := SharedEntries(k, mine, pilot, third, CutsOf(|mine|, |pilot|, |third|));
    LabelOfThree(es[0], es[1], es[2], sides, x);
    LabelNext([es[0], es[1], es[2]], es[3], sides, x);
    assert es == [es[0], es[1], es[2]] + [es[3]];
  }

  lemma LoneShare(k: Key, mine: seq<Diagnostic>, pilot: seq<Diagnostic>, third: seq<Diagnostic>, sides: Sides, x: Key)
    ensures Weight(LabelWeights(LoneEntries(k, mine, pilot, third), sides), x) ==
      if x != k then 0
      else match sides
        case OursAlone => |mine|
        case PilotAlone => |pilot|
        case ThirdAlone => |third|
        case _ => 0
  {
    hide LabelWeights, Weight;
    var es := LoneEntries(k, mine, pilot, third);
    LabelOfThree(es[0], es[1], es[2], sides, x);
    assert es == [es[0], es[1], es[2]];
  }

  /** Taking the labels one after the other leaves each with its share. */
  lemma SharesTaken(m: nat, p: nat, t: nat, sides: Sides)
    ensures var c := CutsOf(m, p, t);
      Share(sides, m, p, t) ==
        match sides
        case AllThree => c.all
        case OursAndThird => c.withOurs
        case PilotAndThird => c.withPilot
        case OursAndPilot => c.agreed
        case OursAlone => m - c.all - c.withOurs - c.agreed
        case PilotAlone => p - c.all - c.withPilot - c.agreed
        case ThirdAlone => t - c.all - c.withOurs - c.withPilot
  {
  }

  lemma {:induction false} EntriesShare(ours: Groups, theirs: Groups, third: Groups, keys: seq<Key>, sides: Sides, x: Key)
    requires Unlike(keys)
    ensures Weight(LabelWeights(Entries(ours, theirs, third, keys), sides), x) ==
      if x in keys then Share(sides, |At(ours, x)|, |At(theirs, x)|, |At(third, x)|) else 0
  {
    hide Entries, KeyEntries, LabelWeights, Weight, Share;
    if keys == [] {
      EntriesNone(ours, theirs, third);
      LabelNone(sides, x);
    } else {
      var n := |keys| - 1;
      var k := keys[n];
      EntriesShare(ours, theirs, third, keys[..n], sides, x);
      EntriesLast(ours, theirs, third, keys);
      LabelConcat(Entries(ours, theirs, third, keys[..n]), KeyEntries(k, At(ours, k), At(theirs, k), At(third, k)), sides, x);
      KeyEntriesShare(k, At(ours, k), At(theirs, k), At(third, k), sides, x);
      assert x in keys <==> x in keys[..n] || x == k;
    }
  }

  lemma LabelNone(sides: Sides, x: Key)
    ensures Weight(LabelWeights([], sides), x) == 0
  {
  }

  /** The partition is exact: under every key every label counts its share. */
  lemma LabelsAreExact(ours: seq<Diagnostic>, theirs: seq<Diagnostic>, third: seq<Diagnostic>, sides: Sides, k: Key)
    ensures Weight(LabelWeights(Compared3(ours, theirs, third).entries, sides), k) ==
      Share(sides, |OfKey(ours, k)|, |OfKey(theirs, k)|, |OfKey(third, k)|)
  {
    hide Entries, LabelWeights, Weight, Grouped, InOrder, OfKey, Ascending;
    GroupedMeaning(ours, k);
    GroupedMeaning(theirs, k);
    GroupedMeaning(third, k);
    var keys := Keys3(ours, theirs, third);
    InOrderSorts(Grouped(ours).Keys + Grouped(theirs).Keys + Grouped(third).Keys);
    AscendingUnlike(keys);
    EntriesShare(Grouped(ours), Grouped(theirs), Grouped(third), keys, sides, k);
  }

  /** Under a key at most one pair of implementations agrees beyond what all three report. */
  lemma OnePairAtMost(ours: seq<Diagnostic>, theirs: seq<Diagnostic>, third: seq<Diagnostic>, k: Key)
    ensures var es := Compared3(ours, theirs, third).entries;
      var a, b, c := Weight(LabelWeights(es, OursAndThird), k), Weight(LabelWeights(es, PilotAndThird), k), Weight(LabelWeights(es, OursAndPilot), k);
      (a == 0 && b == 0) || (a == 0 && c == 0) || (b == 0 && c == 0)
  {
    hide Compared3, LabelWeights, Weight, OfKey;
    LabelsAreExact(ours, theirs, third, OursAndThird, k);
    LabelsAreExact(ours, theirs, third, PilotAndThird, k);
    LabelsAreExact(ours, theirs, third, OursAndPilot, k);
  }

  // ----- Sums over keys -----

  /** The count of a label under the keys of interest. */
  function Labelled(f: File3, sides: Sides, p: Key -> bool): nat { Total(LabelWeights(f.entries, sides), p) }

  lemma TotalConcat4(a: Weights, b: Weights, c: Weights, d: Weights, p: Key -> bool)
    ensures Total(a + b + c + d, p) == Total(a, p) + Total(b, p) + Total(c, p) + Total(d, p)
  {
    hide Total;
    TotalConcat(a + b + c, d, p);
    TotalConcat3(a, b, c, p);
  }

  lemma WeightConcat4(a: Weights, b: Weights, c: Weights, d: Weights, k: Key)
    ensures Weight(a + b + c + d, k) == Weight(a, k) + Weight(b, k) + Weight(c, k) + Weight(d, k)
  {
    hide Weight;
    WeightConcat(a + b + c, d, k);
    WeightConcat3(a, b, c, k);
  }

  /** Whatever keys one asks about, each side's diagnostics there are those of the labels naming it. */
  lemma Conserved3(ours: seq<Diagnostic>, theirs: seq<Diagnostic>, third: seq<Diagnostic>, p: Key -> bool)
    ensures var f := Compared3(ours, theirs, third);
      && Total(Ones(ours), p) == Labelled(f, AllThree, p) + Labelled(f, OursAndThird, p) + Labelled(f, OursAndPilot, p) + Labelled(f, OursAlone, p)
      && Total(Ones(theirs), p) == Labelled(f, AllThree, p) + Labelled(f, PilotAndThird, p) + Labelled(f, OursAndPilot, p) + Labelled(f, PilotAlone, p)
      && Total(Ones(third), p) == Labelled(f, AllThree, p) + Labelled(f, OursAndThird, p) + Labelled(f, PilotAndThird, p) + Labelled(f, ThirdAlone, p)
  {
    hide Sum4, OfKey, Compared3, Total, Labelled;
    forall k ensures Sum4(ours, theirs, third, AllThree, OursAndThird, OursAndPilot, OursAlone, k) == |OfKey(ours, k)|
      && Sum4(ours, theirs, third, AllThree, PilotAndThird, OursAndPilot, PilotAlone, k) == |OfKey(theirs, k)|
      && Sum4(ours, theirs, third, AllThree, OursAndThird, PilotAndThird, ThirdAlone, k) == |OfKey(third, k)| {
      SharesSum(ours, theirs, third, k);
    }
    SideConserved(ours, theirs, third, ours, AllThree, OursAndThird, OursAndPilot, OursAlone, p);
    SideConserved(ours, theirs, third, theirs, AllThree, PilotAndThird, OursAndPilot, PilotAlone, p);
    SideConserved(ours, theirs, third, third, AllThree, OursAndThird, PilotAndThird, ThirdAlone, p);
  }

  lemma SharesSum(ours: seq<Diagnostic>, theirs: seq<Diagnostic>, third: seq<Diagnostic>, k: Key)
    ensures Sum4(ours, theirs, third, AllThree, OursAndThird, OursAndPilot, OursAlone, k) == |OfKey(ours, k)|
    ensures Sum4(ours, theirs, third, AllThree, PilotAndThird, OursAndPilot, PilotAlone, k) == |OfKey(theirs, k)|
    ensures Sum4(ours, theirs, third, AllThree, OursAndThird, PilotAndThird, ThirdAlone, k) == |OfKey(third, k)|
  {
    hide OfKey;
  }

  ghost function Sum4(ours: seq<Diagnostic>, theirs: seq<Diagnostic>, third: seq<Diagnostic>, a: Sides, b: Sides, c: Sides, d: Sides, k: Key): nat {
    var m, p, t := |OfKey(ours, k)|, |OfKey(theirs, k)|, |OfKey(third, k)|;
    Share(a, m, p, t) + Share(b, m, p, t) + Share(c, m, p, t) + Share(d, m, p, t)
  }

  lemma SideConserved(ours: seq<Diagnostic>, theirs: seq<Diagnostic>, third: seq<Diagnostic>, side: seq<Diagnostic>,
                      a: Sides, b: Sides, c: Sides, d: Sides, p: Key -> bool)
    requires forall k :: Sum4(ours, theirs, third, a, b, c, d, k) == |OfKey(side, k)|
    ensures var f := Compared3(ours, theirs, third);
      Total(Ones(side), p) == Labelled(f, a, p) + Labelled(f, b, p) + Labelled(f, c, p) + Labelled(f, d, p)
  {
    hide Compared3, LabelWeights, Weight, Total, OfKey, Ones, Share;
    var es := Compared3(ours, theirs, third).entries;
    var sum := LabelWeights(es, a) + LabelWeights(es, b) + LabelWeights(es, c) + LabelWeights(es, d);
    forall k ensures Weight(Ones(side), k) == Weight(sum, k) {
      WeightOfOnes(side, k);
      WeightConcat4(LabelWeights(es, a), LabelWeights(es, b), LabelWeights(es, c), LabelWeights(es, d), k);
      LabelsAreExact(ours, theirs, third, a, k);
      LabelsAreExact(ours, theirs, third, b, k);
      LabelsAreExact(ours, theirs, third, c, k);
      LabelsAreExact(ours, theirs, third, d, k);
      assert Sum4(ours, theirs, third, a, b, c, d, k) == |OfKey(side, k)|;
    }
    TotalsAgree(Ones(side), sum, p);
    TotalConcat4(LabelWeights(es, a), LabelWeights(es, b), LabelWeights(es, c), LabelWeights(es, d), p);
  }

  /** Whatever keys one asks about, what the two-way comparison calls agreement is what all three
      report and what only the two of them do. */
  lemma PartitionsAgree(rel: string, ours: seq<Diagnostic>, theirs: seq<Diagnostic>, third: seq<Diagnostic>, p: Key -> bool)
    ensures var f := Compared3(ours, theirs, third);
      Total(EntryWeights(Compared(rel, ours, theirs).agreement), p) == Labelled(f, AllThree, p) + Labelled(f, OursAndPilot, p)
  {
    hide Compared, Compared3, LabelWeights, Weight, Total, OfKey, EntryWeights;
    var two, es := EntryWeights(Compared(rel, ours, theirs).agreement), Compared3(ours, theirs, third).entries;
    var sum := LabelWeights(es, AllThree) + LabelWeights(es, OursAndPilot);
    forall k ensures Weight(two, k) == Weight(sum, k) {
      AgreementIsExact(rel, ours, theirs, k);
      WeightConcat(LabelWeights(es, AllThree), LabelWeights(es, OursAndPilot), k);
      LabelsAreExact(ours, theirs, third, AllThree, k);
      LabelsAreExact(ours, theirs, third, OursAndPilot, k);
    }
    TotalsAgree(two, sum, p);
    TotalConcat(LabelWeights(es, AllThree), LabelWeights(es, OursAndPilot), p);
  }

  // ----- The order of the entries and what each holds -----

  /** The order in which the labels of one key are recorded. */
  function Rank(sides: Sides): nat {
    match sides
    case AllThree => 0
    case OursAndThird => 1
    case PilotAndThird => 2
    case OursAndPilot => 3
    case OursAlone => 4
    case PilotAlone => 5
    case ThirdAlone => 6
  }

  ghost predicate EntryOrder(a: Entry3, b: Entry3) {
    ReportOrder(a.key, b.key) || (a.key == b.key && Rank(a.sides) < Rank(b.sides))
  }

  ghost predicate InEntryOrder(es: seq<Entry3>) {
    forall i, j | 0 <= i < j < |es| :: EntryOrder(es[i], es[j])
  }

  /** As many diagnostics of each side the label names as the entry counts, and none of the others. */
  predicate HoldsItsSides(e: Entry3) {
    && |e.ours| == (if e.sides in {AllThree, OursAndThird, OursAndPilot, OursAlone} then e.count else 0)
    && |e.theirs| == (if e.sides in {AllThree, PilotAndThird, OursAndPilot, PilotAlone} then e.count else 0)
    && |e.third| == (if e.sides in {AllThree, OursAndThird, PilotAndThird, ThirdAlone} then e.count else 0)
  }

  lemma {:induction false} NonzeroOrdered(es: seq<Entry3>)
    requires InEntryOrder(es)
    ensures InEntryOrder(Nonzero(es)) && forall e | e in Nonzero(es) :: e in es && e.count > 0
  {
    hide EntryOrder;
    if es != [] {
      var n := |es| - 1;
      NonzeroOrdered(es[..n]);
      var before := Nonzero(es[..n]);
      forall i | 0 <= i < |before| ensures EntryOrder(before[i], es[n]) {
        assert before[i] in before;
        var j :| 0 <= j < n && es[..n][j] == before[i];
        assert es[j] == before[i];
      }
    }
  }

  lemma SevenLabels(k: Key, mine: seq<Diagnostic>, pilot: seq<Diagnostic>, third: seq<Diagnostic>) returns (es: seq<Entry3>)
    ensures KeyEntries(k, mine, pilot, third) == Nonzero(es)
    ensures |es| == 7 && forall i | 0 <= i < 7 :: es[i].key == k && Rank(es[i].sides) == i && HoldsItsSides(es[i])
  {
    hide CutsOf, Nonzero;
    var c := CutsOf(|mine|, |pilot|, |third|);
    var m, p, t := c.all + c.withOurs + c.agreed, c.all + c.withPilot + c.agreed, c.all + c.withOurs + c.withPilot;
    es := SharedEntries(k, mine, pilot, third, c) +
      LoneEntries(k, Part(mine, m, |mine| - m), Part(pilot, p, |pilot| - p), Part(third, t, |third| - t));
  }

  lemma KeyEntriesOrdered(k: Key, mine: seq<Diagnostic>, pilot: seq<Diagnostic>, third: seq<Diagnostic>)
    ensures InEntryOrder(KeyEntries(k, mine, pilot, third))
    ensures forall e | e in KeyEntries(k, mine, pilot, third) :: e.key == k && e.count > 0 && HoldsItsSides(e)
  {
    hide ReportOrder, KeyEntries, Nonzero, HoldsItsSides, Rank;
    var es := SevenLabels(k, mine, pilot, third);
    NonzeroOrdered(es);
  }

  lemma {:induction false} EntriesOrdered(ours: Groups, theirs: Groups, third: Groups, keys: seq<Key>)
    requires InReportOrder(keys)
    ensures InEntryOrder(Entries(ours, theirs, third, keys))
    ensures forall e | e in Entries(ours, theirs, third, keys) :: e.key in keys && e.count > 0 && HoldsItsSides(e)
  {
    hide KeyEntries, ReportOrder, HoldsItsSides, Rank, Entries, At;
    EntriesNone(ours, theirs, third);
    if keys != [] {
      var n := |keys| - 1;
      var k := keys[n];
      EntriesLast(ours, theirs, third, keys);
      EntriesOrdered(ours, theirs, third, keys[..n]);
      KeyEntriesOrdered(k, At(ours, k), At(theirs, k), At(third, k));
      OrderedConcat(Entries(ours, theirs, third, keys[..n]), KeyEntries(k, At(ours, k), At(theirs, k), At(third, k)), keys);
    }
  }

  lemma OrderedConcat(a: seq<Entry3>, b: seq<Entry3>, keys: seq<Key>)
    requires keys != [] && InReportOrder(keys) && InEntryOrder(a) && InEntryOrder(b)
    requires (forall e | e in a :: e.key in keys[..|keys| - 1]) && forall e | e in b :: e.key == keys[|keys| - 1]
    ensures InEntryOrder(a + b)
  {
    hide ReportOrder, Rank;
    forall i, j | 0 <= i < |a| && 0 <= j < |b| ensures EntryOrder(a[i], b[j]) {
      assert a[i] in a && b[j] in b;
      var x :| 0 <= x < |keys| - 1 && keys[x] == a[i].key;
    }
  }

  /** The entries come by key and, under a key, by label; each counts something and holds just the
      diagnostics of the sides its label names. */
  lemma PartitionWellFormed(ours: seq<Diagnostic>, theirs: seq<Diagnostic>, third: seq<Diagnostic>)
    ensures var es := Compared3(ours, theirs, third).entries;
      InEntryOrder(es) && forall e | e in es :: e.count > 0 && HoldsItsSides(e)
  {
    hide Entries, Grouped, InOrder, InReportOrder, Ascending, HoldsItsSides, InEntryOrder;
    var keys := Keys3(ours, theirs, third);
    InOrderSorts(Grouped(ours).Keys + Grouped(theirs).Keys + Grouped(third).Keys);
    AscendingReports(keys);
    EntriesOrdered(Grouped(ours), Grouped(theirs), Grouped(third), keys);
  }
}
