/** Sets of literal sets, kept as sorted antichains (cmd/grammar-coverage/classify.go).

    A list of masks stands for its upward closure: the literal sets an input may have that contain
    one of them. Covers(ms, have) says that `have` is in that closure. */
module PathSets {
  import opened Masks

  const MAX_PATHS := 24

  ghost predicate Covers(ms: seq<Mask>, have: set<nat>) {
    exists m | m in ms :: Bits(m) <= have
  }

  // ----- Sorting -----

  ghost predicate Sorted(ms: seq<Mask>) {
    forall i, j | 0 <= i < j < |ms| :: !Less(ms[j], ms[i])
  }

  function Insert(m: Mask, ms: seq<Mask>): (r: seq<Mask>)
    ensures multiset(r) == multiset(ms) + multiset{m}
    ensures Sorted(ms) ==> Sorted(r)
  {
    if ms == [] then [m]
    else if Less(m, ms[0]) then
      InsertFirst(m, ms);
      [m] + ms
    else
      assert ms == [ms[0]] + ms[1..];
      var rest := Insert(m, ms[1..]);
      InsertLater(m, ms, rest);
      [ms[0]] + rest
  }

  lemma InsertFirst(m: Mask, ms: seq<Mask>)
    requires ms != [] && Less(m, ms[0])
    ensures Sorted(ms) ==> Sorted([m] + ms)
  {
    if Sorted(ms) {
      var r := [m] + ms;
      forall i, j | 0 <= i < j < |r| ensures !Less(r[j], r[i]) {
        if i == 0 {
          if Less(r[j], m) {
            LessTransitive(r[j], m, ms[0]);
            LessTotal(ms[0], ms[0]);
          }
        } else {
          assert !Less(ms[j - 1], ms[i - 1]);
        }
      }
    }
  }

  lemma InsertLater(m: Mask, ms: seq<Mask>, rest: seq<Mask>)
    requires ms != [] && !Less(m, ms[0])
    requires multiset(rest) == multiset(ms[1..]) + multiset{m}
    requires Sorted(ms[1..]) ==> Sorted(rest)
    ensures Sorted(ms) ==> Sorted([ms[0]] + rest)
  {
    if Sorted(ms) {
      var r := [ms[0]] + rest;
      forall i, j | 0 <= i < j < |r| ensures !Less(r[j], r[i]) {
        if i == 0 {
          assert rest[j - 1] in multiset(rest);
          assert rest[j - 1] in ms[1..] || rest[j - 1] == m;
        }
      }
    }
  }

  /** What sort.Slice with Less leaves in the slice (see SortIsUnique). */
  function Sort(ms: seq<Mask>): (r: seq<Mask>)
    ensures multiset(r) == multiset(ms)
    ensures Sorted(r)
  {
    if ms == [] then []
    else
      assert ms == [ms[0]] + ms[1..];
      Insert(ms[0], Sort(ms[1..]))
  }

  /** Less is total, so every sorted permutation is the same list: an unstable sort has one outcome. */
  lemma {:induction false} SortIsUnique(a: seq<Mask>, b: seq<Mask>)
    requires Sorted(a) && Sorted(b) && multiset(a) == multiset(b)
    ensures a == b
  {
    if a == [] {
      assert |multiset(b)| == 0;
    } else {
      assert |multiset(a)| == |a| && |multiset(b)| == |b|;
      HeadIsLeast(a, b);
      HeadIsLeast(b, a);
      LessTotal(a[0], b[0]);
      assert a == [a[0]] + a[1..] && b == [b[0]] + b[1..];
      assert multiset(a[1..]) == multiset(a) - multiset{a[0]};
      assert multiset(b[1..]) == multiset(b) - multiset{b[0]};
      SortIsUnique(a[1..], b[1..]);
    }
  }

  lemma HeadIsLeast(a: seq<Mask>, b: seq<Mask>)
    requires a != [] && b != [] && Sorted(a) && multiset(a) == multiset(b)
    ensures !Less(b[0], a[0])
  {
    assert b[0] in multiset(a);
    var i :| 0 <= i < |a| && a[i] == b[0];
    LessTotal(a[0], a[0]);
  }

  lemma SortMembers(ms: seq<Mask>, m: Mask)
    ensures m in Sort(ms) <==> m in ms
  {
    assert m in multiset(Sort(ms)) <==> m in multiset(ms);
  }

  // ----- Pruning -----

  predicate Redundant(candidate: Mask, kept: seq<Mask>) {
    exists k | k in kept :: SubsetOf(k, candidate)
  }

  /** The scan of prune over a sorted list, stopping once `cap` sets are kept. */
  function Keep(rest: seq<Mask>, kept: seq<Mask>, cap: nat): seq<Mask> {
    if rest == [] then kept
    else
      var next := if Redundant(rest[0], kept) then kept else kept + [rest[0]];
      if |next| == cap then next else Keep(rest[1..], next, cap)
  }

  /** The path set prune returns. */
  function Pruned(ms: seq<Mask>): seq<Mask> {
    Keep(Sort(ms), [], MAX_PATHS)
  }

  /** What prune would return without its cap. */
  function Minimal(ms: seq<Mask>): seq<Mask> {
    Keep(Sort(ms), [], |ms| + 1)
  }

  /** No set is lost to the cap. */
  predicate Fits(ms: seq<Mask>) {
    |Minimal(ms)| <= MAX_PATHS
  }

  ghost predicate Antichain(ms: seq<Mask>) {
    forall i, j | 0 <= i < |ms| && 0 <= j < |ms| && i != j :: !(Bits(ms[i]) <= Bits(ms[j]))
  }

  lemma {:induction false} KeepSource(rest: seq<Mask>, kept: seq<Mask>, cap: nat)
    ensures kept <= Keep(rest, kept, cap)
    ensures forall m | m in Keep(rest, kept, cap) :: m in kept || m in rest
  {
    if rest != [] {
      var next := if Redundant(rest[0], kept) then kept else kept + [rest[0]];
      KeepSource(rest[1..], next, cap);
    }
  }

  /** Capping keeps the first, cheapest, sets of the uncapped result. */
  lemma {:induction false} KeepCapped(rest: seq<Mask>, kept: seq<Mask>, cap: nat, big: nat)
    requires |kept| < cap
    requires |kept| + |rest| < big
    ensures var all := Keep(rest, kept, big);
      Keep(rest, kept, cap) == if |all| <= cap then all else all[..cap]
  {
    if rest != [] {
      var next := if Redundant(rest[0], kept) then kept else kept + [rest[0]];
      KeepSource(rest[1..], next, big);
      if |next| < cap {
        KeepCapped(rest[1..], next, cap, big);
      }
    }
  }

  lemma {:induction false} KeepCovers(rest: seq<Mask>, kept: seq<Mask>, big: nat, m: Mask)
    requires |kept| + |rest| < big
    requires m in rest
    ensures Covers(Keep(rest, kept, big), Bits(m))
  {
    var next := if Redundant(rest[0], kept) then kept else kept + [rest[0]];
    KeepSource(rest[1..], next, big);
    var all := Keep(rest[1..], next, big);
    if m == rest[0] {
      if Redundant(m, kept) {
        var k :| k in kept && SubsetOf(k, m);
        assert k in all;
      } else {
        assert m == next[|kept|] == all[|kept|];
      }
    } else {
      KeepCovers(rest[1..], next, big, m);
    }
  }

  /** Scanning in sorted order keeps a sorted list of pairwise incomparable sets. */
  lemma {:induction false} KeepShape(rest: seq<Mask>, kept: seq<Mask>, cap: nat)
    requires Sorted(kept + rest) && Antichain(kept)
    ensures Antichain(Keep(rest, kept, cap)) && Sorted(Keep(rest, kept, cap))
  {
    assert Sorted(kept) by {
      assert forall i, j | 0 <= i < j < |kept| :: (kept + rest)[i] == kept[i] && (kept + rest)[j] == kept[j];
    }
    if rest != [] {
      var c := rest[0];
      if Redundant(c, kept) {
        DropOne(kept, rest);
        KeepShape(rest[1..], kept, cap);
      } else {
        var next := kept + [c];
        assert next + rest[1..] == kept + rest;
        forall i | 0 <= i < |kept|
          ensures !(Bits(kept[i]) <= Bits(c)) && !(Bits(c) <= Bits(kept[i]))
        {
          assert !SubsetOf(kept[i], c);
          assert !Less((kept + rest)[|kept|], (kept + rest)[i]);
          if Bits(c) < Bits(kept[i]) { SubsetLess(c, kept[i]); }
        }
        assert Sorted(next) by {
          assert forall i, j | 0 <= i < j < |next| :: (kept + rest)[i] == next[i] && (kept + rest)[j] == next[j];
        }
        KeepShape(rest[1..], next, cap);
      }
    }
  }

  lemma DropOne(kept: seq<Mask>, rest: seq<Mask>)
    requires rest != [] && Sorted(kept + rest)
    ensures Sorted(kept + rest[1..])
  {
    var a, b := kept + rest, kept + rest[1..];
    forall i, j | 0 <= i < j < |b| ensures !Less(b[j], b[i]) {
      var i', j' := if i < |kept| then i else i + 1, if j < |kept| then j else j + 1;
      assert b[i] == a[i'] && b[j] == a[j'];
    }
  }

  lemma MinimalShape(ms: seq<Mask>)
    ensures Sorted(Minimal(ms)) && Antichain(Minimal(ms))
    ensures forall m | m in Minimal(ms) :: m in ms
  {
    assert [] + Sort(ms) == Sort(ms);
    KeepShape(Sort(ms), [], |ms| + 1);
    KeepSource(Sort(ms), [], |ms| + 1);
    forall m | m in Minimal(ms) ensures m in ms { SortMembers(ms, m); }
  }

  /** The uncapped result holds exactly the sets that contain no other. */
  lemma MinimalExact(ms: seq<Mask>, m: Mask)
    ensures m in Minimal(ms) <==> m in ms && forall o | o in ms :: !(Bits(o) < Bits(m))
  {
    MinimalShape(ms);
    if m in Minimal(ms) {
      forall o | o in ms ensures !(Bits(o) < Bits(m)) {
        MinimalBelow(ms, o);
      }
    } else if m in ms {
      MinimalBelow(ms, m);
      var k :| k in Minimal(ms) && Bits(k) <= Bits(m);
      MaskExtensional(k, m);
    }
  }

  lemma MinimalBelow(ms: seq<Mask>, m: Mask)
    requires m in ms
    ensures Covers(Minimal(ms), Bits(m))
  {
    SortMembers(ms, m);
    assert |multiset(Sort(ms))| == |Sort(ms)| && |multiset(ms)| == |ms|;
    KeepCovers(Sort(ms), [], |ms| + 1, m);
  }

  /** prune returns the first maxPaths, the cheapest, of the sets that contain no other. */
  lemma PruneIsCheapestAntichain(ms: seq<Mask>)
    ensures Sorted(Pruned(ms)) && Antichain(Pruned(ms)) && |Pruned(ms)| <= MAX_PATHS
    ensures Pruned(ms) == if |Minimal(ms)| <= 24 then Minimal(ms) else Minimal(ms)[..24]
    ensures forall m | m in Pruned(ms) :: m in ms
  {
    assert |multiset(Sort(ms))| == |Sort(ms)| && |multiset(ms)| == |ms|;
    KeepCapped(Sort(ms), [], MAX_PATHS, |ms| + 1);
    MinimalShape(ms);
  }

  /** When the cap loses nothing a pruned list covers exactly what its input covers; with the cap it
      still does for the empty literal set and for the set of all literals. */
  lemma PruneKeepsCover(ms: seq<Mask>, have: set<nat>)
    requires Fits(ms) || have == {} || Universe <= have
    ensures Covers(Pruned(ms), have) <==> Covers(ms, have)
  {
    PruneIsCheapestAntichain(ms);
    if Covers(Pruned(ms), have) {
      var m :| m in Pruned(ms) && Bits(m) <= have;
      assert m in ms;
    }
    if Covers(ms, have) {
      var m :| m in ms && Bits(m) <= have;
      MinimalBelow(ms, m);
      var k :| k in Minimal(ms) && Bits(k) <= Bits(m);
      if !Fits(ms) {
        var first := Minimal(ms)[0];
        assert first == Pruned(ms)[0];
        if have == {} {
          OneZeroSet(ms, k);
        }
        assert Bits(first) <= have;
      }
    }
  }

  /** The empty set, when present, is the only minimal one. */
  lemma OneZeroSet(ms: seq<Mask>, k: Mask)
    requires k in Minimal(ms) && Bits(k) == {}
    ensures Minimal(ms) == [k]
  {
    MinimalShape(ms);
    var i :| 0 <= i < |Minimal(ms)| && Minimal(ms)[i] == k;
    NoZeroAmongMany(Minimal(ms), i);
  }

  lemma NoZeroAmongMany(ms: seq<Mask>, i: nat)
    requires Antichain(ms) && i < |ms|
    ensures |ms| > 1 ==> Bits(ms[i]) != {}
  {
    if |ms| > 1 {
      var j := if i == 0 then 1 else 0;
      assert !(Bits(ms[i]) <= Bits(ms[j]));
    }
  }

  /** The cap preserves the closure exactly when at most maxPaths sets are minimal. */
  lemma PruneExactIff(ms: seq<Mask>)
    ensures (forall have :: Covers(Pruned(ms), have) <==> Covers(ms, have)) <==> Fits(ms)
  {
    if Fits(ms) {
      forall have ensures Covers(Pruned(ms), have) <==> Covers(ms, have) {
        PruneKeepsCover(ms, have);
      }
    } else {
      PruneIsCheapestAntichain(ms);
      MinimalShape(ms);
      var all := Minimal(ms);
      var lost := all[MAX_PATHS];
      assert lost in all;
      assert Covers(ms, Bits(lost));
      forall m | m in Pruned(ms) ensures !(Bits(m) <= Bits(lost)) {
        var i :| 0 <= i < MAX_PATHS && all[i] == m;
      }
      assert !Covers(Pruned(ms), Bits(lost));
    }
  }

  /** prune's inner loop. */
  method ContainsKept(candidate: Mask, out: seq<Mask>) returns (redundant: bool)
    ensures redundant == Redundant(candidate, out)
  {
    redundant := false;
    for j := 0 to |out|
      invariant forall k | 0 <= k < j :: !SubsetOf(out[k], candidate)
    {
      if SubsetOf(out[j], candidate) {
        return true;
      }
    }
  }

  /** prune: the sort, then the scan with its early exit. */
  method Prune(input: seq<Mask>) returns (out: seq<Mask>)
    ensures out == Pruned(input)
  {
    hide Sort, Keep, Redundant;
    var sorted := Sort(input);
    out := [];
    var i := 0;
    assert sorted[0..] == sorted;
    while i < |sorted|
      invariant 0 <= i <= |sorted|
      invariant |out| < MAX_PATHS
      invariant Pruned(input) == Keep(sorted[i..], out, MAX_PATHS)
    {
      var candidate := sorted[i];
      KeepNext(sorted, i, out);
      var redundant := ContainsKept(candidate, out);
      if !redundant {
        out := out + [candidate];
      }
      if |out| == MAX_PATHS {
        return;
      }
      i := i + 1;
    }
    assert sorted[i..] == [];
    KeepNone(out);
  }

  lemma KeepNext(sorted: seq<Mask>, i: nat, kept: seq<Mask>)
    requires i < |sorted|
    ensures var next := if Redundant(sorted[i], kept) then kept else kept + [sorted[i]];
      Keep(sorted[i..], kept, MAX_PATHS) == if |next| == MAX_PATHS then next else Keep(sorted[i + 1..], next, MAX_PATHS)
  {
    hide Redundant;
    assert sorted[i..][0] == sorted[i] && sorted[i..][1..] == sorted[i + 1..];
  }

  lemma KeepNone(kept: seq<Mask>)
    ensures Keep([], kept, MAX_PATHS) == kept
  {
  }

  // ----- Combining -----

  function Row(l: Mask, right: seq<Mask>): (r: seq<Mask>)
    ensures |r| == |right|
  {
    seq(|right|, i requires 0 <= i < |right| => Or(l, right[i]))
  }

  /** All pairwise unions. */
  function Cross(left: seq<Mask>, right: seq<Mask>): seq<Mask> {
    if left == [] then [] else Cross(left[..|left| - 1], right) + Row(left[|left| - 1], right)
  }

  /** The path set combine returns. */
  function Combined(left: seq<Mask>, right: seq<Mask>): seq<Mask> {
    Pruned(Cross(left, right))
  }

  lemma {:induction false} CrossMembers(left: seq<Mask>, right: seq<Mask>, m: Mask)
    ensures m in Cross(left, right) <==> exists l, r :: l in left && r in right && m == Or(l, r)
  {
    if left != [] {
      var n := |left| - 1;
      var last := left[n];
      CrossMembers(left[..n], right, m);
      assert left == left[..n] + [last];
      if m in Row(last, right) {
        var i :| 0 <= i < |right| && m == Row(last, right)[i];
        assert m == Or(last, right[i]);
      }
      if l, r :| l in left && r in right && m == Or(l, r) {
        if l !in left[..n] {
          var i :| 0 <= i < |right| && right[i] == r;
          assert Row(last, right)[i] == m;
        }
      }
    }
  }

  /** Every combined set is the union of one from each side. */
  lemma CombinedPair(left: seq<Mask>, right: seq<Mask>, m: Mask) returns (l: Mask, r: Mask)
    requires m in Combined(left, right)
    ensures l in left && r in right && Bits(m) == Bits(l) + Bits(r)
  {
    PruneIsCheapestAntichain(Cross(left, right));
    CrossMembers(left, right, m);
    l, r :| l in left && r in right && m == Or(l, r);
  }

  /** combine's closure is the intersection of its arguments' closures, unless the cap cuts it. */
  lemma CombineIntersects(left: seq<Mask>, right: seq<Mask>, have: set<nat>)
    requires Fits(Cross(left, right)) || have == {} || Universe <= have
    ensures Covers(Combined(left, right), have) <==> Covers(left, have) && Covers(right, have)
  {
    var cross := Cross(left, right);
    PruneKeepsCover(cross, have);
    if Covers(cross, have) {
      var m :| m in cross && Bits(m) <= have;
      CrossMembers(left, right, m);
      var l, r :| l in left && r in right && m == Or(l, r);
      assert Bits(m) == Bits(l) + Bits(r);
    }
    if Covers(left, have) && Covers(right, have) {
      var l :| l in left && Bits(l) <= have;
      var r :| r in right && Bits(r) <= have;
      CrossMembers(left, right, Or(l, r));
    }
  }

  method Combine(left: seq<Mask>, right: seq<Mask>) returns (out: seq<Mask>)
    ensures out == Combined(left, right)
  {
    var all: seq<Mask> := [];
    for i := 0 to |left|
      invariant all == Cross(left[..i], right)
    {
      ghost var before := all;
      for j := 0 to |right|
        invariant all == before + Row(left[i], right)[..j]
      {
        assert Row(left[i], right)[..j + 1] == Row(left[i], right)[..j] + [Or(left[i], right[j])];
        all := all + [Or(left[i], right[j])];
      }
      assert Row(left[i], right)[..|right|] == Row(left[i], right);
      assert left[..i + 1][..i] == left[..i];
    }
    assert left[..|left|] == left;
    out := Prune(all);
  }

  // ----- Intersection -----

  /** intersect: what all path sets have in common. */
  method Intersect(paths: seq<Mask>) returns (out: Mask)
    ensures paths == [] ==> out == Empty()
    ensures paths != [] ==> forall b :: b in Bits(out) <==> forall m | m in paths :: b in Bits(m)
  {
    if |paths| == 0 {
      return Empty();
    }
    out := paths[0];
    for i := 1 to |paths|
      invariant forall b :: b in Bits(out) <==> forall m | m in paths[..i] :: b in Bits(m)
    {
      assert paths[..i + 1] == paths[..i] + [paths[i]];
      out := And(out, paths[i]);
    }
    assert paths[..|paths|] == paths;
  }
}
