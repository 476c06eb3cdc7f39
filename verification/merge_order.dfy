/** Where the members of a merged body come from (mergeEdits in internal/repl/merge.go): the old ones
    that remain, in their order, and behind them the new ones that are added, in theirs. */
module MergeOrder {
  import opened NamespaceMerge

  /** buffer[k] is merged with its redeclaration typed[i], the first of its name. */
  ghost predicate MergedInto(buffer: seq<Member>, k: nat, typed: seq<Member>, i: nat) {
    k < |buffer| && i < |typed| &&
    var om, nm := buffer[k], typed[i];
    && om.name != "" && nm.name == om.name && (forall j | 0 <= j < i :: typed[j].name != om.name)
    && om.Ns? && nm.Ns? && om.header == nm.header && nm.body != []
    && forall j | 0 <= j < |buffer| && j != k :: buffer[j].name != om.name
  }

  /** What buffer[k] becomes, if it remains. */
  ghost predicate RemainsAs(buffer: seq<Member>, k: nat, typed: seq<Member>, m: Member) {
    k < |buffer| &&
    var om := buffer[k];
    if om.name == "" || forall j | 0 <= j < |typed| :: typed[j].name != om.name then m == om
    else exists i: nat :: i < |typed| && MergedInto(buffer, k, typed, i) && m == Ns(om.name, om.header, MergedBody(om.body, typed[i].body))
  }

  ghost predicate Remains(buffer: seq<Member>, k: nat, typed: seq<Member>) {
    exists m :: RemainsAs(buffer, k, typed, m)
  }

  /** typed[i] is added: it has text, no old member is merged with it, and it is not an unnamed one whose
      text the body already has. */
  ghost predicate Arrives(buffer: seq<Member>, typed: seq<Member>, i: nat) {
    && i < |typed| && Render(typed[i]) != ""
    && (forall k: nat | k < |buffer| :: !MergedInto(buffer, k, typed, i))
    && (typed[i].name == "" ==> forall k | 0 <= k < |buffer| :: Render(buffer[k]) != Render(typed[i]))
  }

  ghost predicate Rising(places: seq<nat>) {
    forall p, q | 0 <= p < q < |places| :: places[p] < places[q]
  }

  ghost predicate MergedFrom(buffer: seq<Member>, typed: seq<Member>, merged: seq<Member>, olds: seq<nat>, news: seq<nat>) {
    && |merged| == |olds| + |news| && Rising(olds) && Rising(news)
    && (forall k: nat :: k in olds <==> Remains(buffer, k, typed))
    && (forall p | 0 <= p < |olds| :: RemainsAs(buffer, olds[p], typed, merged[p]))
    && (forall i: nat :: i in news <==> Arrives(buffer, typed, i))
    && (forall p | 0 <= p < |news| :: news[p] < |typed| && merged[|olds| + p] == typed[news[p]])
  }

  // ----- Which members those are -----

  lemma {:induction false} CountNone(ms: seq<Member>, name: string)
    ensures NameCount(ms, name) == 0 <==> forall j | 0 <= j < |ms| :: ms[j].name != name
  {
    if ms != [] { CountNone(ms[..|ms| - 1], name); }
  }

  lemma {:induction false} CountAlone(ms: seq<Member>, k: nat)
    requires k < |ms|
    ensures NameCount(ms, ms[k].name) == 1 <==> forall j | 0 <= j < |ms| && j != k :: ms[j].name != ms[k].name
  {
    var n := |ms| - 1;
    CountNone(ms[..n], ms[k].name);
    if k < n { CountAlone(ms[..n], k); }
  }

  lemma FoldsMeaning(buffer: seq<Member>, k: nat, typed: seq<Member>, i: nat)
    requires k < |buffer| && i < |typed|
    ensures MergedInto(buffer, k, typed, i) <==>
      buffer[k].name != "" && FindNamed(typed, buffer[k].name) == i && Folds(buffer, buffer[k], typed[i])
  {
    CountAlone(buffer, k);
  }

  lemma MemberRemains(buffer: seq<Member>, k: nat, typed: seq<Member>)
    requires k < |buffer|
    ensures var kept := MergedMember(buffer, buffer[k], typed);
      if Remains(buffer, k, typed) then |kept| == 1 && RemainsAs(buffer, k, typed, kept[0]) else kept == []
  {
    hide MergedBody, MergedInto;
    var om := buffer[k];
    var i := FindNamed(typed, om.name);
    if om.name == "" || i < 0 {
      assert RemainsAs(buffer, k, typed, om);
    } else {
      forall j: nat | j < |typed| { FoldsMeaning(buffer, k, typed, j); }
      if Folds(buffer, om, typed[i]) {
        assert RemainsAs(buffer, k, typed, Ns(om.name, om.header, MergedBody(om.body, typed[i].body)));
      }
    }
  }

  lemma AddedArrives(buffer: seq<Member>, typed: seq<Member>, i: nat)
    requires i < |typed|
    ensures IsAdded(buffer, typed, i) <==> Arrives(buffer, typed, i)
  {
    hide MergedInto, Folds;
    forall k: nat | k < |buffer| { FoldsMeaning(buffer, k, typed, i); }
  }

  // ----- Their places -----

  lemma RisingMore(places: seq<nat>, n: nat)
    requires Rising(places) && forall p | p in places :: p < n
    ensures Rising(places + [n])
  {
    assert forall p | 0 <= p < |places| :: places[p] in places;
  }

  lemma {:induction false} OldPlaces(buffer: seq<Member>, n: nat, typed: seq<Member>) returns (olds: seq<nat>)
    requires n <= |buffer|
    ensures Rising(olds) && forall k: nat :: k in olds <==> k < n && Remains(buffer, k, typed)
    ensures var kept := MergedOld(buffer, buffer[..n], typed);
      |kept| == |olds| && forall p | 0 <= p < |olds| :: RemainsAs(buffer, olds[p], typed, kept[p])
  {
    hide Remains, RemainsAs, MergedMember;
    if n == 0 {
      olds := [];
    } else {
      olds := OldPlaces(buffer, n - 1, typed);
      assert buffer[..n][..n - 1] == buffer[..n - 1];
      MemberRemains(buffer, n - 1, typed);
      if Remains(buffer, n - 1, typed) {
        RisingMore(olds, n - 1);
        olds := olds + [n - 1];
      }
    }
  }

  lemma {:induction false} NewPlaces(buffer: seq<Member>, typed: seq<Member>, n: nat) returns (news: seq<nat>)
    requires n <= |typed|
    ensures Rising(news) && forall i: nat :: i in news <==> i < n && Arrives(buffer, typed, i)
    ensures var added := Added(buffer, typed, n);
      |added| == |news| && forall p | 0 <= p < |news| :: news[p] < n && added[p] == typed[news[p]]
  {
    hide Arrives, IsAdded;
    news := [];
    if n > 0 {
      news := NewPlaces(buffer, typed, n - 1);
      AddedArrives(buffer, typed, n - 1);
      if IsAdded(buffer, typed, n - 1) { news := news + [n - 1]; }
    }
  }

  /** A merged body holds the old members that remain, in their order, then the new ones that are added,
      in theirs, and nothing else. */
  lemma MergedInOrder(buffer: seq<Member>, typed: seq<Member>)
    ensures exists olds, news :: MergedFrom(buffer, typed, MergedBody(buffer, typed), olds, news)
  {
    hide MergedInto, Rising, MergedOld, Added;
    var olds := OldPlaces(buffer, |buffer|, typed);
    var news := NewPlaces(buffer, typed, |typed|);
    assert buffer[..|buffer|] == buffer;
    assert MergedFrom(buffer, typed, MergedBody(buffer, typed), olds, news);
  }
}
