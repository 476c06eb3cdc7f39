/** When merging a submission a second time changes something, names repeated or not.

    Bodies are compared up to the order of their members, at every level, as multisets. */
module MergeBags {
  import opened NamespaceMerge

  /** A member up to order: one that declares no name stands for its text, which is all a merge looks
      at; a namespace for its header and the bag of its members. */
  datatype Item = Verbatim(name: string, text: string) | Nested(name: string, header: string, inner: multiset<Item>)

  function ItemOf(m: Member): Item
    decreases m, 0
  {
    if m.name == "" then Verbatim("", Render(m))
    else
      match m
      case Leaf(name, text) => Verbatim(name, text)
      case Ns(name, header, body) => Nested(name, header, Bag(body))
  }

  function Bag(ms: seq<Member>): multiset<Item>
    decreases ms
  {
    if ms == [] then multiset{} else Bag(ms[..|ms| - 1]) + multiset{ItemOf(ms[|ms| - 1])}
  }

  /** No member is empty, and whether a member declares a name can be read off its text, whatever the
      body of a namespace holds. Names may repeat. */
  ghost predicate Readable(ms: seq<Member>, declares: string -> bool)
    decreases ms
  {
    forall m | m in ms :: ReadableMember(m, declares)
  }

  ghost predicate ReadableMember(m: Member, declares: string -> bool)
    decreases m
  {
    match m
    case Leaf(name, text) => text != "" && (declares(text) <==> name != "")
    case Ns(name, header, body) =>
      && Readable(body, declares)
      && forall inner: string :: declares(header + "{" + inner + "}") <==> name != ""
  }

  // ----- The condition -----

  /** Old members that leave no trace when merged into these typed ones: unnamed texts occur as often
      as typed, names are redeclared, and namespaces that fold are absorbed in turn. */
  predicate Absorbed(buffer: seq<Member>, typed: seq<Member>)
    decreases buffer, 0
  {
    forall k | 0 <= k < |buffer| :: AbsorbedMember(buffer, buffer[k], typed)
  }

  predicate AbsorbedMember(buffer: seq<Member>, om: Member, typed: seq<Member>)
    decreases om, 1
  {
    if om.name == "" then Bag(buffer)[ItemOf(om)] == Bag(typed)[ItemOf(om)]
    else
      var i := FindNamed(typed, om.name);
      i >= 0 && (Folds(buffer, om, typed[i]) ==> Absorbed(om.body, typed[i].body))
  }

  /** Merging a second time loses something: an old namespace was folded into a name the submission
      declares more than once and kept members of its own, or loses something itself. */
  predicate Loses(buffer: seq<Member>, typed: seq<Member>)
    decreases buffer, 0
  {
    exists k :: 0 <= k < |buffer| && LosesMember(buffer, buffer[k], typed)
  }

  predicate LosesMember(buffer: seq<Member>, om: Member, typed: seq<Member>)
    decreases om, 1
  {
    var i := FindNamed(typed, om.name);
    om.name != "" && i >= 0 && Folds(buffer, om, typed[i]) &&
      if NameCount(typed, om.name) > 1 then !Absorbed(om.body, typed[i].body) else Loses(om.body, typed[i].body)
  }

  // ----- Counting items -----

  function One(b: bool): nat { if b then 1 else 0 }

  lemma BagLast(ms: seq<Member>, x: Item)
    ensures ms == [] ==> Bag(ms)[x] == 0
    ensures ms != [] ==> Bag(ms)[x] == Bag(ms[..|ms| - 1])[x] + One(x == ItemOf(ms[|ms| - 1]))
  {
  }

  lemma BagOne(m: Member, x: Item)
    ensures Bag([m])[x] == One(x == ItemOf(m)) && Bag([])[x] == 0
  {
    assert [m][..0] == [];
  }

  lemma {:induction false} BagConcat(a: seq<Member>, b: seq<Member>, x: Item)
    ensures Bag(a + b)[x] == Bag(a)[x] + Bag(b)[x]
  {
    hide Bag, ItemOf;
    BagLast(b, x);
    if b == [] {
      assert a + b == a;
    } else {
      var n := |b| - 1;
      BagConcat(a, b[..n], x);
      assert (a + b)[..|a + b| - 1] == a + b[..n] && (a + b)[|a + b| - 1] == b[n];
      BagLast(a + b, x);
    }
  }

  lemma {:induction false} BagHas(ms: seq<Member>, x: Item)
    ensures Bag(ms)[x] > 0 <==> exists k :: 0 <= k < |ms| && ItemOf(ms[k]) == x
  {
    hide Bag, ItemOf;
    BagLast(ms, x);
    if ms != [] {
      var n := |ms| - 1;
      BagHas(ms[..n], x);
      if k: nat :| k < |ms| && ItemOf(ms[k]) == x {
        assert k < n ==> ItemOf(ms[..n][k]) == x;
      }
      if j: nat :| j < n && ItemOf(ms[..n][j]) == x {
        assert ItemOf(ms[j]) == x;
      }
    }
  }

  lemma ItemName(m: Member)
    ensures ItemOf(m).name == m.name
    ensures m.name == "" ==> ItemOf(m) == Verbatim("", Render(m))
  {
  }

  lemma SameBags(a: seq<Member>, b: seq<Member>)
    requires forall x: Item :: Bag(a)[x] == Bag(b)[x]
    ensures Bag(a) == Bag(b)
  {
    hide Bag;
  }

  lemma ReadableText(m: Member, declares: string -> bool)
    requires ReadableMember(m, declares)
    ensures Render(m) != "" && (declares(Render(m)) <==> m.name != "")
    ensures m.Ns? ==> Readable(m.body, declares)
  {
  }

  lemma {:induction false} OnlyOne(ms: seq<Member>, i: nat, j: nat)
    requires i < |ms| && j < |ms| && ms[i].name == ms[j].name && NameCount(ms, ms[i].name) == 1
    ensures i == j
  {
    var n := |ms| - 1;
    if i < n && j < n {
      CountedOnce(ms[..n], i);
      OnlyOne(ms[..n], i, j);
    } else if i < n {
      CountedOnce(ms[..n], i);
    } else if j < n {
      CountedOnce(ms[..n], j);
    }
  }

  lemma {:induction false} CountedOnce(ms: seq<Member>, i: nat)
    requires i < |ms|
    ensures NameCount(ms, ms[i].name) >= 1
  {
    if i < |ms| - 1 {
      CountedOnce(ms[..|ms| - 1], i);
    }
  }

  lemma {:induction false} NotCounted(ms: seq<Member>, name: string)
    requires forall m | m in ms :: m.name != name
    ensures NameCount(ms, name) == 0
  {
    if ms != [] {
      NotCounted(ms[..|ms| - 1], name);
    }
  }

  lemma {:induction false} CountConcat(a: seq<Member>, b: seq<Member>, name: string)
    ensures NameCount(a + b, name) == NameCount(a, name) + NameCount(b, name)
  {
    if b == [] {
      assert a + b == a;
    } else {
      var n := |b| - 1;
      CountConcat(a, b[..n], name);
      assert (a + b)[..|a + b| - 1] == a + b[..n] && (a + b)[|a + b| - 1] == b[n];
    }
  }

  lemma CountLast(ms: seq<Member>, name: string)
    ensures ms == [] ==> NameCount(ms, name) == 0
    ensures ms != [] ==> NameCount(ms, name) == NameCount(ms[..|ms| - 1], name) + One(ms[|ms| - 1].name == name)
  {
  }

  // ----- What one merge leaves -----

  /** An old namespace merged with its redeclaration. */
  function Merged(om: Member, nm: Member): Member
    requires om.Ns? && nm.Ns?
  {
    Ns(om.name, om.header, MergedBody(om.body, nm.body))
  }

  /** buffer[f] is merged with typed[i], the first typed member of its name. */
  ghost predicate FoldsAt(buffer: seq<Member>, typed: seq<Member>, f: int, i: int) {
    && 0 <= f < |buffer| && 0 <= i < |typed| && buffer[f].name != "" && FindNamed(typed, buffer[f].name) == i
    && Folds(buffer, buffer[f], typed[i])
  }

  /** No old member of this name is merged. */
  ghost predicate NoneFolds(buffer: seq<Member>, typed: seq<Member>, name: string) {
    forall f, i :: FoldsAt(buffer, typed, f, i) ==> buffer[f].name != name
  }

  lemma MemberCount(buffer: seq<Member>, om: Member, typed: seq<Member>, x: Item)
    ensures var i := FindNamed(typed, om.name);
      Bag(MergedMember(buffer, om, typed))[x] ==
        if om.name == "" || i < 0 then One(x == ItemOf(om))
        else if Folds(buffer, om, typed[i]) then One(x == ItemOf(Merged(om, typed[i])))
        else 0
    ensures NameCount(MergedMember(buffer, om, typed), x.name) ==
      One(om.name == x.name && (om.name == "" || FindNamed(typed, om.name) < 0 || Folds(buffer, om, typed[FindNamed(typed, om.name)])))
  {
    hide Bag, ItemOf, MergedBody, Folds;
    BagOne(om, x);
    CountLast([om], x.name);
    CountLast([], x.name);
    assert [om][..0] == [];
    var i := FindNamed(typed, om.name);
    if om.name != "" && i >= 0 && Folds(buffer, om, typed[i]) {
      FoldsNamespaces(buffer, om, typed[i]);
      var m := Merged(om, typed[i]);
      BagOne(m, x);
      CountLast([m], x.name);
      assert [m][..0] == [];
    }
  }

  lemma FoldsNamespaces(buffer: seq<Member>, om: Member, nm: Member)
    requires Folds(buffer, om, nm)
    ensures om.Ns? && nm.Ns? && om.header == nm.header && nm.body != [] && NameCount(buffer, om.name) == 1
  {
  }

  lemma OldStep(buffer: seq<Member>, k: nat, typed: seq<Member>, x: Item)
    requires 0 < k <= |buffer|
    ensures var left, before, om := MergedOld(buffer, buffer[..k], typed), MergedOld(buffer, buffer[..k - 1], typed), buffer[k - 1];
      && Bag(left)[x] == Bag(before)[x] + Bag(MergedMember(buffer, om, typed))[x]
      && NameCount(left, x.name) == NameCount(before, x.name) + NameCount(MergedMember(buffer, om, typed), x.name)
      && Bag(buffer[..k])[x] == Bag(buffer[..k - 1])[x] + One(x == ItemOf(om))
      && NameCount(buffer[..k], x.name) == NameCount(buffer[..k - 1], x.name) + One(om.name == x.name)
  {
    hide Bag, ItemOf, MergedOld, MergedMember, NameCount;
    var some := buffer[..k];
    MergedLast(buffer, some, typed);
    BagLast(some, x);
    CountLast(some, x.name);
    assert some[..k - 1] == buffer[..k - 1] && some[k - 1] == buffer[k - 1];
    BagConcat(MergedOld(buffer, buffer[..k - 1], typed), MergedMember(buffer, buffer[k - 1], typed), x);
    CountConcat(MergedOld(buffer, buffer[..k - 1], typed), MergedMember(buffer, buffer[k - 1], typed), x.name);
  }

  lemma OldNone(buffer: seq<Member>, typed: seq<Member>, x: Item)
    ensures buffer[..0] == [] && MergedOld(buffer, buffer[..0], typed) == []
    ensures Bag([])[x] == 0 && NameCount([], x.name) == 0
  {
    MergedLast(buffer, [], typed);
  }

  /** Names the submission does not declare, and members without one, stay. */
  lemma {:induction false} OldStays(buffer: seq<Member>, k: nat, typed: seq<Member>, x: Item)
    requires k <= |buffer| && (x.name == "" || FindNamed(typed, x.name) < 0)
    ensures var left := MergedOld(buffer, buffer[..k], typed);
      Bag(left)[x] == Bag(buffer[..k])[x] && NameCount(left, x.name) == NameCount(buffer[..k], x.name)
  {
    hide Bag, ItemOf, MergedOld, MergedMember, NameCount, FindNamed, MergedBody;
    OldNone(buffer, typed, x);
    if k > 0 {
      OldStays(buffer, k - 1, typed, x);
      OldStep(buffer, k, typed, x);
      NamedItem(buffer, buffer[k - 1], typed, x);
    }
  }

  /** A redeclared name that is not merged goes. */
  lemma {:induction false} OldGoes(buffer: seq<Member>, k: nat, typed: seq<Member>, x: Item)
    requires k <= |buffer| && x.name != "" && FindNamed(typed, x.name) >= 0 && NoneFolds(buffer, typed, x.name)
    ensures var left := MergedOld(buffer, buffer[..k], typed);
      Bag(left)[x] == 0 && NameCount(left, x.name) == 0
  {
    hide Bag, ItemOf, MergedOld, MergedMember, NameCount, MergedBody, Folds;
    OldNone(buffer, typed, x);
    if k > 0 {
      OldGoes(buffer, k - 1, typed, x);
      OldStep(buffer, k, typed, x);
      NamedItem(buffer, buffer[k - 1], typed, x);
      assert buffer[k - 1].name == x.name ==> !FoldsAt(buffer, typed, k - 1, FindNamed(typed, x.name));
    }
  }

  /** A namespace that is merged is left merged. */
  lemma {:induction false} OldFolds(buffer: seq<Member>, k: nat, typed: seq<Member>, x: Item, f: nat, i: nat)
    requires k <= |buffer| && FoldsAt(buffer, typed, f, i) && buffer[f].name == x.name
    ensures buffer[f].Ns? && typed[i].Ns?
    ensures var left := MergedOld(buffer, buffer[..k], typed);
      Bag(left)[x] == One(f < k && x == ItemOf(Merged(buffer[f], typed[i]))) && NameCount(left, x.name) == One(f < k)
  {
    hide Bag, ItemOf, MergedOld, MergedMember, NameCount, MergedBody, Folds, FindNamed;
    OldNone(buffer, typed, x);
    FoldsNamespaces(buffer, buffer[f], typed[i]);
    if k > 0 {
      OldFolds(buffer, k - 1, typed, x, f, i);
      OldStep(buffer, k, typed, x);
      NamedItem(buffer, buffer[k - 1], typed, x);
      if buffer[k - 1].name == x.name {
        OnlyOne(buffer, f, k - 1);
      }
    }
  }

  /** MemberCount, for an item of the member's name or of another. */
  lemma NamedItem(buffer: seq<Member>, om: Member, typed: seq<Member>, x: Item)
    ensures var i := FindNamed(typed, om.name); var bag := Bag(MergedMember(buffer, om, typed))[x];
      var count := NameCount(MergedMember(buffer, om, typed), x.name);
      if om.name != x.name then bag == 0 && count == 0 && x != ItemOf(om)
      else if om.name == "" || i < 0 then bag == One(x == ItemOf(om)) && count == 1
      else if Folds(buffer, om, typed[i]) then om.Ns? && typed[i].Ns? && bag == One(x == ItemOf(Merged(om, typed[i]))) && count == 1
      else bag == 0 && count == 0
  {
    hide Bag, ItemOf, MergedMember, NameCount, MergedBody, Folds, FindNamed;
    MemberCount(buffer, om, typed, x);
    ItemName(om);
    var i := FindNamed(typed, om.name);
    if i >= 0 && Folds(buffer, om, typed[i]) {
      FoldsNamespaces(buffer, om, typed[i]);
      ItemName(Merged(om, typed[i]));
    }
  }

  // ----- What is added -----

  lemma AddedStep(buffer: seq<Member>, typed: seq<Member>, k: nat, x: Item)
    requires 0 < k <= |typed|
    ensures var m := typed[k - 1];
      && Bag(Added(buffer, typed, k))[x] == Bag(Added(buffer, typed, k - 1))[x] + One(IsAdded(buffer, typed, k - 1) && x == ItemOf(m))
      && NameCount(Added(buffer, typed, k), x.name) ==
         NameCount(Added(buffer, typed, k - 1), x.name) + One(IsAdded(buffer, typed, k - 1) && m.name == x.name)
      && Bag(typed[..k])[x] == Bag(typed[..k - 1])[x] + One(x == ItemOf(m))
      && NameCount(typed[..k], x.name) == NameCount(typed[..k - 1], x.name) + One(m.name == x.name)
  {
    hide Bag, ItemOf, NameCount, IsAdded;
    var m, some := typed[k - 1], typed[..k];
    var more := if IsAdded(buffer, typed, k - 1) then [m] else [];
    assert Added(buffer, typed, k) == Added(buffer, typed, k - 1) + more;
    hide Added;
    BagConcat(Added(buffer, typed, k - 1), more, x);
    CountConcat(Added(buffer, typed, k - 1), more, x.name);
    BagOne(m, x);
    CountLast([m], x.name);
    CountLast([], x.name);
    assert [m][..0] == [] && some[..k - 1] == typed[..k - 1] && some[k - 1] == m;
    BagLast(some, x);
    CountLast(some, x.name);
  }

  lemma AddedNone(buffer: seq<Member>, typed: seq<Member>, x: Item)
    ensures Added(buffer, typed, 0) == [] && typed[..0] == [] && Bag([])[x] == 0 && NameCount([], x.name) == 0
  {
  }

  /** Texts without a name are added unless the buffer has them. */
  lemma {:induction false} UnnamedAdded(buffer: seq<Member>, typed: seq<Member>, k: nat, x: Item, declares: string -> bool)
    requires k <= |typed| && Readable(typed, declares) && x.name == "" && x.Verbatim?
    ensures Bag(Added(buffer, typed, k))[x] == if HasText(buffer, x.text) then 0 else Bag(typed[..k])[x]
  {
    hide Bag, ItemOf, NameCount, Added, HasText, FoldedInto, ReadableMember, Render;
    AddedNone(buffer, typed, x);
    if k > 0 {
      var m := typed[k - 1];
      assert m in typed;
      UnnamedAdded(buffer, typed, k - 1, x, declares);
      AddedStep(buffer, typed, k, x);
      ItemName(m);
      ReadableText(m, declares);
      UnnamedNotFolded(buffer, typed, k - 1);
    }
  }

  lemma UnnamedNotFolded(buffer: seq<Member>, typed: seq<Member>, i: nat)
    requires i < |typed|
    ensures typed[i].name == "" ==> !FoldedInto(buffer, typed, i)
  {
  }

  /** All typed members of a name that is not merged are added. */
  lemma {:induction false} NamedAdded(buffer: seq<Member>, typed: seq<Member>, k: nat, x: Item, declares: string -> bool)
    requires k <= |typed| && Readable(typed, declares) && x.name != "" && NoneFolds(buffer, typed, x.name)
    ensures Bag(Added(buffer, typed, k))[x] == Bag(typed[..k])[x]
    ensures NameCount(Added(buffer, typed, k), x.name) == NameCount(typed[..k], x.name)
  {
    hide Bag, ItemOf, NameCount, Added, HasText, FoldedInto, ReadableMember, Render, NoneFolds;
    AddedNone(buffer, typed, x);
    if k > 0 {
      var m := typed[k - 1];
      assert m in typed;
      NamedAdded(buffer, typed, k - 1, x, declares);
      AddedStep(buffer, typed, k, x);
      ItemName(m);
      ReadableText(m, declares);
      NotFoldedInto(buffer, typed, k - 1, x.name);
    }
  }

  lemma NotFoldedInto(buffer: seq<Member>, typed: seq<Member>, j: nat, name: string)
    requires j < |typed| && NoneFolds(buffer, typed, name)
    ensures typed[j].name == name ==> !FoldedInto(buffer, typed, j)
  {
    hide Folds, FoldsAt, FoldedInto;
    if typed[j].name == name && FoldedInto(buffer, typed, j) {
      var f := FolderOf(buffer, typed, j);
    }
  }

  lemma FolderOf(buffer: seq<Member>, typed: seq<Member>, j: nat) returns (f: nat)
    requires j < |typed| && FoldedInto(buffer, typed, j)
    ensures FoldsAt(buffer, typed, f, j) && f < |buffer| && buffer[f].name == typed[j].name
  {
    hide Folds;
    f :| f < |buffer| && buffer[f].name == typed[j].name && Folds(buffer, buffer[f], typed[j]);
  }

  /** All but the first are added if an old namespace is merged with the first. */
  lemma {:induction false} FoldedAdded(buffer: seq<Member>, typed: seq<Member>, k: nat, x: Item, f: nat, i: nat, declares: string -> bool)
    requires k <= |typed| && Readable(typed, declares) && FoldsAt(buffer, typed, f, i) && buffer[f].name == x.name
    ensures Bag(Added(buffer, typed, k))[x] + One(i < k && x == ItemOf(typed[i])) == Bag(typed[..k])[x]
    ensures NameCount(Added(buffer, typed, k), x.name) + One(i < k) == NameCount(typed[..k], x.name)
  {
    hide Bag, ItemOf, NameCount, Added, HasText, ReadableMember, Render, Folds;
    AddedNone(buffer, typed, x);
    if k > 0 {
      var m := typed[k - 1];
      assert m in typed;
      FoldedAdded(buffer, typed, k - 1, x, f, i, declares);
      AddedStep(buffer, typed, k, x);
      ItemName(m);
      ReadableText(m, declares);
      assert FoldedInto(buffer, typed, i);
      assert m.name == x.name ==> (FoldedInto(buffer, typed, k - 1) <==> k - 1 == i);
    }
  }

  // ----- The merge, item by item -----

  /** No member of that name. */
  lemma NoItem(ms: seq<Member>, x: Item)
    requires (x.name == "" && x.Nested?) || FindNamed(ms, x.name) < 0
    ensures Bag(ms)[x] == 0
  {
    hide Bag, ItemOf;
    BagHas(ms, x);
    if k: nat :| k < |ms| && ItemOf(ms[k]) == x {
      ItemName(ms[k]);
    }
  }

  lemma MergedSplits(buffer: seq<Member>, typed: seq<Member>, x: Item)
    ensures buffer[..|buffer|] == buffer && typed[..|typed|] == typed
    ensures Bag(MergedBody(buffer, typed))[x] == Bag(MergedOld(buffer, buffer, typed))[x] + Bag(Added(buffer, typed, |typed|))[x]
    ensures NameCount(MergedBody(buffer, typed), x.name) ==
      NameCount(MergedOld(buffer, buffer, typed), x.name) + NameCount(Added(buffer, typed, |typed|), x.name)
  {
    hide Bag, ItemOf, NameCount, MergedOld, Added;
    BagConcat(MergedOld(buffer, buffer, typed), Added(buffer, typed, |typed|), x);
    CountConcat(MergedOld(buffer, buffer, typed), Added(buffer, typed, |typed|), x.name);
  }

  /** Unnamed texts of the buffer stay; typed ones come when the buffer has none like them. */
  lemma MergedUnnamed(buffer: seq<Member>, typed: seq<Member>, x: Item, declares: string -> bool)
    requires Readable(typed, declares) && x.name == "" && x.Verbatim?
    ensures Bag(MergedBody(buffer, typed))[x] == Bag(buffer)[x] + (if HasText(buffer, x.text) then 0 else Bag(typed)[x])
  {
    hide Bag, ItemOf, NameCount, MergedOld, Added, MergedBody, HasText, Readable;
    MergedSplits(buffer, typed, x);
    OldStays(buffer, |buffer|, typed, x);
    UnnamedAdded(buffer, typed, |typed|, x, declares);
  }

  /** A name the submission does not declare keeps its members. */
  lemma MergedUndeclared(buffer: seq<Member>, typed: seq<Member>, x: Item, declares: string -> bool)
    requires Readable(typed, declares) && x.name != "" && FindNamed(typed, x.name) < 0
    ensures Bag(MergedBody(buffer, typed))[x] == Bag(buffer)[x]
    ensures NameCount(MergedBody(buffer, typed), x.name) == NameCount(buffer, x.name)
  {
    hide Bag, ItemOf, NameCount, MergedOld, Added, MergedBody, FindNamed, Readable;
    MergedSplits(buffer, typed, x);
    OldStays(buffer, |buffer|, typed, x);
    NamedAdded(buffer, typed, |typed|, x, declares);
    NoItem(typed, x);
    NotCounted(typed, x.name);
  }

  /** A redeclared name that is not merged has exactly the typed members. */
  lemma MergedRedeclared(buffer: seq<Member>, typed: seq<Member>, x: Item, declares: string -> bool)
    requires Readable(typed, declares) && x.name != "" && FindNamed(typed, x.name) >= 0 && NoneFolds(buffer, typed, x.name)
    ensures Bag(MergedBody(buffer, typed))[x] == Bag(typed)[x]
    ensures NameCount(MergedBody(buffer, typed), x.name) == NameCount(typed, x.name)
  {
    hide Bag, ItemOf, NameCount, MergedOld, Added, MergedBody, FindNamed, Readable, NoneFolds;
    MergedSplits(buffer, typed, x);
    OldGoes(buffer, |buffer|, typed, x);
    NamedAdded(buffer, typed, |typed|, x, declares);
  }

  /** A name with a merged namespace has that in place of the first typed member. */
  lemma MergedFolded(buffer: seq<Member>, typed: seq<Member>, x: Item, f: nat, i: nat, declares: string -> bool)
    requires Readable(typed, declares) && FoldsAt(buffer, typed, f, i) && buffer[f].name == x.name
    ensures buffer[f].Ns? && typed[i].Ns?
    ensures Bag(MergedBody(buffer, typed))[x] + One(x == ItemOf(typed[i])) ==
      Bag(typed)[x] + One(x == ItemOf(Merged(buffer[f], typed[i])))
    ensures NameCount(MergedBody(buffer, typed), x.name) == NameCount(typed, x.name)
  {
    hide Bag, ItemOf, NameCount, MergedOld, Added, MergedBody, FindNamed, Readable, Folds;
    MergedSplits(buffer, typed, x);
    OldFolds(buffer, |buffer|, typed, x, f, i);
    FoldedAdded(buffer, typed, |typed|, x, f, i, declares);
  }

  // ----- Merging a body with itself -----

  lemma NestedBags(a: Member, b: Member)
    requires a.Ns? && b.Ns? && a.name == b.name != "" && a.header == b.header
    ensures ItemOf(a) == ItemOf(b) <==> Bag(a.body) == Bag(b.body)
  {
  }

  lemma HasTextOf(ms: seq<Member>, x: Item)
    requires x.name == "" && x.Verbatim?
    ensures Bag(ms)[x] > 0 ==> HasText(ms, x.text)
  {
    hide Bag, ItemOf, Render;
    BagHas(ms, x);
    if k: nat :| k < |ms| && ItemOf(ms[k]) == x {
      ItemName(ms[k]);
    }
  }

  /** Up to order, a body merged with itself is itself, repeated names and all. */
  lemma {:induction false} SelfMergeBag(ms: seq<Member>, declares: string -> bool)
    requires Readable(ms, declares)
    ensures Bag(MergedBody(ms, ms)) == Bag(ms)
    decreases ms, 1
  {
    hide Bag, ItemOf, MergedBody, ReadableMember;
    forall x: Item ensures Bag(MergedBody(ms, ms))[x] == Bag(ms)[x] {
      SelfMergeItem(ms, x, declares);
    }
    SameBags(MergedBody(ms, ms), ms);
  }

  lemma {:induction false} SelfMergeItem(ms: seq<Member>, x: Item, declares: string -> bool)
    requires Readable(ms, declares)
    ensures Bag(MergedBody(ms, ms))[x] == Bag(ms)[x]
    decreases ms, 0
  {
    hide Bag, ItemOf, MergedBody, HasText, NoneFolds, ReadableMember, NameCount, Render, Folds;
    if x.name == "" {
      if x.Verbatim? {
        MergedUnnamed(ms, ms, x, declares);
        HasTextOf(ms, x);
      } else {
        NoItem(ms, x);
        NoItem(MergedBody(ms, ms), x);
      }
    } else if FindNamed(ms, x.name) < 0 {
      MergedUndeclared(ms, ms, x, declares);
    } else if NoneFolds(ms, ms, x.name) {
      MergedRedeclared(ms, ms, x, declares);
    } else {
      var f, i := SomeFolds(ms, ms, x.name);
      MergedFolded(ms, ms, x, f, i, declares);
      FoldsNamespaces(ms, ms[f], ms[i]);
      OnlyOne(ms, f, i);
      assert ms[i] in ms;
      ReadableText(ms[i], declares);
      SelfMergeBag(ms[i].body, declares);
      NestedBags(Merged(ms[i], ms[i]), ms[i]);
    }
  }

  lemma SomeFolds(buffer: seq<Member>, typed: seq<Member>, name: string) returns (f: nat, i: nat)
    requires !NoneFolds(buffer, typed, name)
    ensures FoldsAt(buffer, typed, f, i) && f < |buffer| && i < |typed| && buffer[f].name == typed[i].name == name
    ensures Folds(buffer, buffer[f], typed[i]) && FindNamed(typed, name) == i
  {
    f, i :| FoldsAt(buffer, typed, f, i) && buffer[f].name == name;
  }

  // ----- Being absorbed -----

  lemma HasTextIs(ms: seq<Member>, x: Item, declares: string -> bool)
    requires Readable(ms, declares) && x.name == "" && x.Verbatim? && !declares(x.text)
    ensures HasText(ms, x.text) <==> Bag(ms)[x] > 0
  {
    hide Bag, ItemOf, Render, ReadableMember;
    HasTextOf(ms, x);
    BagHas(ms, x);
    if k: nat :| k < |ms| && Render(ms[k]) == x.text {
      assert ms[k] in ms;
      ReadableText(ms[k], declares);
      ItemName(ms[k]);
    }
  }

  /** An unnamed item is there only if its text declares nothing. */
  lemma UnnamedText(ms: seq<Member>, x: Item, declares: string -> bool)
    requires Readable(ms, declares) && x.name == "" && x.Verbatim? && Bag(ms)[x] > 0
    ensures !declares(x.text)
  {
    hide Bag, ItemOf, Render, ReadableMember;
    BagHas(ms, x);
    var k: nat :| k < |ms| && ItemOf(ms[k]) == x;
    assert ms[k] in ms;
    ReadableText(ms[k], declares);
    ItemName(ms[k]);
  }

  /** Merging into typed members gives, up to order, just them, exactly if the old ones are absorbed. */
  lemma {:induction false} AbsorbedMeaning(buffer: seq<Member>, typed: seq<Member>, declares: string -> bool)
    requires Readable(buffer, declares) && Readable(typed, declares)
    ensures Bag(MergedBody(buffer, typed)) == Bag(typed) <==> Absorbed(buffer, typed)
    decreases buffer, 2
  {
    hide Bag, ItemOf, MergedBody, AbsorbedMember, ReadableMember;
    if Absorbed(buffer, typed) {
      forall x: Item ensures Bag(MergedBody(buffer, typed))[x] == Bag(typed)[x] {
        AbsorbedItem(buffer, typed, x, declares);
      }
      SameBags(MergedBody(buffer, typed), typed);
    }
    if Bag(MergedBody(buffer, typed)) == Bag(typed) {
      forall k | 0 <= k < |buffer| ensures AbsorbedMember(buffer, buffer[k], typed) {
        MustBeAbsorbed(buffer, typed, k, declares);
      }
    }
  }

  lemma {:induction false} AbsorbedItem(buffer: seq<Member>, typed: seq<Member>, x: Item, declares: string -> bool)
    requires Readable(buffer, declares) && Readable(typed, declares) && Absorbed(buffer, typed)
    ensures Bag(MergedBody(buffer, typed))[x] == Bag(typed)[x]
    decreases buffer, 1
  {
    hide Bag, ItemOf, MergedBody, HasText, NoneFolds, ReadableMember, NameCount, Folds;
    BagHas(buffer, x);
    if k: nat :| k < |buffer| && ItemOf(buffer[k]) == x {
      ItemName(buffer[k]);
      assert AbsorbedMember(buffer, buffer[k], typed);
    }
    if x.name == "" {
      if x.Verbatim? {
        MergedUnnamed(buffer, typed, x, declares);
        if Bag(typed)[x] > 0 {
          UnnamedText(typed, x, declares);
          HasTextIs(buffer, x, declares);
        }
        HasTextOf(buffer, x);
      } else {
        NoItem(typed, x);
        NoItem(MergedBody(buffer, typed), x);
      }
    } else if FindNamed(typed, x.name) < 0 {
      MergedUndeclared(buffer, typed, x, declares);
      NoItem(typed, x);
    } else if NoneFolds(buffer, typed, x.name) {
      MergedRedeclared(buffer, typed, x, declares);
    } else {
      var f, i := SomeFolds(buffer, typed, x.name);
      MergedFolded(buffer, typed, x, f, i, declares);
      FoldsNamespaces(buffer, buffer[f], typed[i]);
      assert buffer[f] in buffer && typed[i] in typed && AbsorbedMember(buffer, buffer[f], typed);
      ReadableText(buffer[f], declares);
      ReadableText(typed[i], declares);
      AbsorbedMeaning(buffer[f].body, typed[i].body, declares);
      NestedBags(Merged(buffer[f], typed[i]), typed[i]);
    }
  }

  lemma {:induction false} MustBeAbsorbed(buffer: seq<Member>, typed: seq<Member>, k: nat, declares: string -> bool)
    requires Readable(buffer, declares) && Readable(typed, declares) && k < |buffer|
    requires Bag(MergedBody(buffer, typed)) == Bag(typed)
    ensures AbsorbedMember(buffer, buffer[k], typed)
    decreases buffer, 1
  {
    hide Bag, ItemOf, MergedBody, HasText, NoneFolds, ReadableMember, NameCount, Folds;
    var om := buffer[k];
    var x := ItemOf(om);
    ItemName(om);
    BagHas(buffer, x);
    if om.name == "" {
      MergedUnnamed(buffer, typed, x, declares);
      HasTextOf(buffer, x);
    } else if FindNamed(typed, om.name) < 0 {
      MergedUndeclared(buffer, typed, x, declares);
      NoItem(typed, x);
    } else {
      var i := FindNamed(typed, om.name);
      if Folds(buffer, om, typed[i]) {
        FoldsNamespaces(buffer, om, typed[i]);
        var m := Merged(om, typed[i]);
        ItemName(m);
        MergedFolded(buffer, typed, ItemOf(m), k, i, declares);
        NestedBags(m, typed[i]);
        assert om in buffer && typed[i] in typed;
        ReadableText(om, declares);
        ReadableText(typed[i], declares);
        AbsorbedMeaning(om.body, typed[i].body, declares);
      }
    }
  }

  // ----- Merging again -----

  lemma {:induction false} AddedHas(buffer: seq<Member>, typed: seq<Member>, i: nat, k: nat)
    requires i < k <= |typed| && IsAdded(buffer, typed, i)
    ensures typed[i] in Added(buffer, typed, k)
  {
    hide IsAdded;
    if i < k - 1 {
      AddedHas(buffer, typed, i, k - 1);
    }
  }

  lemma {:induction false} OldHas(buffer: seq<Member>, k: nat, typed: seq<Member>, f: nat, i: nat)
    requires f < k <= |buffer| && FoldsAt(buffer, typed, f, i)
    ensures buffer[f].Ns? && typed[i].Ns? && Merged(buffer[f], typed[i]) in MergedOld(buffer, buffer[..k], typed)
  {
    hide MergedOld, MergedBody, Folds, FindNamed;
    FoldsNamespaces(buffer, buffer[f], typed[i]);
    var some := buffer[..k];
    MergedLast(buffer, some, typed);
    assert some[..k - 1] == buffer[..k - 1] && some[k - 1] == buffer[k - 1];
    if f < k - 1 {
      OldHas(buffer, k - 1, typed, f, i);
    }
  }

  /** An ambiguous name is not merged. */
  lemma AmbiguousStays(once: seq<Member>, typed: seq<Member>, name: string)
    requires NameCount(once, name) > 1
    ensures NoneFolds(once, typed, name)
  {
  }

  /** Names the first merge folded nothing into are as the second merge leaves them. */
  lemma {:induction false} AgainSettled(buffer: seq<Member>, typed: seq<Member>, x: Item, declares: string -> bool)
    requires Readable(buffer, declares) && Readable(typed, declares)
    requires x.name == "" || FindNamed(typed, x.name) < 0 || NoneFolds(buffer, typed, x.name)
    ensures var once := MergedBody(buffer, typed); Bag(MergedBody(once, typed))[x] == Bag(once)[x]
  {
    hide Bag, ItemOf, MergedBody, HasText, NoneFolds, ReadableMember, NameCount, Folds;
    var once := MergedBody(buffer, typed);
    if x.name == "" {
      AgainUnnamed(buffer, typed, x, declares);
    } else if FindNamed(typed, x.name) < 0 {
      MergedUndeclared(once, typed, x, declares);
    } else {
      MergedRedeclared(buffer, typed, x, declares);
      if NoneFolds(once, typed, x.name) {
        MergedRedeclared(once, typed, x, declares);
      } else {
        AgainTyped(buffer, typed, x, declares);
      }
    }
  }

  lemma AgainUnnamed(buffer: seq<Member>, typed: seq<Member>, x: Item, declares: string -> bool)
    requires Readable(buffer, declares) && Readable(typed, declares) && x.name == ""
    ensures var once := MergedBody(buffer, typed); Bag(MergedBody(once, typed))[x] == Bag(once)[x]
  {
    hide Bag, ItemOf, MergedBody, HasText, ReadableMember;
    var once := MergedBody(buffer, typed);
    if x.Nested? {
      NoItem(once, x);
      NoItem(MergedBody(once, typed), x);
    } else {
      MergedUnnamed(buffer, typed, x, declares);
      MergedUnnamed(once, typed, x, declares);
      HasTextOf(once, x);
      if Bag(typed)[x] > 0 {
        UnnamedText(typed, x, declares);
        HasTextIs(buffer, x, declares);
      }
    }
  }

  /** A typed namespace that replaced what was there is merged with itself. */
  lemma {:induction false} AgainTyped(buffer: seq<Member>, typed: seq<Member>, x: Item, declares: string -> bool)
    requires Readable(typed, declares) && x.name != "" && FindNamed(typed, x.name) >= 0 && NoneFolds(buffer, typed, x.name)
    requires !NoneFolds(MergedBody(buffer, typed), typed, x.name)
    ensures Bag(MergedBody(MergedBody(buffer, typed), typed))[x] == Bag(typed)[x]
  {
    hide Bag, ItemOf, MergedBody, HasText, NoneFolds, ReadableMember, NameCount, Folds, FoldedInto;
    var once := MergedBody(buffer, typed);
    var f, i := SomeFolds(once, typed, x.name);
    MergedFolded(once, typed, x, f, i, declares);
    FoldsNamespaces(once, once[f], typed[i]);
    assert typed[i] in typed;
    ReadableText(typed[i], declares);
    NotFoldedInto(buffer, typed, i, x.name);
    AddedIn(buffer, typed, i);
    var j: nat :| j < |once| && once[j] == typed[i];
    OnlyOne(once, f, j);
    SelfMergeBag(typed[i].body, declares);
    NestedBags(Merged(typed[i], typed[i]), typed[i]);
  }

  lemma AddedIn(buffer: seq<Member>, typed: seq<Member>, i: nat)
    requires i < |typed| && IsAdded(buffer, typed, i)
    ensures typed[i] in MergedBody(buffer, typed)
  {
    hide IsAdded, Added, MergedOld;
    AddedHas(buffer, typed, i, |typed|);
  }

  /** A name typed more than once is ambiguous the second time: the merged namespace gives way to the typed one. */
  lemma AgainAmbiguous(buffer: seq<Member>, typed: seq<Member>, x: Item, f: nat, i: nat, declares: string -> bool)
    requires Readable(typed, declares) && FoldsAt(buffer, typed, f, i) && buffer[f].name == x.name && NameCount(typed, x.name) > 1
    ensures buffer[f].Ns? && typed[i].Ns?
    ensures var once := MergedBody(buffer, typed);
      Bag(once)[x] + One(x == ItemOf(typed[i])) == Bag(MergedBody(once, typed))[x] + One(x == ItemOf(Merged(buffer[f], typed[i])))
  {
    hide Bag, ItemOf, MergedBody, NameCount, Folds, Readable;
    MergedFolded(buffer, typed, x, f, i, declares);
    AmbiguousStays(MergedBody(buffer, typed), typed, x.name);
    MergedRedeclared(MergedBody(buffer, typed), typed, x, declares);
  }

  /** A name typed once is merged again. */
  lemma AgainFolded(buffer: seq<Member>, typed: seq<Member>, x: Item, f: nat, i: nat, declares: string -> bool)
    requires Readable(typed, declares) && FoldsAt(buffer, typed, f, i) && buffer[f].name == x.name && NameCount(typed, x.name) == 1
    ensures buffer[f].Ns? && typed[i].Ns?
    ensures var once, m := MergedBody(buffer, typed), Merged(buffer[f], typed[i]);
      Bag(MergedBody(once, typed))[x] + One(x == ItemOf(m)) == Bag(once)[x] + One(x == ItemOf(Merged(m, typed[i])))
  {
    hide Bag, ItemOf, MergedBody, NameCount, Readable, MergedOld;
    MergedFolded(buffer, typed, x, f, i, declares);
    var once, m := MergedBody(buffer, typed), Merged(buffer[f], typed[i]);
    OldIn(buffer, typed, f, i);
    var j: nat :| j < |once| && once[j] == m;
    assert FoldsAt(once, typed, j, i);
    MergedFolded(once, typed, x, j, i, declares);
  }

  lemma OldIn(buffer: seq<Member>, typed: seq<Member>, f: nat, i: nat)
    requires FoldsAt(buffer, typed, f, i)
    ensures buffer[f].Ns? && typed[i].Ns? && Merged(buffer[f], typed[i]) in MergedBody(buffer, typed)
  {
    hide Added, MergedOld, FoldsAt;
    FoldsInside(buffer, typed, f, i);
    OldHas(buffer, |buffer|, typed, f, i);
    assert buffer[..|buffer|] == buffer;
  }

  lemma FoldsInside(buffer: seq<Member>, typed: seq<Member>, f: int, i: int)
    requires FoldsAt(buffer, typed, f, i)
    ensures 0 <= f < |buffer| && 0 <= i < |typed|
  {
  }

  /** Submitting the same body twice leaves, up to order, what submitting it once leaves, exactly if
      merging it a second time loses nothing. */
  lemma {:induction false} MergingTwiceExactly(buffer: seq<Member>, typed: seq<Member>, declares: string -> bool)
    requires Readable(buffer, declares) && Readable(typed, declares)
    ensures var once := MergedBody(buffer, typed);
      Bag(MergedBody(once, typed)) == Bag(once) <==> !Loses(buffer, typed)
    decreases buffer, 1
  {
    hide Bag, ItemOf, MergedBody, LosesMember, ReadableMember;
    var once := MergedBody(buffer, typed);
    if !Loses(buffer, typed) {
      forall x: Item ensures Bag(MergedBody(once, typed))[x] == Bag(once)[x] {
        AgainItem(buffer, typed, x, declares);
      }
      SameBags(MergedBody(once, typed), once);
    }
    if Bag(MergedBody(once, typed)) == Bag(once) {
      forall k | 0 <= k < |buffer| ensures !LosesMember(buffer, buffer[k], typed) {
        AgainMember(buffer, typed, k, declares);
      }
    }
  }

  lemma {:induction false} AgainItem(buffer: seq<Member>, typed: seq<Member>, x: Item, declares: string -> bool)
    requires Readable(buffer, declares) && Readable(typed, declares) && !Loses(buffer, typed)
    ensures var once := MergedBody(buffer, typed); Bag(MergedBody(once, typed))[x] == Bag(once)[x]
    decreases buffer, 0
  {
    hide Bag, ItemOf, MergedBody, NoneFolds, ReadableMember, NameCount, Folds;
    if x.name == "" || FindNamed(typed, x.name) < 0 || NoneFolds(buffer, typed, x.name) {
      AgainSettled(buffer, typed, x, declares);
    } else {
      var f, i := SomeFolds(buffer, typed, x.name);
      var om, nm := buffer[f], typed[i];
      FoldsNamespaces(buffer, om, nm);
      assert om in buffer && nm in typed && !LosesMember(buffer, om, typed);
      ReadableText(om, declares);
      ReadableText(nm, declares);
      CountedOnce(typed, i);
      if NameCount(typed, x.name) > 1 {
        AgainAmbiguous(buffer, typed, x, f, i, declares);
        AbsorbedMeaning(om.body, nm.body, declares);
        NestedBags(Merged(om, nm), nm);
      } else {
        AgainFolded(buffer, typed, x, f, i, declares);
        MergingTwiceExactly(om.body, nm.body, declares);
        NestedBags(Merged(Merged(om, nm), nm), Merged(om, nm));
      }
    }
  }

  lemma {:induction false} AgainMember(buffer: seq<Member>, typed: seq<Member>, k: nat, declares: string -> bool)
    requires Readable(buffer, declares) && Readable(typed, declares) && k < |buffer|
    requires var once := MergedBody(buffer, typed); Bag(MergedBody(once, typed)) == Bag(once)
    ensures !LosesMember(buffer, buffer[k], typed)
    decreases buffer, 0
  {
    hide Bag, ItemOf, MergedBody, NoneFolds, ReadableMember, NameCount, Folds;
    var om, i := buffer[k], FindNamed(typed, buffer[k].name);
    if om.name != "" && i >= 0 && Folds(buffer, om, typed[i]) {
      var nm := typed[i];
      FoldsNamespaces(buffer, om, nm);
      assert om in buffer && nm in typed;
      ReadableText(om, declares);
      ReadableText(nm, declares);
      CountedOnce(typed, i);
      var m := Merged(om, nm);
      ItemName(m);
      if NameCount(typed, om.name) > 1 {
        AgainAmbiguous(buffer, typed, ItemOf(m), k, i, declares);
        AbsorbedMeaning(om.body, nm.body, declares);
        NestedBags(m, nm);
      } else {
        AgainFolded(buffer, typed, ItemOf(m), k, i, declares);
        MergingTwiceExactly(om.body, nm.body, declares);
        NestedBags(Merged(m, nm), m);
      }
    }
  }
}
