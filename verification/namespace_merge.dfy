/** Folding a resubmitted namespace body into the one in the buffer (internal/repl/merge.go).

    A body is a tree of members. The merge is given as a function on trees; the edits mergeEdits emits
    are proved to rewrite the old text into the text of the merged tree, and the merge is proved to
    lose nothing and, up to member order, to be idempotent. */
module NamespaceMerge {
  import opened TextEdits

  /** A member: one kept as it is written, declaring a name or none (""), or a namespace with a body. */
  datatype Member =
    | Leaf(name: string, text: string)
    | Ns(name: string, header: string, body: seq<Member>)

  /** The source text. Layout between members is not modelled. */
  function Render(m: Member): string
    decreases m
  {
    match m
    case Leaf(_, text) => text
    case Ns(_, header, body) => header + "{" + RenderAll(body) + "}"
  }

  function RenderAll(ms: seq<Member>): string
    decreases ms
  {
    if ms == [] then "" else RenderAll(ms[..|ms| - 1]) + Render(ms[|ms| - 1])
  }

  // ----- Looking members up -----

  /** findNamed: the first member declaring name. */
  function FindNamed(ms: seq<Member>, name: string): (i: int)
    ensures -1 <= i < |ms|
    ensures i >= 0 ==> ms[i].name == name && forall j | 0 <= j < i :: ms[j].name != name
    ensures i < 0 ==> forall j | 0 <= j < |ms| :: ms[j].name != name
  {
    if ms == [] then -1
    else
      var n := |ms| - 1;
      var before := FindNamed(ms[..n], name);
      if before >= 0 then before else if ms[n].name == name then n else -1
  }

  /** nameCounts. */
  function NameCount(ms: seq<Member>, name: string): nat {
    if ms == [] then 0
    else NameCount(ms[..|ms| - 1], name) + (if ms[|ms| - 1].name == name then 1 else 0)
  }

  /** hasText. */
  predicate HasText(ms: seq<Member>, text: string) {
    exists i :: 0 <= i < |ms| && Render(ms[i]) == text
  }

  // ----- The merge on trees -----

  /** The new member an old one is merged with: both namespaces with one header, the old name not
      ambiguous, the new body not empty. */
  predicate Folds(buffer: seq<Member>, om: Member, nm: Member) {
    om.Ns? && NameCount(buffer, om.name) == 1 && nm.Ns? && nm.body != [] && om.header == nm.header
  }

  /** What becomes of an old member: kept, merged with its redeclaration, or dropped. */
  function MergedMember(buffer: seq<Member>, om: Member, typed: seq<Member>): seq<Member>
    decreases om, 0
  {
    var i := FindNamed(typed, om.name);
    if om.name == "" || i < 0 then [om]
    else if Folds(buffer, om, typed[i]) then [Ns(om.name, om.header, MergedBody(om.body, typed[i].body))]
    else []
  }

  function MergedOld(buffer: seq<Member>, some: seq<Member>, typed: seq<Member>): seq<Member>
    decreases some, 0
  {
    if some == [] then []
    else
      var n := |some| - 1;
      MergedOld(buffer, some[..n], typed) + MergedMember(buffer, some[n], typed)
  }

  /** Some old member is merged with typed[i]. */
  predicate FoldedInto(buffer: seq<Member>, typed: seq<Member>, i: nat)
    requires i < |typed|
  {
    typed[i].name != "" && FindNamed(typed, typed[i].name) == i && exists k :: 0 <= k < |buffer| && buffer[k].name == typed[i].name && Folds(buffer, buffer[k], typed[i])
  }

  predicate IsAdded(buffer: seq<Member>, typed: seq<Member>, i: nat)
    requires i < |typed|
  {
    && !FoldedInto(buffer, typed, i)
    && Render(typed[i]) != ""
    && !(typed[i].name == "" && HasText(buffer, Render(typed[i])))
  }

  /** The new members written behind the old ones. */
  function Added(buffer: seq<Member>, typed: seq<Member>, n: nat): seq<Member>
    requires n <= |typed|
  {
    if n == 0 then [] else Added(buffer, typed, n - 1) + (if IsAdded(buffer, typed, n - 1) then [typed[n - 1]] else [])
  }

  function MergedBody(buffer: seq<Member>, typed: seq<Member>): seq<Member>
    decreases buffer, 1
  {
    MergedOld(buffer, buffer, typed) + Added(buffer, typed, |typed|)
  }

  // ----- The merge as edits -----

  /** The edits for one old member whose text starts at `at`. */
  function MemberEdits(buffer: seq<Member>, om: Member, at: nat, typed: seq<Member>): seq<Edit>
    decreases om, 0
  {
    var i := FindNamed(typed, om.name);
    if om.name == "" || i < 0 then []
    else if Folds(buffer, om, typed[i]) then BodyEdits(om.body, at + |om.header| + 1, typed[i].body)
    else [Edit(at, at + |Render(om)|, "", false)]
  }

  function OldEdits(buffer: seq<Member>, some: seq<Member>, at: nat, typed: seq<Member>): seq<Edit>
    decreases some, 0
  {
    if some == [] then []
    else
      var n := |some| - 1;
      OldEdits(buffer, some[..n], at, typed) + MemberEdits(buffer, some[n], at + |RenderAll(some[..n])|, typed)
  }

  /** The edits for a body whose members start at `at`; what is added goes in at the closing brace. */
  function BodyEdits(buffer: seq<Member>, at: nat, typed: seq<Member>): seq<Edit>
    decreases buffer, 1
  {
    var added := RenderAll(Added(buffer, typed, |typed|));
    var brace := at + |RenderAll(buffer)|;
    OldEdits(buffer, buffer, at, typed) + (if added == "" then [] else [Edit(brace, brace, added, true)])
  }

  /** The qualified names of the members the new body replaces. */
  function MemberGone(buffer: seq<Member>, om: Member, typed: seq<Member>, path: string): seq<string>
    decreases om, 0
  {
    var i := FindNamed(typed, om.name);
    if om.name == "" || i < 0 then []
    else if Folds(buffer, om, typed[i]) then Gone(om.body, om.body, typed[i].body, path + "::" + om.name)
    else [path + "::" + om.name]
  }

  function Gone(buffer: seq<Member>, some: seq<Member>, typed: seq<Member>, path: string): seq<string>
    decreases some, 1
  {
    if some == [] then []
    else
      var n := |some| - 1;
      Gone(buffer, some[..n], typed, path) + MemberGone(buffer, some[n], typed, path)
  }

  // ----- mergeEdits -----

  method MergeEdits(buffer: seq<Member>, at: nat, typed: seq<Member>, path: string) returns (edits: seq<Edit>, gone: seq<string>)
    ensures edits == BodyEdits(buffer, at, typed)
    ensures gone == Gone(buffer, buffer, typed, path)
    decreases buffer
  {
    hide RenderAll, OldEdits, BodyEdits, Gone, Added, FoldedBy, FoldedInto, NameCount, HasText;
    edits, gone := [], [];
    var folded: set<int> := {};
    var offset := at;
    NoneOld(buffer, at, typed, path);
    for k := 0 to |buffer|
      invariant offset == at + |RenderAll(buffer[..k])|
      invariant edits == OldEdits(buffer, buffer[..k], at, typed) && gone == Gone(buffer, buffer[..k], typed, path)
      invariant forall i | 0 <= i < |typed| :: i in folded <==> FoldedBy(buffer, buffer[..k], typed, i)
    {
      var om := buffer[k];
      NextOld(buffer, k, at, typed, path);
      NextFolded(buffer, k, typed);
      var here := offset;
      offset := offset + |Render(om)|;
      if om.name == "" {
        continue;
      }
      var i := FindNamed(typed, om.name);
      if i < 0 {
        continue;
      }
      var nm := typed[i];
      if Folds(buffer, om, nm) {
        var subEdits, subGone := MergeEdits(om.body, here + |om.header| + 1, nm.body, path + "::" + om.name);
        edits, gone := edits + subEdits, gone + subGone;
        folded := folded + {i};
        continue;
      }
      edits := edits + [Edit(here, here + |Render(om)|, "", false)];
      gone := gone + [path + "::" + om.name];
    }
    assert buffer[..|buffer|] == buffer;
    var added: seq<Member> := [];
    for i := 0 to |typed|
      invariant added == Added(buffer, typed, i)
    {
      AddedNext(buffer, typed, i, folded);
      if i in folded {
        continue;
      }
      var text := Render(typed[i]);
      if text == "" {
        continue;
      }
      if typed[i].name == "" && HasText(buffer, text) {
        continue;
      }
      added := added + [typed[i]];
    }
    var text := RenderAll(added);
    if text != "" {
      edits := edits + [Edit(offset, offset, text, true)];
    }
    BodyShape(buffer, at, typed);
  }

  lemma NoneOld(buffer: seq<Member>, at: nat, typed: seq<Member>, path: string)
    ensures RenderAll(buffer[..0]) == "" && OldEdits(buffer, buffer[..0], at, typed) == []
    ensures Gone(buffer, buffer[..0], typed, path) == [] && Added(buffer, typed, 0) == []
    ensures forall i | 0 <= i < |typed| :: !FoldedBy(buffer, buffer[..0], typed, i)
  {
  }

  lemma NextOld(buffer: seq<Member>, k: nat, at: nat, typed: seq<Member>, path: string)
    requires k < |buffer|
    ensures RenderAll(buffer[..k + 1]) == RenderAll(buffer[..k]) + Render(buffer[k])
    ensures OldEdits(buffer, buffer[..k + 1], at, typed) ==
      OldEdits(buffer, buffer[..k], at, typed) + MemberEdits(buffer, buffer[k], at + |RenderAll(buffer[..k])|, typed)
    ensures Gone(buffer, buffer[..k + 1], typed, path) ==
      Gone(buffer, buffer[..k], typed, path) + MemberGone(buffer, buffer[k], typed, path)
  {
    assert buffer[..k + 1][..k] == buffer[..k];
  }

  /** Some of the first old members is merged with typed[i]. */
  ghost predicate FoldedBy(buffer: seq<Member>, some: seq<Member>, typed: seq<Member>, i: nat)
    requires i < |typed|
  {
    exists k :: 0 <= k < |some| && some[k].name != "" && FindNamed(typed, some[k].name) == i && Folds(buffer, some[k], typed[i])
  }

  lemma NextFolded(buffer: seq<Member>, k: nat, typed: seq<Member>)
    requires k < |buffer|
    ensures forall i | 0 <= i < |typed| :: FoldedBy(buffer, buffer[..k + 1], typed, i) <==>
      FoldedBy(buffer, buffer[..k], typed, i) ||
      (buffer[k].name != "" && FindNamed(typed, buffer[k].name) == i && Folds(buffer, buffer[k], typed[i]))
  {
    var more, fewer := buffer[..k + 1], buffer[..k];
    assert forall j | 0 <= j < k :: more[j] == fewer[j];
    assert more[k] == buffer[k];
  }

  lemma AddedNext(buffer: seq<Member>, typed: seq<Member>, i: nat, folded: set<int>)
    requires i < |typed| && (i in folded <==> FoldedBy(buffer, buffer, typed, i))
    ensures Added(buffer, typed, i + 1) == Added(buffer, typed, i) + (if IsAdded(buffer, typed, i) then [typed[i]] else [])
    ensures FoldedInto(buffer, typed, i) <==> i in folded
  {
  }

  // ----- The edits realise the merge -----

  /** `text` stands at position p of src. */
  ghost predicate Stands(src: string, p: nat, text: string) {
    p + |text| <= |src| && src[p..p + |text|] == text
  }

  lemma StandsSplit(src: string, p: nat, a: string, b: string)
    requires Stands(src, p, a + b)
    ensures Stands(src, p, a) && Stands(src, p + |a|, b) && p + |a| + |b| <= |src|
  {
    assert src[p..p + |a|] == (a + b)[..|a|];
    assert src[p + |a|..p + |a| + |b|] == (a + b)[|a|..];
  }

  /** Edits within src[low..high], in order of their starts. */
  ghost predicate Between(es: seq<Edit>, low: nat, high: nat) {
    (forall e | e in es :: low <= e.start <= e.end <= high) && SortedByStart(es)
  }

  lemma BetweenConcat(a: seq<Edit>, b: seq<Edit>, low: nat, mid: nat, high: nat)
    requires Between(a, low, mid) && Between(b, mid, high) && low <= mid <= high
    ensures Between(a + b, low, high)
  {
  }

  lemma BetweenWider(es: seq<Edit>, low: nat, mid: nat, high: nat, top: nat)
    requires low <= mid && Between(es, mid, high) && high <= top
    ensures Between(es, low, top)
  {
  }

  lemma BetweenFew(e: Edit, low: nat, high: nat)
    ensures Between([], low, high)
    ensures low <= e.start <= e.end <= high ==> Between([e], low, high)
  {
  }

  lemma Associate<T>(a: seq<T>, b: seq<T>, c: seq<T>)
    ensures (a + b) + c == a + (b + c)
  {
  }

  lemma Unit<T>(a: seq<T>)
    ensures a + [] == a && [] + a == a
  {
  }

  // One level of each recursive function.

  lemma RenderLast(ms: seq<Member>)
    requires ms != []
    ensures RenderAll(ms) == RenderAll(ms[..|ms| - 1]) + Render(ms[|ms| - 1])
  {
  }

  lemma RenderOne(m: Member)
    ensures RenderAll([m]) == Render(m) && RenderAll([]) == ""
  {
    assert [m][..0] == [];
    assert "" + Render(m) == Render(m);
  }

  lemma EditsLast(buffer: seq<Member>, some: seq<Member>, at: nat, typed: seq<Member>)
    ensures some == [] ==> OldEdits(buffer, some, at, typed) == []
    ensures some != [] ==>
      var n := |some| - 1;
      OldEdits(buffer, some, at, typed) ==
        OldEdits(buffer, some[..n], at, typed) + MemberEdits(buffer, some[n], at + |RenderAll(some[..n])|, typed)
  {
  }

  lemma MergedLast(buffer: seq<Member>, some: seq<Member>, typed: seq<Member>)
    ensures some == [] ==> MergedOld(buffer, some, typed) == []
    ensures some != [] ==>
      var n := |some| - 1;
      MergedOld(buffer, some, typed) == MergedOld(buffer, some[..n], typed) + MergedMember(buffer, some[n], typed)
  {
  }

  function Insertion(brace: nat, text: string): seq<Edit> {
    if text == "" then [] else [Edit(brace, brace, text, true)]
  }

  lemma BodyShape(buffer: seq<Member>, at: nat, typed: seq<Member>)
    ensures var added := Added(buffer, typed, |typed|);
      && MergedBody(buffer, typed) == MergedOld(buffer, buffer, typed) + added
      && BodyEdits(buffer, at, typed) == OldEdits(buffer, buffer, at, typed) + Insertion(at + |RenderAll(buffer)|, RenderAll(added))
  {
  }

  lemma RewriteHead(src: string, e: Edit, es: seq<Edit>, pos: nat)
    requires pos <= e.start <= e.end <= |src|
    ensures Rewrite(src, [e] + es, pos) == src[pos..e.start] + e.text + Rewrite(src, es, e.end)
  {
    assert ([e] + es)[1..] == es;
  }

  lemma {:induction false} RenderConcat(a: seq<Member>, b: seq<Member>)
    ensures RenderAll(a + b) == RenderAll(a) + RenderAll(b)
  {
    if b == [] {
      assert a + b == a;
    } else {
      var n := |b| - 1;
      RenderConcat(a, b[..n]);
      assert (a + b)[..|a + b| - 1] == a + b[..n] && (a + b)[|a + b| - 1] == b[n];
      Associate(RenderAll(a), RenderAll(b[..n]), Render(b[n]));
    }
  }

  /** Text before the next edit is copied. */
  lemma Copies(src: string, es: seq<Edit>, pos: nat, p: nat)
    requires pos <= p <= |src| && Between(es, p, |src|)
    ensures Rewrite(src, es, pos) == src[pos..p] + Rewrite(src, es, p)
  {
    if es == [] {
      assert src[pos..] == src[pos..p] + src[p..];
    } else {
      hide Rewrite;
      var e, tail := es[0], Rewrite(src, es[1..], es[0].end);
      assert es == [e] + es[1..];
      RewriteHead(src, e, es[1..], pos);
      RewriteHead(src, e, es[1..], p);
      SplitSlice(src, pos, p, e.start, e.text, tail);
    }
  }

  lemma SplitSlice(src: string, pos: nat, p: nat, start: nat, text: string, tail: string)
    requires pos <= p <= start <= |src|
    ensures src[pos..start] + text + tail == src[pos..p] + (src[p..start] + text + tail)
  {
    assert src[pos..start] == src[pos..p] + src[p..start];
  }

  /** The edits of a body stay inside it, in order. */
  lemma {:induction false} BodyEditsBetween(buffer: seq<Member>, at: nat, typed: seq<Member>)
    ensures Between(BodyEdits(buffer, at, typed), at, at + |RenderAll(buffer)|)
    decreases buffer, 1
  {
    hide BodyEdits, OldEdits, RenderAll, Added, MergedBody, MergedOld, Between;
    var brace, added := at + |RenderAll(buffer)|, RenderAll(Added(buffer, typed, |typed|));
    OldEditsBetween(buffer, buffer, at, typed);
    BetweenFew(Edit(brace, brace, added, true), brace, brace);
    BetweenConcat(OldEdits(buffer, buffer, at, typed), Insertion(brace, added), at, brace, brace);
    BodyShape(buffer, at, typed);
  }

  lemma {:induction false} OldEditsBetween(buffer: seq<Member>, some: seq<Member>, at: nat, typed: seq<Member>)
    ensures Between(OldEdits(buffer, some, at, typed), at, at + |RenderAll(some)|)
    decreases some, 0
  {
    hide OldEdits, MemberEdits, RenderAll, Render, Between;
    EditsLast(buffer, some, at, typed);
    if some == [] {
      BetweenFew(Edit(0, 0, "", true), at, at + |RenderAll(some)|);
    } else {
      var n := |some| - 1;
      var mid := at + |RenderAll(some[..n])|;
      RenderLast(some);
      OldEditsBetween(buffer, some[..n], at, typed);
      MemberEditsBetween(buffer, some[n], mid, typed);
      BetweenConcat(OldEdits(buffer, some[..n], at, typed), MemberEdits(buffer, some[n], mid, typed), at, mid, mid + |Render(some[n])|);
    }
  }

  lemma {:induction false} MemberEditsBetween(buffer: seq<Member>, om: Member, at: nat, typed: seq<Member>)
    ensures Between(MemberEdits(buffer, om, at, typed), at, at + |Render(om)|)
    decreases om, 0
  {
    hide BodyEdits, RenderAll, Between;
    var i, end := FindNamed(typed, om.name), at + |Render(om)|;
    BetweenFew(Edit(at, end, "", false), at, end);
    if om.name != "" && i >= 0 && Folds(buffer, om, typed[i]) {
      var q := at + |om.header| + 1;
      BodyEditsBetween(om.body, q, typed[i].body);
      BetweenWider(BodyEdits(om.body, q, typed[i].body), at, q, q + |RenderAll(om.body)|, end);
    }
  }

  lemma {:induction false} BodyRewrites(src: string, buffer: seq<Member>, at: nat, typed: seq<Member>, after: seq<Edit>)
    requires Stands(src, at, RenderAll(buffer)) && Between(after, at + |RenderAll(buffer)|, |src|)
    ensures Rewrite(src, BodyEdits(buffer, at, typed) + after, at) ==
      RenderAll(MergedBody(buffer, typed)) + Rewrite(src, after, at + |RenderAll(buffer)|)
    decreases buffer, 1
  {
    hide BodyEdits, OldEdits, RenderAll, Added, MergedBody, MergedOld, Between, Rewrite, Insertion;
    var brace := at + |RenderAll(buffer)|;
    var added := Added(buffer, typed, |typed|);
    var text, edits := RenderAll(added), OldEdits(buffer, buffer, at, typed);
    InsertionRewrites(src, brace, text, after);
    OldRewrites(src, buffer, buffer, at, typed, Insertion(brace, text) + after);
    BodyShape(buffer, at, typed);
    RenderConcat(MergedOld(buffer, buffer, typed), added);
    Associate(edits, Insertion(brace, text), after);
    Associate(RenderAll(MergedOld(buffer, buffer, typed)), text, Rewrite(src, after, brace));
  }

  lemma InsertionRewrites(src: string, brace: nat, text: string, after: seq<Edit>)
    requires brace <= |src| && Between(after, brace, |src|)
    ensures Rewrite(src, Insertion(brace, text) + after, brace) == text + Rewrite(src, after, brace)
    ensures Between(Insertion(brace, text) + after, brace, |src|)
  {
    hide Rewrite, Between;
    var e := Edit(brace, brace, text, true);
    Unit(after);
    Unit(Rewrite(src, after, brace));
    RewriteHead(src, e, after, brace);
    BetweenFew(e, brace, brace);
    BetweenConcat([e], after, brace, brace, |src|);
    assert src[brace..brace] + text == text;
  }

  lemma {:induction false} OldRewrites(src: string, buffer: seq<Member>, some: seq<Member>, at: nat, typed: seq<Member>, after: seq<Edit>)
    requires Stands(src, at, RenderAll(some)) && Between(after, at + |RenderAll(some)|, |src|)
    ensures Rewrite(src, OldEdits(buffer, some, at, typed) + after, at) ==
      RenderAll(MergedOld(buffer, some, typed)) + Rewrite(src, after, at + |RenderAll(some)|)
    decreases some, 0
  {
    hide OldEdits, MemberEdits, RenderAll, Render, MergedOld, MergedMember, Between, Rewrite;
    EditsLast(buffer, some, at, typed);
    MergedLast(buffer, some, typed);
    if some == [] {
      RenderOne(Leaf("", ""));
      Unit(after);
      Unit(Rewrite(src, after, at));
    } else {
      var n := |some| - 1;
      var mid := at + |RenderAll(some[..n])|;
      var end, edits := mid + |Render(some[n])|, MemberEdits(buffer, some[n], mid, typed);
      RenderLast(some);
      StandsSplit(src, at, RenderAll(some[..n]), Render(some[n]));
      MemberEditsBetween(buffer, some[n], mid, typed);
      BetweenConcat(edits, after, mid, end, |src|);
      OldRewrites(src, buffer, some[..n], at, typed, edits + after);
      MemberRewrites(src, buffer, some[n], mid, typed, after);
      RenderConcat(MergedOld(buffer, some[..n], typed), MergedMember(buffer, some[n], typed));
      Associate(OldEdits(buffer, some[..n], at, typed), edits, after);
      Associate(RenderAll(MergedOld(buffer, some[..n], typed)), RenderAll(MergedMember(buffer, some[n], typed)), Rewrite(src, after, end));
    }
  }

  lemma {:induction false} MemberRewrites(src: string, buffer: seq<Member>, om: Member, at: nat, typed: seq<Member>, after: seq<Edit>)
    requires Stands(src, at, Render(om)) && Between(after, at + |Render(om)|, |src|)
    ensures Rewrite(src, MemberEdits(buffer, om, at, typed) + after, at) ==
      RenderAll(MergedMember(buffer, om, typed)) + Rewrite(src, after, at + |Render(om)|)
    decreases om, 0
  {
    hide RenderAll, Between, Rewrite, BodyEdits, MergedBody;
    var i, end := FindNamed(typed, om.name), at + |Render(om)|;
    RenderOne(om);
    if om.name == "" || i < 0 {
      Unit(after);
      Copies(src, after, at, end);
    } else if Folds(buffer, om, typed[i]) {
      FoldRewrites(src, om, at, typed[i], after);
    } else {
      RewriteHead(src, Edit(at, end, "", false), after, at);
      Unit(Rewrite(src, after, end));
      assert src[at..at] + "" == "";
    }
  }

  lemma {:induction false} FoldRewrites(src: string, om: Member, at: nat, nm: Member, after: seq<Edit>)
    requires om.Ns? && nm.Ns? && Stands(src, at, Render(om)) && Between(after, at + |Render(om)|, |src|)
    ensures var merged := Ns(om.name, om.header, MergedBody(om.body, nm.body));
      Rewrite(src, BodyEdits(om.body, at + |om.header| + 1, nm.body) + after, at) ==
        RenderAll([merged]) + Rewrite(src, after, at + |Render(om)|)
    decreases om.body, 2
  {
    hide RenderAll, Between, Rewrite, BodyEdits, MergedBody, Stands;
    var head, body, q := om.header + "{", RenderAll(om.body), at + |om.header| + 1;
    var brace, end := q + |body|, at + |Render(om)|;
    var merged := MergedBody(om.body, nm.body);
    var edits := BodyEdits(om.body, q, nm.body);
    Associate(head, body, "}");
    StandsSplit(src, at, head, body + "}");
    StandsSplit(src, q, body, "}");
    StandsIs(src, at, head);
    StandsIs(src, brace, "}");
    BodyEditsBetween(om.body, q, nm.body);
    BetweenWider(after, brace, end, |src|, |src|);
    BetweenConcat(edits, after, q, brace, |src|);
    Copies(src, edits + after, at, q);
    BodyRewrites(src, om.body, q, nm.body, after);
    Copies(src, after, brace, end);
    RenderOne(Ns(om.name, om.header, merged));
    Bracketed(head, RenderAll(merged), Rewrite(src, after, end));
  }

  lemma StandsIs(src: string, p: nat, text: string)
    requires Stands(src, p, text)
    ensures p + |text| <= |src| && src[p..p + |text|] == text
  {
  }

  lemma Bracketed(head: string, body: string, tail: string)
    ensures head + (body + ("}" + tail)) == head + body + "}" + tail
  {
  }

  /** Applying the edits of a merge to a text containing the old body gives that text with the merged
      body in its place. */
  lemma EditsRealiseMerge(before: string, buffer: seq<Member>, after: string, typed: seq<Member>)
    ensures var src := before + RenderAll(buffer) + after;
      Rewrite(src, SortByStart(BodyEdits(buffer, |before|, typed)), 0) == before + RenderAll(MergedBody(buffer, typed)) + after
  {
    hide RenderAll, Rewrite, BodyEdits, MergedBody, SortByStart, Between, Stands;
    var body := RenderAll(buffer);
    var src := before + body + after;
    var at, end := |before|, |before| + |body|;
    var edits := BodyEdits(buffer, at, typed);
    BodyEditsBetween(buffer, at, typed);
    BetweenSorted(edits, at, end);
    SortSorted(edits);
    InContext(before, body, after);
    BetweenWider(edits, at, at, end, |src|);
    BetweenFew(Edit(0, 0, "", true), end, |src|);
    Unit(edits);
    Copies(src, edits, 0, at);
    BodyRewrites(src, buffer, at, typed, []);
    RewriteNone(src, end);
    Associate(before, RenderAll(MergedBody(buffer, typed)), after);
  }

  lemma BetweenSorted(es: seq<Edit>, low: nat, high: nat)
    requires Between(es, low, high)
    ensures SortedByStart(es)
  {
  }

  lemma InContext(before: string, body: string, after: string)
    ensures var src := before + body + after;
      && Stands(src, |before|, body) && src[0..|before|] == before && src[|before| + |body|..] == after
  {
  }

  lemma RewriteNone(src: string, pos: nat)
    requires pos <= |src|
    ensures Rewrite(src, [], pos) == src[pos..]
  {
  }

  // ----- What is reported as replaced, and what is its own -----

  /** The member at a place in the old tree, given by indexes from the outside in, is replaced: the new
      body redeclares it, and it is not merged, while all those around it are. */
  ghost predicate Superseded(buffer: seq<Member>, typed: seq<Member>, place: seq<nat>)
    decreases |place|
  {
    && place != [] && place[0] < |buffer|
    && var om := buffer[place[0]]; var i := FindNamed(typed, om.name);
    && om.name != "" && i >= 0
    && if |place| == 1 then !Folds(buffer, om, typed[i])
       else Folds(buffer, om, typed[i]) && Superseded(om.body, typed[i].body, place[1..])
  }

  /** The qualified name of the member at a place. */
  ghost function NameAt(buffer: seq<Member>, path: string, place: seq<nat>): string
    decreases |place|
  {
    if place == [] || place[0] >= |buffer| then path
    else
      var om := buffer[place[0]];
      NameAt(if om.Ns? then om.body else [], path + "::" + om.name, place[1..])
  }

  /** Place a comes before place b in the old tree, on different branches. */
  ghost predicate Earlier(a: seq<nat>, b: seq<nat>)
    decreases |a|
  {
    a != [] && b != [] && (a[0] < b[0] || (a[0] == b[0] && Earlier(a[1..], b[1..])))
  }

  ghost predicate InTextOrder(places: seq<seq<nat>>) {
    forall p, q | 0 <= p < q < |places| :: Earlier(places[p], places[q])
  }

  /** names are those of the places, which come in order and are the superseded ones within the old
      members low to high. */
  ghost predicate NamesSuperseded(buffer: seq<Member>, typed: seq<Member>, low: nat, high: nat, path: string, names: seq<string>, places: seq<seq<nat>>) {
    && |names| == |places| && InTextOrder(places)
    && (forall place :: place in places <==> place != [] && low <= place[0] < high && Superseded(buffer, typed, place))
    && (forall p | 0 <= p < |places| :: names[p] == NameAt(buffer, path, places[p]))
  }

  function Below(k: nat, places: seq<seq<nat>>): (r: seq<seq<nat>>)
    ensures |r| == |places| && forall p | 0 <= p < |r| :: r[p] == [k] + places[p]
  {
    seq(|places|, p requires 0 <= p < |places| => [k] + places[p])
  }

  lemma NamesJoined(buffer: seq<Member>, typed: seq<Member>, low: nat, mid: nat, high: nat, path: string,
                    names: seq<string>, places: seq<seq<nat>>, more: seq<string>, later: seq<seq<nat>>)
    requires low <= mid <= high
    requires NamesSuperseded(buffer, typed, low, mid, path, names, places) && NamesSuperseded(buffer, typed, mid, high, path, more, later)
    ensures NamesSuperseded(buffer, typed, low, high, path, names + more, places + later)
  {
    hide Superseded, NameAt;
    assert forall p | 0 <= p < |places| :: places[p] in places;
    assert forall p | 0 <= p < |later| :: later[p] in later;
  }

  lemma PlacesBelow(buffer: seq<Member>, typed: seq<Member>, k: nat, i: nat, path: string, names: seq<string>, deeper: seq<seq<nat>>)
    requires k < |buffer| && i < |typed| && buffer[k].name != "" && FindNamed(typed, buffer[k].name) == i && Folds(buffer, buffer[k], typed[i])
    requires NamesSuperseded(buffer[k].body, typed[i].body, 0, |buffer[k].body|, path + "::" + buffer[k].name, names, deeper)
    ensures NamesSuperseded(buffer, typed, k, k + 1, path, names, Below(k, deeper))
  {
    hide Superseded, NameAt, InTextOrder, Folds, FindNamed, Below;
    BelowInOrder(k, deeper);
    forall p | 0 <= p < |deeper|
      ensures names[p] == NameAt(buffer, path, Below(k, deeper)[p])
    {
      InBelow(k, deeper, deeper[p]);
      OneBelow(buffer, typed, k, i, path, [k] + deeper[p]);
    }
    forall place: seq<nat> | place != [] && k <= place[0] < k + 1
      ensures place in Below(k, deeper) <==> Superseded(buffer, typed, place)
    {
      OneBelow(buffer, typed, k, i, path, place);
      InBelow(k, deeper, place);
    }
    forall place | place in Below(k, deeper) ensures place != [] && place[0] == k {
      InBelow(k, deeper, place);
    }
  }

  lemma InBelow(k: nat, places: seq<seq<nat>>, place: seq<nat>)
    ensures place in Below(k, places) <==> place != [] && place[0] == k && place[1..] in places
    ensures ([k] + place)[1..] == place
  {
    if place != [] && place[0] == k && place[1..] in places {
      var p :| 0 <= p < |places| && places[p] == place[1..];
      assert Below(k, places)[p] == place;
    }
  }

  lemma BelowInOrder(k: nat, places: seq<seq<nat>>)
    requires InTextOrder(places)
    ensures InTextOrder(Below(k, places))
  {
    var below := Below(k, places);
    forall p, q | 0 <= p < q < |below| ensures Earlier(below[p], below[q]) {
      assert below[p][1..] == places[p] && below[q][1..] == places[q];
    }
  }

  lemma OneBelow(buffer: seq<Member>, typed: seq<Member>, k: nat, i: nat, path: string, place: seq<nat>)
    requires k < |buffer| && i < |typed| && buffer[k].name != "" && FindNamed(typed, buffer[k].name) == i && Folds(buffer, buffer[k], typed[i])
    requires place != [] && place[0] == k
    ensures var body, inner := buffer[k].body, place[1..];
      && (Superseded(buffer, typed, place) <==> Superseded(body, typed[i].body, inner))
      && (Superseded(body, typed[i].body, inner) ==> inner != [] && inner[0] < |body|)
      && NameAt(buffer, path, place) == NameAt(body, path + "::" + buffer[k].name, inner)
  {
  }

  /** The places reported for one old member. */
  lemma {:induction false} MemberPlaces(buffer: seq<Member>, typed: seq<Member>, k: nat, path: string) returns (places: seq<seq<nat>>)
    requires k < |buffer|
    ensures NamesSuperseded(buffer, typed, k, k + 1, path, MemberGone(buffer, buffer[k], typed, path), places)
    decreases buffer[k], 0
  {
    hide Gone;
    var om := buffer[k];
    var i := FindNamed(typed, om.name);
    places := [];
    if om.name != "" && i >= 0 {
      var inner := path + "::" + om.name;
      if Folds(buffer, om, typed[i]) {
        var deeper := GonePlaces(om.body, typed[i].body, inner);
        places := Below(k, deeper);
        PlacesBelow(buffer, typed, k, i, path, Gone(om.body, om.body, typed[i].body, inner), deeper);
      } else {
        places := [[k]];
        forall place: seq<nat> | place != [] && place[0] == k
          ensures Superseded(buffer, typed, place) <==> place in places
          ensures place in places ==> NameAt(buffer, path, place) == inner
        {
          assert |place| == 1 ==> place == [k];
        }
      }
    }
  }

  lemma {:induction false} PlacesAmong(buffer: seq<Member>, typed: seq<Member>, n: nat, path: string) returns (places: seq<seq<nat>>)
    requires n <= |buffer|
    ensures NamesSuperseded(buffer, typed, 0, n, path, Gone(buffer, buffer[..n], typed, path), places)
    decreases buffer, 0, n
  {
    hide MemberGone, NameAt, Superseded;
    places := [];
    if n > 0 {
      var before := PlacesAmong(buffer, typed, n - 1, path);
      assert buffer[..n][..n - 1] == buffer[..n - 1] && buffer[n - 1] in buffer;
      var here := MemberPlaces(buffer, typed, n - 1, path);
      places := before + here;
      NamesJoined(buffer, typed, 0, n - 1, n, path, Gone(buffer, buffer[..n - 1], typed, path), before,
                  MemberGone(buffer, buffer[n - 1], typed, path), here);
    }
  }

  lemma {:induction false} GonePlaces(buffer: seq<Member>, typed: seq<Member>, path: string) returns (places: seq<seq<nat>>)
    ensures NamesSuperseded(buffer, typed, 0, |buffer|, path, Gone(buffer, buffer, typed, path), places)
    ensures forall place :: place in places <==> Superseded(buffer, typed, place)
    decreases buffer, 1
  {
    hide Gone;
    assert buffer[..|buffer|] == buffer;
    places := PlacesAmong(buffer, typed, |buffer|, path);
  }

  /** The names reported are those of the replaced members, at every level, each once for its place and
      in the order of the old text. */
  lemma GoneMeaning(buffer: seq<Member>, typed: seq<Member>, path: string)
    ensures exists places :: NamesSuperseded(buffer, typed, 0, |buffer|, path, Gone(buffer, buffer, typed, path), places)
  {
    var places := GonePlaces(buffer, typed, path);
  }

  /** The edits that only cut text. */
  function Cuts(es: seq<Edit>): nat {
    if es == [] then 0 else Cuts(es[..|es| - 1]) + (if es[|es| - 1].own then 0 else 1)
  }

  lemma {:induction false} CutsConcat(a: seq<Edit>, b: seq<Edit>)
    ensures Cuts(a + b) == Cuts(a) + Cuts(b)
  {
    if b == [] {
      assert a + b == a;
    } else {
      var n := |b| - 1;
      CutsConcat(a, b[..n]);
      assert (a + b)[..|a + b| - 1] == a + b[..n] && (a + b)[|a + b| - 1] == b[n];
    }
  }

  ghost predicate OwnWrite(es: seq<Edit>) {
    forall e | e in es :: (e.own <==> e.text != "") && (e.own ==> e.start == e.end)
  }

  lemma {:induction false} MemberEditsOwn(buffer: seq<Member>, om: Member, at: nat, typed: seq<Member>, path: string)
    ensures OwnWrite(MemberEdits(buffer, om, at, typed))
    ensures Cuts(MemberEdits(buffer, om, at, typed)) == |MemberGone(buffer, om, typed, path)|
    decreases om, 0
  {
    hide BodyEdits, Gone;
    var i := FindNamed(typed, om.name);
    if om.name != "" && i >= 0 {
      if Folds(buffer, om, typed[i]) {
        EditsOwn(om.body, at + |om.header| + 1, typed[i].body, path + "::" + om.name);
      } else {
        assert [Edit(at, at + |Render(om)|, "", false)][..0] == [];
      }
    }
  }

  lemma {:induction false} OldEditsOwn(buffer: seq<Member>, some: seq<Member>, at: nat, typed: seq<Member>, path: string)
    ensures OwnWrite(OldEdits(buffer, some, at, typed)) && Cuts(OldEdits(buffer, some, at, typed)) == |Gone(buffer, some, typed, path)|
    decreases some, 0
  {
    hide MemberEdits, MemberGone;
    if some != [] {
      var n := |some| - 1;
      OldEditsOwn(buffer, some[..n], at, typed, path);
      MemberEditsOwn(buffer, some[n], at + |RenderAll(some[..n])|, typed, path);
      CutsConcat(OldEdits(buffer, some[..n], at, typed), MemberEdits(buffer, some[n], at + |RenderAll(some[..n])|, typed));
    }
  }

  /** An edit is the submission's own exactly if it writes text, and then it replaces none; each of the
      others cuts one of the members reported as replaced. */
  lemma {:induction false} EditsOwn(buffer: seq<Member>, at: nat, typed: seq<Member>, path: string)
    ensures OwnWrite(BodyEdits(buffer, at, typed)) && Cuts(BodyEdits(buffer, at, typed)) == |Gone(buffer, buffer, typed, path)|
    decreases buffer, 1
  {
    hide OldEdits, Gone, Added;
    OldEditsOwn(buffer, buffer, at, typed, path);
    var added := RenderAll(Added(buffer, typed, |typed|));
    var brace := at + |RenderAll(buffer)|;
    var last := if added == "" then [] else [Edit(brace, brace, added, true)];
    CutsConcat(OldEdits(buffer, buffer, at, typed), last);
    assert added != "" ==> last[..0] == [];
  }
}
