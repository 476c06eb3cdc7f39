/** What the namespace merge means when no body repeats a name: which names survive, with which
    contents; and that merging a submission that repeats none again changes nothing but order. */
module MergeLaws {
  import opened NamespaceMerge
  import opened MergeBags

  /** A body without the order of its named members: what each name declares, and the texts of the
      members that declare none, in order. */
  datatype Content = Content(named: map<string, Shape>, unnamed: seq<string>)

  datatype Shape = Text(text: string) | Body(header: string, content: Content)

  function ShapeOf(m: Member): Shape
    decreases m, 0
  {
    match m
    case Leaf(_, text) => Text(text)
    case Ns(_, header, body) => Body(header, ContentOf(body))
  }

  function OneContent(m: Member): Content
    decreases m, 1
  {
    if m.name == "" then Content(map[], [Render(m)]) else Content(map[m.name := ShapeOf(m)], [])
  }

  function Join(a: Content, b: Content): Content {
    Content(a.named + b.named, a.unnamed + b.unnamed)
  }

  function ContentOf(ms: seq<Member>): Content
    decreases ms
  {
    if ms == [] then Content(map[], []) else Join(ContentOf(ms[..|ms| - 1]), OneContent(ms[|ms| - 1]))
  }

  // ----- The merge on contents -----

  /** Both are namespaces with one header and the typed one is not empty. */
  predicate Merges(was: Shape, typed: Shape) {
    && was.Body? && typed.Body? && was.header == typed.header
    && typed.content != Content(map[], [])
  }

  /** The typed texts that are not there yet. */
  function Fresh(typed: seq<string>, there: seq<string>): seq<string> {
    if typed == [] then []
    else
      var n := |typed| - 1;
      Fresh(typed[..n], there) + (if typed[n] in there then [] else [typed[n]])
  }

  function MergeShape(was: Shape, typed: Shape): Shape
    decreases was
  {
    if Merges(was, typed) then Body(was.header, MergeContent(was.content, typed.content)) else typed
  }

  /** The union of the names; a name on both sides is merged if both are namespaces with one header
      (and the typed one not empty), otherwise the typed member wins. */
  function MergeContent(was: Content, typed: Content): Content
    decreases was
  {
    var named := map n | n in was.named.Keys + typed.named.Keys ::
      if n !in typed.named then was.named[n]
      else if n !in was.named then typed.named[n]
      else MergeShape(was.named[n], typed.named[n]);
    Content(named, was.unnamed + Fresh(typed.unnamed, was.unnamed))
  }

  // ----- Proper bodies -----

  /** No body repeats a name, no member is empty, and whether a member declares a name can be read off
      its text, whatever the body of a namespace holds. */
  ghost predicate Proper(ms: seq<Member>, declares: string -> bool)
    decreases ms
  {
    && Distinct(ms)
    && forall m | m in ms :: ProperMember(m, declares)
  }

  ghost predicate Distinct(ms: seq<Member>) {
    forall i, j | 0 <= i < j < |ms| :: ms[i].name == ms[j].name ==> ms[i].name == ""
  }

  ghost predicate ProperMember(m: Member, declares: string -> bool)
    decreases m
  {
    match m
    case Leaf(name, text) => text != "" && (declares(text) <==> name != "")
    case Ns(name, header, body) =>
      && Proper(body, declares)
      && forall inner: string :: declares(header + "{" + inner + "}") <==> name != ""
  }

  lemma ProperText(m: Member, declares: string -> bool)
    requires ProperMember(m, declares)
    ensures Render(m) != "" && (declares(Render(m)) <==> m.name != "")
  {
  }

  // ----- Contents, pointwise -----

  lemma ContentLast(ms: seq<Member>)
    ensures ms == [] ==> ContentOf(ms) == Content(map[], [])
    ensures ms != [] ==> ContentOf(ms) == Join(ContentOf(ms[..|ms| - 1]), OneContent(ms[|ms| - 1]))
  {
  }

  lemma JoinAssociates(a: Content, b: Content, c: Content)
    ensures Join(Join(a, b), c) == Join(a, Join(b, c))
  {
  }

  lemma {:induction false} ContentConcat(a: seq<Member>, b: seq<Member>)
    ensures ContentOf(a + b) == Join(ContentOf(a), ContentOf(b))
  {
    if b == [] {
      assert a + b == a;
    } else {
      var n := |b| - 1;
      ContentConcat(a, b[..n]);
      assert (a + b)[..|a + b| - 1] == a + b[..n] && (a + b)[|a + b| - 1] == b[n];
      ContentLast(a + b);
      ContentLast(b);
      hide ContentOf;
      JoinAssociates(ContentOf(a), ContentOf(b[..n]), OneContent(b[n]));
    }
  }

  /** The names of a content are those its members declare. */
  lemma {:induction false} NamesOf(ms: seq<Member>, name: string)
    ensures name in ContentOf(ms).named <==> name != "" && exists i :: 0 <= i < |ms| && ms[i].name == name
  {
    hide ContentOf, ShapeOf, Render;
    ContentLast(ms);
    if ms != [] {
      var n := |ms| - 1;
      NamesOf(ms[..n], name);
      if i: nat :| i < |ms| && ms[i].name == name {
        assert i < n ==> ms[..n][i].name == name;
      }
    }
  }

  /** Where names are distinct, each stands for the one member that declares it. */
  lemma {:induction false} ShapeAt(ms: seq<Member>, i: nat)
    requires Distinct(ms) && i < |ms| && ms[i].name != ""
    ensures ms[i].name in ContentOf(ms).named && ContentOf(ms).named[ms[i].name] == ShapeOf(ms[i])
  {
    hide ContentOf, ShapeOf, Render;
    ContentLast(ms);
    var n := |ms| - 1;
    if i < n {
      ShapeAt(ms[..n], i);
    }
  }

  /** A text without a name stands among the unnamed ones if some member has that text. */
  lemma {:induction false} UnnamedAt(ms: seq<Member>, declares: string -> bool, text: string)
    requires (forall m | m in ms :: ProperMember(m, declares)) && !declares(text)
    ensures text in ContentOf(ms).unnamed <==> HasText(ms, text)
  {
    hide ContentOf, ShapeOf, Render, ProperMember;
    ContentLast(ms);
    if ms != [] {
      var n := |ms| - 1;
      UnnamedAt(ms[..n], declares, text);
      ProperText(ms[n], declares);
      if i: nat :| i < |ms| && Render(ms[i]) == text {
        assert i < n ==> Render(ms[..n][i]) == text;
      }
      if HasText(ms[..n], text) {
        var j: nat :| j < n && Render(ms[..n][j]) == text;
        assert Render(ms[j]) == text;
      }
    }
  }

  lemma {:induction false} CountOne(ms: seq<Member>, i: nat)
    requires Distinct(ms) && i < |ms| && ms[i].name != ""
    ensures NameCount(ms, ms[i].name) == 1
  {
    var n := |ms| - 1;
    if i < n {
      CountOne(ms[..n], i);
    } else {
      NotCounted(ms[..n], ms[i].name);
    }
  }

  lemma EmptyContent(ms: seq<Member>)
    ensures ContentOf(ms) == Content(map[], []) <==> ms == []
  {
    if ms != [] {
      var n := |ms| - 1;
      ContentLast(ms);
      assert ContentOf(ms).unnamed == ContentOf(ms[..n]).unnamed + OneContent(ms[n]).unnamed;
      if ms[n].name != "" {
        assert ms[n].name in ContentOf(ms).named;
      }
    }
  }

  // ----- The trees' merge is the contents' merge -----

  /** What is left of the old names. */
  function OldNamed(was: map<string, Shape>, typed: map<string, Shape>): map<string, Shape> {
    map n | n in was && (n !in typed || Merges(was[n], typed[n])) ::
      if n in typed then MergeShape(was[n], typed[n]) else was[n]
  }

  /** Folding an old member is merging its shape with the typed one. */
  lemma FoldsIsMerges(buffer: seq<Member>, k: nat, typed: seq<Member>, i: nat)
    requires Distinct(buffer) && k < |buffer| && i < |typed| && buffer[k].name != ""
    ensures Folds(buffer, buffer[k], typed[i]) <==> Merges(ShapeOf(buffer[k]), ShapeOf(typed[i]))
  {
    CountOne(buffer, k);
    if typed[i].Ns? {
      EmptyContent(typed[i].body);
    }
  }

  /** The merge of trees, forgetting order, is the merge of contents. */
  lemma {:induction false} MergeMeaning(buffer: seq<Member>, typed: seq<Member>, declares: string -> bool)
    requires Proper(buffer, declares) && Proper(typed, declares)
    ensures ContentOf(MergedBody(buffer, typed)) == MergeContent(ContentOf(buffer), ContentOf(typed))
    decreases buffer, 2
  {
    hide ContentOf, MergedOld, Added, MergeShape, ProperMember, Merges;
    assert buffer[..|buffer|] == buffer && typed[..|typed|] == typed;
    OldMeaning(buffer, |buffer|, typed, declares);
    AddedMeaning(buffer, typed, |typed|, declares);
    ContentConcat(MergedOld(buffer, buffer, typed), Added(buffer, typed, |typed|));
    MergedIs(ContentOf(buffer), ContentOf(typed));
  }

  /** The typed names that no old member takes in. */
  function NewNamed(was: map<string, Shape>, typed: map<string, Shape>): map<string, Shape> {
    map n | n in typed && !(n in was && Merges(was[n], typed[n])) :: typed[n]
  }

  lemma MergedIs(was: Content, typed: Content)
    ensures MergeContent(was, typed) ==
      Content(OldNamed(was.named, typed.named) + NewNamed(was.named, typed.named), was.unnamed + Fresh(typed.unnamed, was.unnamed))
  {
    hide Merges;
  }

  lemma {:induction false} OldMeaning(buffer: seq<Member>, k: nat, typed: seq<Member>, declares: string -> bool)
    requires Proper(buffer, declares) && Proper(typed, declares) && k <= |buffer|
    ensures var some := ContentOf(buffer[..k]);
      ContentOf(MergedOld(buffer, buffer[..k], typed)) == Content(OldNamed(some.named, ContentOf(typed).named), some.unnamed)
    decreases buffer, 1, k
  {
    hide ContentOf, MergedOld, MergedMember, MergeShape, ProperMember, Merges, ShapeOf;
    var some := buffer[..k];
    ContentLast(some);
    MergedLast(buffer, some, typed);
    if k > 0 {
      assert some[..k - 1] == buffer[..k - 1] && some[k - 1] == buffer[k - 1];
      OldMeaning(buffer, k - 1, typed, declares);
      MemberMeaning(buffer, k - 1, typed, declares);
      ContentConcat(MergedOld(buffer, some[..k - 1], typed), MergedMember(buffer, some[k - 1], typed));
      NamesOf(some[..k - 1], some[k - 1].name);
      OldNamedJoin(ContentOf(some[..k - 1]).named, OneContent(some[k - 1]).named, ContentOf(typed).named);
    }
  }

  lemma OldNamedJoin(a: map<string, Shape>, b: map<string, Shape>, typed: map<string, Shape>)
    requires a.Keys !! b.Keys
    ensures OldNamed(a + b, typed) == OldNamed(a, typed) + OldNamed(b, typed)
  {
    hide Merges, MergeShape;
  }

  lemma {:induction false} MemberMeaning(buffer: seq<Member>, k: nat, typed: seq<Member>, declares: string -> bool)
    requires Proper(buffer, declares) && Proper(typed, declares) && k < |buffer|
    ensures var one := OneContent(buffer[k]);
      ContentOf(MergedMember(buffer, buffer[k], typed)) == Content(OldNamed(one.named, ContentOf(typed).named), one.unnamed)
    decreases buffer, 0
  {
    hide ContentOf, Merges, ShapeOf, MergedBody, MergeShape;
    var om := buffer[k];
    var i := FindNamed(typed, om.name);
    NamesOf(typed, om.name);
    OneMember(om);
    ContentLast([]);
    if om.name != "" && i >= 0 {
      ShapeAt(typed, i);
      FoldsIsMerges(buffer, k, typed, i);
      if Folds(buffer, om, typed[i]) {
        assert om in buffer && typed[i] in typed;
        ProperBody(om, declares);
        ProperBody(typed[i], declares);
        MergeMeaning(om.body, typed[i].body, declares);
        MergedShape(om, typed[i]);
        OneMember(Ns(om.name, om.header, MergedBody(om.body, typed[i].body)));
      }
    }
  }

  lemma ProperBody(m: Member, declares: string -> bool)
    requires ProperMember(m, declares) && m.Ns?
    ensures Proper(m.body, declares)
  {
  }

  lemma OneMember(m: Member)
    ensures ContentOf([m]) == OneContent(m)
  {
    assert [m][..0] == [];
    ContentLast([m]);
    ContentLast([]);
  }

  lemma MergedShape(om: Member, nm: Member)
    requires om.Ns? && nm.Ns? && Merges(ShapeOf(om), ShapeOf(nm))
    requires ContentOf(MergedBody(om.body, nm.body)) == MergeContent(ContentOf(om.body), ContentOf(nm.body))
    ensures ShapeOf(Ns(om.name, om.header, MergedBody(om.body, nm.body))) == MergeShape(ShapeOf(om), ShapeOf(nm))
  {
    hide MergeContent, MergedBody, ContentOf;
  }

  /** typed[i] is taken in by an old member exactly if their shapes merge. */
  lemma FoldedIntoMeaning(buffer: seq<Member>, typed: seq<Member>, i: nat)
    requires Distinct(buffer) && Distinct(typed) && i < |typed|
    ensures var was := ContentOf(buffer).named;
      FoldedInto(buffer, typed, i) <==> typed[i].name in was && Merges(was[typed[i].name], ShapeOf(typed[i]))
  {
    hide ContentOf, Merges, ShapeOf, Folds;
    var name := typed[i].name;
    NamesOf(buffer, name);
    if name in ContentOf(buffer).named {
      var k: nat :| k < |buffer| && buffer[k].name == name;
      ShapeAt(buffer, k);
      FoldsIsMerges(buffer, k, typed, i);
      assert forall j | 0 <= j < |buffer| && buffer[j].name == name :: j == k;
    }
  }

  lemma {:induction false} AddedMeaning(buffer: seq<Member>, typed: seq<Member>, k: nat, declares: string -> bool)
    requires Proper(buffer, declares) && Proper(typed, declares) && k <= |typed|
    ensures var was, some := ContentOf(buffer), ContentOf(typed[..k]);
      ContentOf(Added(buffer, typed, k)) == Content(NewNamed(was.named, some.named), Fresh(some.unnamed, was.unnamed))
  {
    hide ContentOf, ProperMember, Merges, ShapeOf, Fresh, IsAdded, Added, Render, NewNamed;
    var some := typed[..k];
    ContentLast(some);
    AddedLast(buffer, typed, k);
    if k == 0 {
      ContentLast([]);
      FreshNext([], "", ContentOf(buffer).unnamed);
      NothingNew(ContentOf(buffer).named);
    } else {
      var nm := typed[k - 1];
      assert some[..k - 1] == typed[..k - 1] && some[k - 1] == nm;
      AddedMeaning(buffer, typed, k - 1, declares);
      NamesOf(some[..k - 1], nm.name);
      var was, fewer := ContentOf(buffer), ContentOf(typed[..k - 1]);
      NewNamedJoin(was.named, fewer.named, OneContent(nm).named);
      OneAdded(buffer, typed, k - 1, declares);
      FreshNext(fewer.unnamed, Render(nm), was.unnamed);
      FreshNext([], Render(nm), was.unnamed);
      ContentConcat(Added(buffer, typed, k - 1), if IsAdded(buffer, typed, k - 1) then [nm] else []);
    }
  }

  lemma AddedLast(buffer: seq<Member>, typed: seq<Member>, k: nat)
    requires k <= |typed|
    ensures k == 0 ==> Added(buffer, typed, k) == []
    ensures k > 0 ==> Added(buffer, typed, k) == Added(buffer, typed, k - 1) + (if IsAdded(buffer, typed, k - 1) then [typed[k - 1]] else [])
  {
  }

  lemma FreshNext(typed: seq<string>, text: string, there: seq<string>)
    ensures Fresh([], there) == []
    ensures Fresh(typed + [text], there) == Fresh(typed, there) + (if text in there then [] else [text])
    ensures Fresh(typed + [], there) == Fresh(typed, there) + []
  {
    assert (typed + [text])[..|typed|] == typed;
    assert typed + [] == typed;
  }

  lemma NothingNew(was: map<string, Shape>)
    ensures NewNamed(was, map[]) == map[]
  {
  }

  lemma NewNamedJoin(was: map<string, Shape>, a: map<string, Shape>, b: map<string, Shape>)
    requires a.Keys !! b.Keys
    ensures NewNamed(was, a + b) == NewNamed(was, a) + NewNamed(was, b)
  {
    hide Merges;
  }

  lemma OneAdded(buffer: seq<Member>, typed: seq<Member>, i: nat, declares: string -> bool)
    requires Proper(buffer, declares) && Proper(typed, declares) && i < |typed|
    ensures var was, one := ContentOf(buffer), OneContent(typed[i]);
      ContentOf(if IsAdded(buffer, typed, i) then [typed[i]] else []) ==
        Content(NewNamed(was.named, one.named), if one.unnamed == [] || Render(typed[i]) in was.unnamed then [] else [Render(typed[i])])
  {
    hide ContentOf, ProperMember, Merges, ShapeOf, Render, FoldedInto, HasText;
    var m := typed[i];
    assert m in typed;
    ProperText(m, declares);
    FoldedIntoMeaning(buffer, typed, i);
    NamesOf(buffer, "");
    OneMember(m);
    ContentLast([]);
    if m.name == "" {
      UnnamedAt(buffer, declares, Render(m));
    }
  }

  // ----- The laws of the merge -----

  /** The names of the merged body are the union of both sides' names, each as often as the submission
      declares it, or as the buffer does where the submission does not. Names may repeat. */
  lemma NamesAreUnited(buffer: seq<Member>, typed: seq<Member>, declares: string -> bool, name: string)
    requires Readable(typed, declares) && name != ""
    ensures NameCount(MergedBody(buffer, typed), name) ==
      if FindNamed(typed, name) >= 0 then NameCount(typed, name) else NameCount(buffer, name)
    ensures (exists m :: m in MergedBody(buffer, typed) && m.name == name) <==>
      (exists m :: m in buffer && m.name == name) || (exists m :: m in typed && m.name == name)
  {
    hide MergedBody, NameCount, FindNamed, Readable, Folds, FoldsAt;
    var x := Verbatim(name, "");
    Declared(MergedBody(buffer, typed), name);
    Declared(buffer, name);
    Declared(typed, name);
    if FindNamed(typed, name) < 0 {
      MergedUndeclared(buffer, typed, x, declares);
    } else if NoneFolds(buffer, typed, name) {
      MergedRedeclared(buffer, typed, x, declares);
    } else {
      var f, i := SomeFolds(buffer, typed, name);
      MergedFolded(buffer, typed, x, f, i, declares);
    }
  }

  lemma {:induction false} Declared(ms: seq<Member>, name: string)
    ensures NameCount(ms, name) > 0 <==> exists m :: m in ms && m.name == name
    ensures FindNamed(ms, name) >= 0 <==> exists m :: m in ms && m.name == name
  {
    hide FindNamed;
    if m :| m in ms && m.name == name {
      var i: nat :| i < |ms| && ms[i] == m;
      NameCounted(ms, i);
    } else {
      NotCounted(ms, name);
    }
  }

  lemma {:induction false} NameCounted(ms: seq<Member>, i: nat)
    requires i < |ms|
    ensures NameCount(ms, ms[i].name) > 0
  {
    if i < |ms| - 1 {
      NameCounted(ms[..|ms| - 1], i);
    }
  }

  /** Everything already there: nothing is fresh. */
  lemma {:induction false} NothingFresh(typed: seq<string>, there: seq<string>)
    requires forall t | t in typed :: t in there
    ensures Fresh(typed, there) == []
  {
    if typed != [] {
      NothingFresh(typed[..|typed| - 1], there);
    }
  }

  lemma {:induction false} FreshOnceAdded(typed: seq<string>, there: seq<string>, t: string)
    requires t in typed
    ensures t in there + Fresh(typed, there)
  {
    var n := |typed| - 1;
    if typed[n] != t {
      assert t in typed[..n];
      FreshOnceAdded(typed[..n], there, t);
    }
  }

  /** Merging a content with itself gives it back. */
  lemma {:induction false} SelfMerge(c: Content)
    ensures MergeContent(c, c) == c
    decreases c
  {
    hide Fresh;
    NothingFresh(c.unnamed, c.unnamed);
    var m := MergeContent(c, c);
    forall n | n in c.named ensures m.named[n] == c.named[n] {
      SelfMergeShape(c.named[n]);
    }
    assert m.named == c.named;
    assert c.unnamed + [] == c.unnamed;
  }

  lemma {:induction false} SelfMergeShape(s: Shape)
    ensures MergeShape(s, s) == s
    decreases s
  {
    hide MergeContent;
    if s.Body? {
      SelfMerge(s.content);
    }
  }

  /** Merging the same content a second time changes nothing. */
  lemma {:induction false} MergeIsIdempotent(was: Content, typed: Content)
    ensures MergeContent(MergeContent(was, typed), typed) == MergeContent(was, typed)
    decreases was
  {
    hide Fresh, MergeShape;
    var once := MergeContent(was, typed);
    var twice := MergeContent(once, typed);
    forall n | n in once.named ensures twice.named[n] == once.named[n] {
      if n in typed.named {
        if n in was.named {
          MergeShapeTwice(was.named[n], typed.named[n]);
        } else {
          SelfMergeShape(typed.named[n]);
        }
      }
    }
    assert twice.named == once.named;
    forall t | t in typed.unnamed ensures t in once.unnamed {
      FreshOnceAdded(typed.unnamed, was.unnamed, t);
    }
    NothingFresh(typed.unnamed, once.unnamed);
    assert once.unnamed + [] == once.unnamed;
  }

  lemma {:induction false} MergeShapeTwice(was: Shape, typed: Shape)
    ensures MergeShape(MergeShape(was, typed), typed) == MergeShape(was, typed)
    decreases was
  {
    hide MergeContent;
    if Merges(was, typed) {
      MergeIsIdempotent(was.content, typed.content);
    } else {
      SelfMergeShape(typed);
    }
  }

  // A merged body is proper again.

  ghost predicate Absent(ms: seq<Member>, m: Member) {
    m.name == "" || forall x | x in ms :: x.name != m.name
  }

  lemma DistinctGrows(ms: seq<Member>, m: Member)
    requires Distinct(ms) && Absent(ms, m)
    ensures Distinct(ms + [m])
  {
  }

  /** Each body a merge leaves behind is proper. */
  lemma {:induction false} MergeStaysProper(buffer: seq<Member>, typed: seq<Member>, declares: string -> bool)
    requires Proper(buffer, declares) && Proper(typed, declares)
    ensures Proper(MergedBody(buffer, typed), declares)
    decreases buffer, 2
  {
    hide ProperMember, Added, MergedOld;
    assert buffer[..|buffer|] == buffer;
    OldStaysProper(buffer, |buffer|, typed, declares);
    AddedStaysProper(buffer, typed, |typed|, declares);
    var kept, added := MergedOld(buffer, buffer, typed), Added(buffer, typed, |typed|);
    forall m, a | m in kept && a in added && m.name != "" ensures m.name != a.name {
      if m.name == a.name {
        var i :| 0 <= i < |typed| && typed[i] == a && IsAdded(buffer, typed, i);
        KeptIsNotAdded(buffer, typed, i);
      }
    }
    DistinctConcat(kept, added);
  }

  lemma DistinctConcat(a: seq<Member>, b: seq<Member>)
    requires Distinct(a) && Distinct(b)
    requires forall x, y | x in a && y in b && x.name != "" :: x.name != y.name
    ensures Distinct(a + b)
  {
    forall i, j | 0 <= i < j < |a + b| && (a + b)[i].name == (a + b)[j].name ensures (a + b)[i].name == "" {
      if i < |a| <= j {
        assert a[i] in a && b[j - |a|] in b;
      }
    }
  }

  lemma KeptIsNotAdded(buffer: seq<Member>, typed: seq<Member>, i: nat)
    requires Distinct(typed) && i < |typed| && typed[i].name != "" && KeepsName(buffer, |buffer|, typed, typed[i].name)
    ensures !IsAdded(buffer, typed, i)
  {
  }

  lemma {:induction false} OldStaysProper(buffer: seq<Member>, k: nat, typed: seq<Member>, declares: string -> bool)
    requires Proper(buffer, declares) && Proper(typed, declares) && k <= |buffer|
    ensures var kept := MergedOld(buffer, buffer[..k], typed);
      && Proper(kept, declares)
      && forall m | m in kept && m.name != "" :: KeepsName(buffer, k, typed, m.name)
    decreases buffer, 1, k
  {
    hide ProperMember, MergedMember, MergedOld, Folds;
    MergedLast(buffer, buffer[..k], typed);
    if k > 0 {
      var some := buffer[..k];
      assert some[..k - 1] == buffer[..k - 1] && some[k - 1] == buffer[k - 1];
      OldStaysProper(buffer, k - 1, typed, declares);
      MemberStaysProper(buffer, buffer[k - 1], typed, declares);
    }
  }

  /** A name that stays with the first k old members: one of theirs, not redeclared unless folded. */
  ghost predicate KeepsName(buffer: seq<Member>, k: nat, typed: seq<Member>, name: string)
    requires k <= |buffer|
  {
    exists j :: 0 <= j < k && buffer[j].name == name && StaysIn(buffer, buffer[j], typed)
  }

  ghost predicate StaysIn(buffer: seq<Member>, om: Member, typed: seq<Member>) {
    var i := FindNamed(typed, om.name);
    i < 0 || Folds(buffer, om, typed[i])
  }

  lemma {:induction false} MemberStaysProper(buffer: seq<Member>, om: Member, typed: seq<Member>, declares: string -> bool)
    requires Proper(typed, declares) && ProperMember(om, declares)
    ensures var kept := MergedMember(buffer, om, typed);
      && |kept| <= 1
      && (|kept| == 1 ==> ProperMember(kept[0], declares) && kept[0].name == om.name && (om.name != "" ==> StaysIn(buffer, om, typed)))
    decreases om, 0
  {
    hide MergedBody;
    var i := FindNamed(typed, om.name);
    if om.name != "" && i >= 0 && Folds(buffer, om, typed[i]) {
      assert typed[i] in typed;
      MergeStaysProper(om.body, typed[i].body, declares);
    }
  }

  lemma {:induction false} AddedStaysProper(buffer: seq<Member>, typed: seq<Member>, k: nat, declares: string -> bool)
    requires Proper(typed, declares) && k <= |typed|
    ensures var added := Added(buffer, typed, k);
      && Proper(added, declares)
      && forall m | m in added :: exists i :: 0 <= i < k && typed[i] == m && IsAdded(buffer, typed, i)
  {
    hide ProperMember, IsAdded;
    if k > 0 {
      AddedStaysProper(buffer, typed, k - 1, declares);
      assert typed[k - 1] in typed;
      var fewer := Added(buffer, typed, k - 1);
      forall m | m in fewer && m.name == typed[k - 1].name ensures m.name == "" {
        var i :| 0 <= i < k - 1 && typed[i] == m && IsAdded(buffer, typed, i);
      }
      DistinctGrows(fewer, typed[k - 1]);
    }
  }

  lemma {:induction false} ProperIsReadable(ms: seq<Member>, declares: string -> bool)
    requires Proper(ms, declares)
    ensures Readable(ms, declares)
    decreases ms, 1
  {
    hide ReadableMember, ProperMember;
    forall m | m in ms ensures ReadableMember(m, declares) {
      ProperMemberIsReadable(m, declares);
    }
  }

  lemma {:induction false} ProperMemberIsReadable(m: Member, declares: string -> bool)
    requires ProperMember(m, declares)
    ensures ReadableMember(m, declares)
    decreases m, 0
  {
    if m.Ns? {
      ProperIsReadable(m.body, declares);
    }
  }

  lemma {:induction false} DistinctCount(ms: seq<Member>, name: string)
    requires Distinct(ms) && name != ""
    ensures NameCount(ms, name) <= 1
  {
    if i: nat :| i < |ms| && ms[i].name == name {
      CountOne(ms, i);
    } else {
      NotCounted(ms, name);
    }
  }

  /** A submission that repeats no name loses nothing, whatever the buffer repeats. */
  lemma {:induction false} ProperLosesNothing(buffer: seq<Member>, typed: seq<Member>, declares: string -> bool)
    requires Proper(typed, declares)
    ensures !Loses(buffer, typed)
    decreases buffer, 1
  {
    hide LosesMember, ProperMember, Distinct;
    forall k | 0 <= k < |buffer| ensures !LosesMember(buffer, buffer[k], typed) {
      MemberLosesNothing(buffer, buffer[k], typed, declares);
    }
  }

  lemma {:induction false} MemberLosesNothing(buffer: seq<Member>, om: Member, typed: seq<Member>, declares: string -> bool)
    requires Proper(typed, declares)
    ensures !LosesMember(buffer, om, typed)
    decreases om, 0
  {
    hide ProperMember, Distinct;
    var i := FindNamed(typed, om.name);
    if om.name != "" && i >= 0 && Folds(buffer, om, typed[i]) {
      assert typed[i] in typed;
      DistinctCount(typed, om.name);
      ProperBody(typed[i], declares);
      ProperLosesNothing(om.body, typed[i].body, declares);
    }
  }

  /** Submitting a body that repeats no name a second time changes nothing but the order of members,
      whatever names the buffer repeats; and where it repeats none either, each name keeps its content. */
  lemma {:induction false} MergingTwiceIsMergingOnce(buffer: seq<Member>, typed: seq<Member>, declares: string -> bool)
    requires Readable(buffer, declares) && Proper(typed, declares)
    ensures var once := MergedBody(buffer, typed);
      && Bag(MergedBody(once, typed)) == Bag(once)
      && (Proper(buffer, declares) ==> ContentOf(MergedBody(once, typed)) == ContentOf(once))
  {
    hide ContentOf, MergedBody, MergeContent, ProperMember, Bag, Loses, ReadableMember;
    ProperIsReadable(typed, declares);
    ProperLosesNothing(buffer, typed, declares);
    MergingTwiceExactly(buffer, typed, declares);
    if Proper(buffer, declares) {
      MergeStaysProper(buffer, typed, declares);
      MergeMeaning(buffer, typed, declares);
      MergeMeaning(MergedBody(buffer, typed), typed, declares);
      MergeIsIdempotent(ContentOf(buffer), ContentOf(typed));
    }
  }

  /** A named member the submission redeclares, unless it is folded, stands in the merged body as typed,
      and nothing else there has its name. */
  lemma {:induction false} RedeclaredStandsAsTyped(buffer: seq<Member>, typed: seq<Member>, declares: string -> bool, i: nat)
    requires Proper(buffer, declares) && Proper(typed, declares)
    requires i < |typed| && typed[i].name != "" && !FoldedInto(buffer, typed, i)
    ensures typed[i] in MergedBody(buffer, typed)
    ensures forall m | m in MergedBody(buffer, typed) && m.name == typed[i].name :: m == typed[i]
  {
    hide MergedOld, ProperMember, Added, FoldedInto;
    assert typed[i] in typed;
    ProperText(typed[i], declares);
    AddedHas(buffer, typed, i, |typed|);
    MergeStaysProper(buffer, typed, declares);
  }

  // ----- Nothing else is touched -----

  predicate Redeclared(m: Member, typed: seq<Member>) {
    m.name != "" && FindNamed(typed, m.name) >= 0
  }

  /** The members a submission does not redeclare, in order. */
  function Untouched(ms: seq<Member>, typed: seq<Member>): seq<Member> {
    if ms == [] then []
    else
      var n := |ms| - 1;
      Untouched(ms[..n], typed) + (if Redeclared(ms[n], typed) then [] else [ms[n]])
  }

  lemma {:induction false} UntouchedConcat(a: seq<Member>, b: seq<Member>, typed: seq<Member>)
    ensures Untouched(a + b, typed) == Untouched(a, typed) + Untouched(b, typed)
  {
    if b == [] {
      assert a + b == a;
    } else {
      var n := |b| - 1;
      UntouchedConcat(a, b[..n], typed);
      assert (a + b)[..|a + b| - 1] == a + b[..n] && (a + b)[|a + b| - 1] == b[n];
    }
  }

  /** Old members that are not redeclared stay, whole and in order, whatever names repeat; behind them
      come only typed members that declare no name. */
  lemma {:induction false} UntouchedStay(buffer: seq<Member>, typed: seq<Member>)
    ensures Untouched(MergedBody(buffer, typed), typed) ==
      Untouched(buffer, typed) + Untouched(Added(buffer, typed, |typed|), typed)
    ensures forall m | m in Untouched(Added(buffer, typed, |typed|), typed) :: m in typed && m.name == ""
  {
    UntouchedConcat(MergedOld(buffer, buffer, typed), Added(buffer, typed, |typed|), typed);
    UntouchedOld(buffer, buffer, typed);
    UntouchedTyped(buffer, typed, |typed|);
  }

  lemma {:induction false} UntouchedOld(buffer: seq<Member>, some: seq<Member>, typed: seq<Member>)
    ensures Untouched(MergedOld(buffer, some, typed), typed) == Untouched(some, typed)
  {
    MergedLast(buffer, some, typed);
    if some != [] {
      var n := |some| - 1;
      UntouchedOld(buffer, some[..n], typed);
      hide MergedOld;
      UntouchedConcat(MergedOld(buffer, some[..n], typed), MergedMember(buffer, some[n], typed), typed);
      UntouchedMember(buffer, some[n], typed);
    }
  }

  lemma UntouchedMember(buffer: seq<Member>, om: Member, typed: seq<Member>)
    ensures Untouched(MergedMember(buffer, om, typed), typed) == if Redeclared(om, typed) then [] else [om]
  {
    hide MergedBody;
    assert [om][..0] == [];
    if Redeclared(om, typed) {
      var i := FindNamed(typed, om.name);
      if Folds(buffer, om, typed[i]) {
        var merged := Ns(om.name, om.header, MergedBody(om.body, typed[i].body));
        assert [merged][..0] == [];
      }
    }
  }

  lemma {:induction false} UntouchedTyped(buffer: seq<Member>, typed: seq<Member>, k: nat)
    requires k <= |typed|
    ensures forall m | m in Untouched(Added(buffer, typed, k), typed) :: m in typed && m.name == ""
  {
    hide IsAdded, Untouched, Added;
    AddedLast(buffer, typed, k);
    if k == 0 {
      UntouchedOne(Leaf("", ""), typed);
    } else {
      var m := typed[k - 1];
      UntouchedTyped(buffer, typed, k - 1);
      UntouchedOne(m, typed);
      UntouchedConcat(Added(buffer, typed, k - 1), if IsAdded(buffer, typed, k - 1) then [m] else [], typed);
      assert m.name != "" ==> Redeclared(m, typed);
    }
  }

  lemma UntouchedOne(m: Member, typed: seq<Member>)
    ensures Untouched([m], typed) == (if Redeclared(m, typed) then [] else [m]) && Untouched([], typed) == []
  {
    assert [m][..0] == [];
  }

  // ----- Why names must not repeat -----

  lemma MergeOfOne(om: Member, typed: seq<Member>)
    ensures MergedBody([om], typed) == MergedMember([om], om, typed) + Added([om], typed, |typed|)
  {
    hide MergedOld, MergedMember, Added;
    assert [om][..0] == [];
    MergedLast([om], [om], typed);
    MergedLast([om], [], typed);
    assert [] + MergedMember([om], om, typed) == MergedMember([om], om, typed);
  }

  lemma MergeOfTwo(a: Member, b: Member, typed: seq<Member>)
    ensures var both := [a, b];
      MergedBody(both, typed) == MergedMember(both, a, typed) + MergedMember(both, b, typed) + Added(both, typed, |typed|)
  {
    hide MergedOld, MergedMember, Added;
    var both := [a, b];
    assert both[..1] == [a] && [a][..0] == [];
    MergedLast(both, both, typed);
    MergedLast(both, [a], typed);
    MergedLast(both, [], typed);
    assert [] + MergedMember(both, a, typed) == MergedMember(both, a, typed);
  }

  lemma CountInTwo(a: Member, b: Member)
    ensures NameCount([a], a.name) == 1
    ensures a.name == b.name ==> NameCount([a, b], a.name) == 2
  {
    assert [a, b][..1] == [a] && [a][..0] == [];
  }

  lemma AddedOfTwo(buffer: seq<Member>, a: Member, b: Member)
    ensures Added(buffer, [a], 1) == if IsAdded(buffer, [a], 0) then [a] else []
    ensures Added(buffer, [a, b], 2) ==
      (if IsAdded(buffer, [a, b], 0) then [a] else []) + (if IsAdded(buffer, [a, b], 1) then [b] else [])
  {
    hide Added, IsAdded;
    AddedLast(buffer, [a], 0);
    AddedLast(buffer, [a], 1);
    AddedLast(buffer, [a, b], 0);
    AddedLast(buffer, [a, b], 1);
    AddedLast(buffer, [a, b], 2);
  }

  lemma FirstOf(a: Member, b: Member)
    ensures FindNamed([a, b], a.name) == 0 && FindNamed([a], a.name) == 0
    ensures forall name | name != a.name :: FindNamed([a], name) < 0
  {
    assert [a, b][0].name == a.name && [a][0].name == a.name;
  }

  /** A submission that declares a name twice: the first merge folds the namespace and adds the other
      member beside it, so the second finds the name ambiguous, drops both, and x is lost. */
  lemma RepeatedNameLosesMember()
    ensures var x, p, q := Leaf("x", "part x;"), Leaf("p", "part p;"), Leaf("a", "part a;");
      var buffer, typed := [Ns("a", "package a", [x])], [Ns("a", "package a", [p]), q];
      var once := MergedBody(buffer, typed);
      && once == [Ns("a", "package a", [x, p]), q]
      && MergedBody(once, typed) == [Ns("a", "package a", [p]), q]
      && Loses(buffer, typed)
  {
    var x, p, q := Leaf("x", "part x;"), Leaf("p", "part p;"), Leaf("a", "part a;");
    var a, ap, axp := Ns("a", "package a", [x]), Ns("a", "package a", [p]), Ns("a", "package a", [x, p]);
    assert MergedBody([x], [p]) == [x, p] by { LeafBeside(x, p); }
    FoldThenAdd(a, ap, q, axp);
    BothReplaced(axp, ap, q);
    TypedTwiceLoses(a, ap, q, x);
  }

  /** An old member that the submission's namespace does not redeclare is lost if the namespace's name is typed twice. */
  lemma TypedTwiceLoses(a: Member, ap: Member, q: Member, x: Member)
    requires a.Ns? && ap.Ns? && a.header == ap.header && ap.body != [] && a.name == ap.name == q.name != ""
    requires x in a.body && x.name != "" && FindNamed(ap.body, x.name) < 0
    ensures Loses([a], [ap, q])
  {
    FirstOf(ap, q);
    CountInTwo(a, a);
    CountInTwo(ap, q);
    var k: nat :| k < |a.body| && a.body[k] == x;
    assert !AbsorbedMember(a.body, a.body[k], ap.body);
    assert LosesMember([a], [a][0], [ap, q]);
  }

  lemma LeafBeside(x: Member, p: Member)
    requires x.Leaf? && p.Leaf? && x.name != p.name && p.name != "" && p.text != ""
    ensures MergedBody([x], [p]) == [x, p]
  {
    hide MergedBody, Added, MergedOld;
    FirstOf(p, p);
    MergeOfOne(x, [p]);
    AddedOfTwo([x], p, p);
  }

  lemma FoldThenAdd(a: Member, ap: Member, q: Member, merged: Member)
    requires a.Ns? && ap.Ns? && a.header == ap.header && ap.body != [] && a.name == ap.name == q.name != "" && Render(q) != ""
    requires merged == Ns(a.name, a.header, MergedBody(a.body, ap.body))
    ensures MergedBody([a], [ap, q]) == [merged, q]
  {
    hide MergedBody, Added, MergedOld, Render;
    FirstOf(ap, q);
    CountInTwo(a, a);
    MergeOfOne(a, [ap, q]);
    AddedOfTwo([a], ap, q);
    assert [a][0] == a && [ap, q][1] == q;
    assert FoldedInto([a], [ap, q], 0) && !FoldedInto([a], [ap, q], 1);
  }

  lemma BothReplaced(a: Member, ap: Member, q: Member)
    requires a.name == ap.name == q.name != "" && Render(ap) != "" && Render(q) != ""
    ensures MergedBody([a, q], [ap, q]) == [ap, q]
  {
    hide MergedBody, Added, MergedOld, Render;
    FirstOf(ap, q);
    CountInTwo(a, q);
    MergeOfTwo(a, q, [ap, q]);
    AddedOfTwo([a, q], ap, q);
    assert !FoldedInto([a, q], [ap, q], 0) && !FoldedInto([a, q], [ap, q], 1);
  }
}
