/** Classifying a production by the corpus (cmd/grammar-coverage/classify.go, corpus.go).

    The verdict is proved against derivations: what "evidence", "literal free" and "undecidable" say
    about the finite derivations of a production and the literals of the corpus files. */
module Classify {
  import opened Masks
  import opened PathSets
  import opened Grammar
  import opened Derivations
  import opened Paths
  import opened Analysis

  datatype Bucket = Evidence | NoEvidence | Indistinguishable

  datatype Reason = NoReason | LexerTerminal | LiteralFree | Absent | NotTogether | Undecidable

  datatype Row = Row(bucket: Bucket, reason: Reason, required: seq<string>, missing: seq<string>, file: Option<string>)

  /** A corpus file, the literals found in it and their mask. */
  datatype FileIndex = FileIndex(path: string, has: set<string>, mask: Mask)

  datatype LiteralIndex = LiteralIndex(files: seq<FileIndex>, mask: Mask) {
    ghost predicate For(lits: LitTable) {
      && (forall f | f in files :: Bits(f.mask) == lits.LitBits(f.has))
      && Bits(mask) == lits.LitBits(Corpus(files))
    }
  }

  /** The literals of all files together. */
  ghost function Corpus(files: seq<FileIndex>): set<string> {
    if files == [] then {} else Corpus(files[..|files| - 1]) + files[|files| - 1].has
  }

  // ----- Literals and bits -----

  function Spelled(e: Expr): set<string> {
    match e
    case Lit(value) => {value}
    case Seq(items) => set i, l | i in items && l in Spelled(i) :: l
    case Alt(items) => set i, l | i in items && l in Spelled(i) :: l
    case Opt(item) => Spelled(item)
    case _ => {}
  }

  /** The table holds every literal some production spells out, as main.go arranges. */
  ghost predicate TableCovers(r: Rules) {
    forall k | k in r.productions :: Spelled(r.Body(k)) <= r.lits.bit.Keys
  }

  /** Some finite derivation of k spells out only literals in `have`. */
  ghost predicate DerivableFrom(r: Rules, k: Key, have: set<string>) {
    exists t :: DerivesKey(r, k, t) && KeyLiterals(r, k, t) <= have
  }

  lemma {:induction false} LiteralsKnown(r: Rules, grammar: string, e: Expr, t: Tree)
    requires TableCovers(r) && Spelled(e) <= r.lits.bit.Keys && Derives(r, grammar, e, t)
    ensures Literals(r, grammar, e, t) <= r.lits.bit.Keys
    decreases t
  {
    match e {
      case Ref(name) =>
        match r.Lookup(grammar, name) {
          case None =>
          case Some(k) => LiteralsKnown(r, k.grammar, r.Body(k), t.kid);
        }
      case Seq(items) => AllLiteralsKnown(r, grammar, items, t.kids);
      case Alt(items) => LiteralsKnown(r, grammar, items[t.index], t.kid);
      case _ =>
    }
  }

  lemma {:induction false} AllLiteralsKnown(r: Rules, grammar: string, items: seq<Expr>, kids: seq<Tree>)
    requires TableCovers(r) && DerivesAll(r, grammar, items, kids)
    requires forall i | i in items :: Spelled(i) <= r.lits.bit.Keys
    ensures AllLiterals(r, grammar, items, kids) <= r.lits.bit.Keys
    decreases kids
  {
    if items != [] {
      var n := |items| - 1;
      AllLiteralsKnown(r, grammar, items[..n], kids[..n]);
      LiteralsKnown(r, grammar, items[n], kids[n]);
    }
  }

  /** Known literals are told apart by their bits. */
  lemma BitsReflectLiterals(lits: LitTable, a: set<string>, b: set<string>)
    requires lits.Valid() && a <= lits.bit.Keys
    ensures lits.LitBits(a) <= lits.LitBits(b) <==> a <= b
  {
    if lits.LitBits(a) <= lits.LitBits(b) {
      forall l | l in a ensures l in b {
        assert lits.bit[l] in lits.LitBits(b);
        var o :| o in b && o in lits.bit && lits.bit[o] == lits.bit[l];
        assert lits.order[lits.bit[o]] == o;
      }
    }
  }

  lemma DerivableByLiterals(r: Rules, k: Key, have: set<string>)
    requires r.Valid() && TableCovers(r) && k in r.productions
    ensures Derivable(r, k, r.lits.LitBits(have)) <==> DerivableFrom(r, k, have)
  {
    forall t | DerivesKey(r, k, t)
      ensures KeyNeeds(r, k, t) <= r.lits.LitBits(have) <==> KeyLiterals(r, k, t) <= have
    {
      LiteralsKnown(r, k.grammar, r.Body(k), t);
      BitsReflectLiterals(r.lits, KeyLiterals(r, k, t), have);
    }
  }

  /** The literals a mask stands for. */
  ghost function NameSet(lits: LitTable, m: Mask): set<string> {
    set l | l in lits.bit && lits.bit[l] in Bits(m)
  }

  /** Each path set is the literal set of a derivation. */
  lemma PathIsDerivation(r: Rules, k: Key, m: Mask) returns (t: Tree)
    requires r.Valid() && TableCovers(r) && k in r.productions && m in PathsOf(r, {}, k)
    ensures DerivesKey(r, k, t) && KeyLiterals(r, k, t) == NameSet(r.lits, m)
  {
    t := KeySound(r, {}, k, m);
    LiteralsKnown(r, k.grammar, r.Body(k), t);
    var spelled := KeyLiterals(r, k, t);
    forall l | l in NameSet(r.lits, m) ensures l in spelled {
      var o :| o in spelled && r.lits.bit[o] == r.lits.bit[l];
      assert r.lits.order[r.lits.bit[o]] == o && r.lits.order[r.lits.bit[l]] == l;
    }
    forall l | l in spelled ensures l in NameSet(r.lits, m) {
      assert r.lits.bit[l] in r.lits.LitBits(spelled);
    }
  }

  ghost predicate InTableOrder(lits: LitTable, out: seq<string>) {
    && (forall l | l in out :: l in lits.bit)
    && (forall i, j | 0 <= i < j < |out| :: lits.bit[out[i]] < lits.bit[out[j]])
  }

  /** `out` lists the literals of a mask in table order. */
  ghost predicate Lists(lits: LitTable, out: seq<string>, m: Mask) {
    (forall l :: l in out <==> l in NameSet(lits, m)) && InTableOrder(lits, out)
  }

  /** names: the literals of a set, in table order. */
  method Names(lits: LitTable, m: Mask) returns (out: seq<string>)
    requires lits.Valid()
    ensures Lists(lits, out, m)
  {
    out := [];
    for i := 0 to |lits.order|
      invariant forall l :: l in out <==> l in NameSet(lits, m) && lits.bit[l] < i
      invariant InTableOrder(lits, out)
    {
      hide SubsetOf, NameSet, InTableOrder;
      var lit := lits.order[i];
      HasLiteral(lits, m, lit);
      NextName(lits, m, out, i);
      if SubsetOf(lits.Mask(lit), m) {
        out := out + [lit];
      }
    }
  }

  /** The next literal of the table continues the list, if it is in the set. */
  lemma NextName(lits: LitTable, m: Mask, out: seq<string>, i: nat)
    requires lits.Valid() && i < |lits.order| && InTableOrder(lits, out)
    requires forall l :: l in out <==> l in NameSet(lits, m) && lits.bit[l] < i
    ensures var lit := lits.order[i];
      var more := if lit in NameSet(lits, m) then out + [lit] else out;
      && InTableOrder(lits, more)
      && forall l :: l in more <==> l in NameSet(lits, m) && lits.bit[l] < i + 1
  {
    hide Bits;
    forall l | l in NameSet(lits, m) && lits.bit[l] == i ensures l == lits.order[i] {
    }
    forall j | 0 <= j < |out| ensures lits.bit[out[j]] < i {
      assert out[j] in out;
    }
  }

  lemma HasLiteral(lits: LitTable, m: Mask, lit: string)
    requires lits.Valid() && lit in lits.bit
    ensures SubsetOf(lits.Mask(lit), m) <==> lit in NameSet(lits, m)
  {
    assert lits.LitBits({lit}) == {lits.bit[lit]};
  }

  /** maskOf: the set of those table literals a file has. */
  method MaskOf(lits: LitTable, has: set<string>) returns (m: Mask)
    requires lits.Valid()
    ensures Bits(m) == lits.LitBits(has)
  {
    m := Empty();
    for i := 0 to |lits.order|
      invariant Bits(m) == lits.LitBits(set l | l in has && l in lits.bit && lits.bit[l] < i)
    {
      var lit := lits.order[i];
      ghost var before := set l | l in has && l in lits.bit && lits.bit[l] < i;
      ghost var after := set l | l in has && l in lits.bit && lits.bit[l] < i + 1;
      if lit in has {
        m := Or(m, lits.Mask(lit));
        assert after == before + {lit};
        LitBitsUnion(lits, before, {lit});
      } else {
        assert after == before;
      }
    }
    assert lits.LitBits(has) == lits.LitBits(set l | l in has && l in lits.bit && lits.bit[l] < |lits.order|);
  }

  /** The masks of the corpus files and of the whole corpus. */
  method BuildIndex(lits: LitTable, paths: seq<string>, found: seq<set<string>>) returns (idx: LiteralIndex)
    requires lits.Valid() && |paths| == |found|
    ensures idx.For(lits) && |idx.files| == |paths|
    ensures forall i | 0 <= i < |paths| :: idx.files[i].path == paths[i] && idx.files[i].has == found[i]
  {
    var files: seq<FileIndex> := [];
    var all := Empty();
    for i := 0 to |paths|
      invariant |files| == i
      invariant LiteralIndex(files, all).For(lits)
      invariant forall j | 0 <= j < i :: files[j].path == paths[j] && files[j].has == found[j]
    {
      var mask := MaskOf(lits, found[i]);
      var file := FileIndex(paths[i], found[i], mask);
      assert (files + [file])[..i] == files;
      LitBitsUnion(lits, Corpus(files), found[i]);
      files := files + [file];
      all := Or(all, mask);
    }
    idx := LiteralIndex(files, all);
  }

  /** How many literals of a set the corpus lacks. */
  function Gap(m: Mask, corpus: Mask): nat {
    Count(AndNot(m, corpus))
  }

  ghost predicate FirstLeastGap(paths: seq<Mask>, corpus: Mask, i: nat) {
    && i < |paths|
    && (forall j | 0 <= j < |paths| :: Gap(paths[i], corpus) <= Gap(paths[j], corpus))
    && (forall j | 0 <= j < i :: Gap(paths[i], corpus) < Gap(paths[j], corpus))
  }

  /** closest: among the paths with the least gap, the one that comes first. */
  method Closest(paths: seq<Mask>, corpus: Mask) returns (chosen: Mask, missing: Mask)
    ensures paths == [] ==> chosen == missing == Empty()
    ensures paths != [] ==> exists i: nat :: FirstLeastGap(paths, corpus, i) && chosen == paths[i]
    ensures paths != [] ==> missing == AndNot(chosen, corpus)
  {
    hide Gap;
    var best := -1;
    chosen, missing := Empty(), Empty();
    ghost var at: nat := 0;
    for i := 0 to |paths|
      invariant i == 0 ==> best == -1 && chosen == missing == Empty()
      invariant i > 0 ==> at < i && chosen == paths[at] && missing == AndNot(chosen, corpus)
      invariant i > 0 ==> best == Gap(chosen, corpus)
      invariant forall j | 0 <= j < i :: best <= Gap(paths[j], corpus)
      invariant i > 0 ==> forall j | 0 <= j < at :: best < Gap(paths[j], corpus)
    {
      var gap := AndNot(paths[i], corpus);
      var n := Gap(paths[i], corpus);
      if best < 0 || n < best {
        best, chosen, missing := n, paths[i], gap;
        at := i;
      }
    }
    assert paths != [] ==> FirstLeastGap(paths, corpus, at);
  }

  // ----- The verdict -----

  /** None of the first n files holds all the literals of a path. */
  ghost predicate NoneBefore(paths: seq<Mask>, files: seq<FileIndex>, n: int) {
    n <= |files| && forall i | 0 <= i < n :: !Covers(paths, Bits(files[i].mask))
  }

  /** The j-th path is the first whose literals all lie in `have`. */
  ghost predicate FirstPath(paths: seq<Mask>, have: set<nat>, j: nat) {
    j < |paths| && Bits(paths[j]) <= have && forall k | 0 <= k < j :: !(Bits(paths[k]) <= have)
  }

  /** The indexes of the earliest file that holds some whole path, and of the earliest path it holds. */
  method FirstEvidence(paths: seq<Mask>, files: seq<FileIndex>) returns (found: Option<(nat, nat)>)
    ensures found.None? ==> NoneBefore(paths, files, |files|)
    ensures found.Some? ==> found.value.0 < |files| && NoneBefore(paths, files, found.value.0)
    ensures found.Some? ==> FirstPath(paths, Bits(files[found.value.0].mask), found.value.1)
  {
    for i := 0 to |files|
      invariant NoneBefore(paths, files, i)
    {
      for j := 0 to |paths|
        invariant forall k | 0 <= k < j :: !(Bits(paths[k]) <= Bits(files[i].mask))
      {
        if SubsetOf(paths[j], files[i].mask) {
          return Some((i, j));
        }
      }
    }
    return None;
  }

  /** Row's verdict read off the path sets. */
  ghost predicate VerdictOf(row: Row, lits: LitTable, paths: seq<Mask>, idx: LiteralIndex) {
    if paths == [] then row == Row(Indistinguishable, Undecidable, [], [], None)
    else if IsZero(paths[0]) then row == Row(Indistinguishable, LiteralFree, [], [], None)
    else match row.bucket
      case Evidence =>
        row.reason == NoReason && row.missing == [] && exists i, j :: EvidenceAt(row, lits, paths, idx, i, j)
      case NoEvidence =>
        && row.file == None
        && NoneBefore(paths, idx.files, |idx.files|)
        && (exists j :: ClosestPath(row, lits, paths, idx, j))
        && row.reason == (if row.missing == [] then NotTogether else Absent)
      case Indistinguishable => false
  }

  /** The i-th file is the first to hold all literals of a path, and the j-th path the first it holds. */
  ghost predicate EvidenceAt(row: Row, lits: LitTable, paths: seq<Mask>, idx: LiteralIndex, i: nat, j: nat) {
    && i < |idx.files| && NoneBefore(paths, idx.files, i) && FirstPath(paths, Bits(idx.files[i].mask), j)
    && row.file == Some(idx.files[i].path)
    && Lists(lits, row.required, paths[j])
  }

  /** The j-th path is the first of those with the fewest literals missing from the corpus. */
  ghost predicate ClosestPath(row: Row, lits: LitTable, paths: seq<Mask>, idx: LiteralIndex, j: nat) {
    && FirstLeastGap(paths, idx.mask, j)
    && Lists(lits, row.required, paths[j])
    && Lists(lits, row.missing, AndNot(paths[j], idx.mask))
  }

  /** classify, less the citations it copies from the index. */
  method ClassifyProduction(p: Production, an: Analyzer, idx: LiteralIndex) returns (row: Row)
    requires an.Valid() && an.active == {} && idx.For(an.rules.lits)
    requires KeyOf(p) in an.rules.productions && an.rules.productions[KeyOf(p)] == p
    modifies an
    ensures an.Valid() && an.active == {}
    ensures p.kind.Terminal? ==> row == Row(Indistinguishable, LexerTerminal, [], [], None)
    ensures !p.kind.Terminal? ==> VerdictOf(row, an.rules.lits, PathsOf(an.rules, {}, KeyOf(p)), idx)
  {
    hide Gap, IsZero, SubsetOf, AndNot, Lists, PathsOf, FirstPath, NoneBefore;
    if p.kind.Terminal? {
      return Row(Indistinguishable, LexerTerminal, [], [], None);
    }
    var paths := an.Paths(p);
    if |paths| == 0 {
      return Row(Indistinguishable, Undecidable, [], [], None);
    }
    if IsZero(paths[0]) {
      return Row(Indistinguishable, LiteralFree, [], [], None);
    }
    var found := FirstEvidence(paths, idx.files);
    if found.Some? {
      var (i, j) := found.value;
      FirstPathIs(paths, Bits(idx.files[i].mask), j);
      var required := Names(an.rules.lits, paths[j]);
      row := Row(Evidence, NoReason, required, [], Some(idx.files[i].path));
      assert EvidenceAt(row, an.rules.lits, paths, idx, i, j);
      return;
    }
    var closest, missing := Closest(paths, idx.mask);
    var required := Names(an.rules.lits, closest);
    var absent := Names(an.rules.lits, missing);
    row := Row(NoEvidence, if IsZero(missing) then NotTogether else Absent, required, absent, None);
    ghost var j: nat :| FirstLeastGap(paths, idx.mask, j) && closest == paths[j];
    assert ClosestPath(row, an.rules.lits, paths, idx, j) && closest in paths;
    GapNames(an.rules, KeyOf(p), closest, missing, absent);
  }

  lemma FirstPathIs(paths: seq<Mask>, have: set<nat>, j: nat)
    requires FirstPath(paths, have, j)
    ensures j < |paths| && paths[j] in paths && Bits(paths[j]) <= have
  {
  }

  /** A path's literals all have names, so its gap has one exactly when it is not empty. */
  lemma GapNames(r: Rules, k: Key, m: Mask, missing: Mask, absent: seq<string>)
    requires r.Valid() && k in r.productions && m in PathsOf(r, {}, k)
    requires Bits(missing) <= Bits(m) && Lists(r.lits, absent, missing)
    ensures absent == [] <==> IsZero(missing)
  {
    hide PathsOf;
    assert absent != [] ==> absent[0] in NameSet(r.lits, missing);
    if b :| b in Bits(missing) {
      var t := KeySound(r, {}, k, m);
      var l :| l in KeyLiterals(r, k, t) && l in r.lits.bit && r.lits.bit[l] == b;
      assert l in NameSet(r.lits, missing);
    }
  }

  lemma {:induction false} ListedOnce(lits: LitTable, a: seq<string>, b: seq<string>)
    requires InTableOrder(lits, a) && InTableOrder(lits, b) && forall l :: l in a <==> l in b
    ensures a == b
  {
    assert a != [] ==> a[0] in a;
    assert b != [] ==> b[0] in b;
    if a != [] {
      var i :| 0 <= i < |b| && b[i] == a[0];
      var j :| 0 <= j < |a| && a[j] == b[0];
      assert a[0] == b[0];
      forall l ensures l in a[1..] <==> l in b[1..] {
        assert l in a <==> l == a[0] || l in a[1..];
        assert l in b <==> l == b[0] || l in b[1..];
      }
      ListedOnce(lits, a[1..], b[1..]);
      assert a == [a[0]] + a[1..] && b == [b[0]] + b[1..];
    }
  }

  /** The row follows from the path sets and the index alone. */
  lemma VerdictDetermined(a: Row, b: Row, lits: LitTable, paths: seq<Mask>, idx: LiteralIndex)
    requires VerdictOf(a, lits, paths, idx) && VerdictOf(b, lits, paths, idx)
    ensures a == b
  {
    hide NameSet, InTableOrder, Gap, AndNot, IsZero;
    if paths != [] && !IsZero(paths[0]) {
      if a.bucket == Evidence {
        var i: nat, j: nat :| EvidenceAt(a, lits, paths, idx, i, j);
        FirstPathIs(paths, Bits(idx.files[i].mask), j);
        assert Covers(paths, Bits(idx.files[i].mask));
        var p: nat, q: nat :| EvidenceAt(b, lits, paths, idx, p, q);
        FirstPathIs(paths, Bits(idx.files[p].mask), q);
        assert Covers(paths, Bits(idx.files[p].mask));
        assert i == p && j == q;
        ListedOnce(lits, a.required, b.required);
      } else {
        var j: nat :| ClosestPath(a, lits, paths, idx, j);
        if b.bucket == Evidence {
          var p: nat, q: nat :| EvidenceAt(b, lits, paths, idx, p, q);
          FirstPathIs(paths, Bits(idx.files[p].mask), q);
          assert false;
        }
        var q: nat :| ClosestPath(b, lits, paths, idx, q);
        assert j == q;
        ListedOnce(lits, a.required, b.required);
        ListedOnce(lits, a.missing, b.missing);
      }
    }
  }

  /** What the verdict says about derivations, whatever the cap dropped: undecidable and literal-free
      are exact, and evidence names a real derivation and a file holding its literals. */
  lemma VerdictSound(r: Rules, k: Key, idx: LiteralIndex, row: Row)
    requires r.Valid() && TableCovers(r) && k in r.productions && idx.For(r.lits)
    requires VerdictOf(row, r.lits, PathsOf(r, {}, k), idx)
    ensures row.reason == Undecidable <==> !exists t :: DerivesKey(r, k, t)
    ensures row.reason == LiteralFree <==> DerivableFrom(r, k, {})
    ensures row.bucket == Indistinguishable <==> row.reason == Undecidable || row.reason == LiteralFree
    ensures row.bucket == Evidence ==> exists t, f | f in idx.files :: IsEvidence(r, k, row, t, f)
  {
    EmptyMeansUnderivable(r, k);
    ZeroMeansLiteralFree(r, k);
    DerivableByLiterals(r, k, {});
    assert r.lits.LitBits({}) == {};
    if row.bucket == Evidence {
      var i: nat, j: nat :| EvidenceAt(row, r.lits, PathsOf(r, {}, k), idx, i, j);
      EvidenceSound(r, k, idx, row, i, j);
    }
  }

  lemma EvidenceSound(r: Rules, k: Key, idx: LiteralIndex, row: Row, i: nat, j: nat)
    requires r.Valid() && TableCovers(r) && k in r.productions && idx.For(r.lits)
    requires EvidenceAt(row, r.lits, PathsOf(r, {}, k), idx, i, j)
    ensures exists t, f | f in idx.files :: IsEvidence(r, k, row, t, f)
  {
    var f, m := idx.files[i], PathsOf(r, {}, k)[j];
    var t := PathIsDerivation(r, k, m);
    BitsOfNames(r, k, m, t);
    BitsReflectLiterals(r.lits, KeyLiterals(r, k, t), f.has);
    assert IsEvidence(r, k, row, t, f);
  }

  /** When the cap drops nothing, a production has evidence exactly when it is not literal-free and
      some file has all the literals of some derivation. */
  lemma EvidenceExact(r: Rules, k: Key, idx: LiteralIndex, row: Row)
    requires r.Valid() && TableCovers(r) && k in r.productions && idx.For(r.lits) && FitsKey(r, {}, k)
    requires VerdictOf(row, r.lits, PathsOf(r, {}, k), idx)
    ensures row.bucket == Evidence <==>
      !DerivableFrom(r, k, {}) && exists f | f in idx.files :: DerivableFrom(r, k, f.has)
  {
    var paths := PathsOf(r, {}, k);
    ZeroMeansLiteralFree(r, k);
    DerivableByLiterals(r, k, {});
    assert r.lits.LitBits({}) == {};
    forall f | f in idx.files ensures DerivableFrom(r, k, f.has) <==> Covers(paths, Bits(f.mask)) {
      PathsExact(r, k, Bits(f.mask));
      DerivableByLiterals(r, k, f.has);
    }
    if row.bucket == Evidence {
      var i: nat, j: nat :| EvidenceAt(row, r.lits, paths, idx, i, j);
      FirstPathIs(paths, Bits(idx.files[i].mask), j);
      assert idx.files[i] in idx.files && Covers(paths, Bits(idx.files[i].mask));
    }
  }

  /** When the cap drops nothing, the evidence is the first file that admits a derivation, and the
      literals listed are those of a cheapest derivation it admits. */
  lemma EvidenceIsFirst(r: Rules, k: Key, idx: LiteralIndex, row: Row) returns (i: nat, t: Tree)
    requires r.Valid() && TableCovers(r) && k in r.productions && idx.For(r.lits) && FitsKey(r, {}, k)
    requires VerdictOf(row, r.lits, PathsOf(r, {}, k), idx) && row.bucket == Evidence
    ensures i < |idx.files| && IsEvidence(r, k, row, t, idx.files[i]) && InTableOrder(r.lits, row.required)
    ensures forall j | 0 <= j < i :: !DerivableFrom(r, k, idx.files[j].has)
    ensures forall o | DerivesKey(r, k, o) && KeyLiterals(r, k, o) <= idx.files[i].has :: |KeyLiterals(r, k, t)| <= |KeyLiterals(r, k, o)|
  {
    hide PathsOf, FitsKey, Derives, Literals;
    var paths := PathsOf(r, {}, k);
    var p: nat, j: nat :| EvidenceAt(row, r.lits, paths, idx, p, j);
    i := p;
    var f := idx.files[i];
    FirstPathIs(paths, Bits(f.mask), j);
    t := PathIsDerivation(r, k, paths[j]);
    BitsOfNames(r, k, paths[j], t);
    BitsReflectLiterals(r.lits, KeyLiterals(r, k, t), f.has);
    forall x | 0 <= x < i ensures !DerivableFrom(r, k, idx.files[x].has) {
      assert idx.files[x] in idx.files;
      PathsExact(r, k, Bits(idx.files[x].mask));
      DerivableByLiterals(r, k, idx.files[x].has);
    }
    forall o | DerivesKey(r, k, o) && KeyLiterals(r, k, o) <= f.has ensures |KeyLiterals(r, k, t)| <= |KeyLiterals(r, k, o)| {
      var x := PathFor(r, k, o);
      assert Bits(paths[x]) <= r.lits.LitBits(f.has);
      assert x >= j;
      CheaperFirst(r, k, j, x);
      PathSize(r, k, paths[j], t);
    }
  }

  /** The path a derivation covers, which needs no more literals. */
  lemma PathFor(r: Rules, k: Key, o: Tree) returns (x: nat)
    requires r.Valid() && TableCovers(r) && k in r.productions && FitsKey(r, {}, k) && DerivesKey(r, k, o)
    ensures var paths := PathsOf(r, {}, k);
      x < |paths| && Bits(paths[x]) <= KeyNeeds(r, k, o) && |Bits(paths[x])| <= |KeyLiterals(r, k, o)|
  {
    hide PathsOf, FitsKey, Derives, Literals;
    var paths := PathsOf(r, {}, k);
    var below := PathBelow(r, k, o);
    x :| 0 <= x < |paths| && paths[x] == below;
    var d := PathIsDerivation(r, k, below);
    PathSize(r, k, below, d);
    LiteralsKnown(r, k.grammar, r.Body(k), o);
    BitsOfNames(r, k, below, d);
    BitsReflectLiterals(r.lits, KeyLiterals(r, k, d), KeyLiterals(r, k, o));
    SubsetSize(KeyLiterals(r, k, d), KeyLiterals(r, k, o));
  }

  lemma PathSize(r: Rules, k: Key, m: Mask, t: Tree)
    requires r.Valid() && TableCovers(r) && k in r.productions && m in PathsOf(r, {}, k)
    requires DerivesKey(r, k, t) && KeyLiterals(r, k, t) == NameSet(r.lits, m)
    ensures |Bits(m)| == |KeyLiterals(r, k, t)|
  {
    hide PathsOf, Derives, Literals;
    assert r.lits.LitBits({}) == {};
    GapCounts(r, k, m, t, Empty(), {});
    assert Bits(m) - {} == Bits(m);
    assert KeyLiterals(r, k, t) - {} == KeyLiterals(r, k, t);
  }

  lemma CheaperFirst(r: Rules, k: Key, j: nat, x: nat)
    requires r.Valid() && k in r.productions && j <= x < |PathsOf(r, {}, k)|
    ensures |Bits(PathsOf(r, {}, k)[j])| <= |Bits(PathsOf(r, {}, k)[x])|
  {
    hide PathsOf, LessWords, Bits;
    PathsSorted(r, {}, k);
  }

  ghost predicate IsEvidence(r: Rules, k: Key, row: Row, t: Tree, f: FileIndex) {
    && DerivesKey(r, k, t) && KeyLiterals(r, k, t) <= f.has
    && (forall l :: l in row.required <==> l in KeyLiterals(r, k, t))
    && row.file == Some(f.path)
  }

  lemma BitsOfNames(r: Rules, k: Key, m: Mask, t: Tree)
    requires r.Valid() && TableCovers(r) && DerivesKey(r, k, t) && KeyLiterals(r, k, t) == NameSet(r.lits, m)
    ensures KeyNeeds(r, k, t) <= Bits(m)
    ensures KeyLiterals(r, k, t) <= r.lits.bit.Keys
  {
  }

  /** When the cap drops nothing, an unsupported production is reported with a derivation's literals,
      those of them missing from the corpus, and no derivation has fewer literals missing. */
  lemma NoEvidenceMeaning(r: Rules, k: Key, idx: LiteralIndex, row: Row)
    returns (t: Tree)
    requires r.Valid() && TableCovers(r) && k in r.productions && idx.For(r.lits)
    requires VerdictOf(row, r.lits, PathsOf(r, {}, k), idx) && row.bucket == NoEvidence
    ensures DerivesKey(r, k, t)
    ensures forall l :: l in row.required <==> l in KeyLiterals(r, k, t)
    ensures forall l :: l in row.missing <==> l in KeyLiterals(r, k, t) - Corpus(idx.files)
    ensures row.file == None && row.reason == if KeyLiterals(r, k, t) <= Corpus(idx.files) then NotTogether else Absent
    ensures InTableOrder(r.lits, row.required) && InTableOrder(r.lits, row.missing)
    ensures FitsKey(r, {}, k) ==> forall o | DerivesKey(r, k, o) ::
      |KeyLiterals(r, k, t) - Corpus(idx.files)| <= |KeyLiterals(r, k, o) - Corpus(idx.files)|
  {
    var paths, corpus := PathsOf(r, {}, k), Corpus(idx.files);
    var j: nat :| ClosestPath(row, r.lits, paths, idx, j);
    var m := paths[j];
    t := PathIsDerivation(r, k, m);
    MissingNames(r.lits, m, idx.mask, corpus);
    GapCounts(r, k, m, t, idx.mask, corpus);
    NoneMissing(row.missing, KeyLiterals(r, k, t) - corpus, KeyLiterals(r, k, t), corpus);
    if FitsKey(r, {}, k) {
      forall o | DerivesKey(r, k, o)
        ensures |KeyLiterals(r, k, t) - corpus| <= |KeyLiterals(r, k, o) - corpus|
      {
        var below := PathBelow(r, k, o);
        var d := PathIsDerivation(r, k, below);
        GapCounts(r, k, below, d, idx.mask, corpus);
        LiteralsKnown(r, k.grammar, r.Body(k), o);
        BitsOfNames(r, k, below, d);
        BitsReflectLiterals(r.lits, KeyLiterals(r, k, d), KeyLiterals(r, k, o));
        SubsetSize(KeyLiterals(r, k, d) - corpus, KeyLiterals(r, k, o) - corpus);
      }
    }
  }

  lemma NoneMissing(missing: seq<string>, lacks: set<string>, literals: set<string>, corpus: set<string>)
    requires (forall l :: l in missing <==> l in lacks) && lacks == literals - corpus
    ensures missing == [] <==> literals <= corpus
  {
    assert missing != [] ==> missing[0] in missing;
    if missing == [] {
      forall l | l in literals ensures l in corpus { assert l !in lacks; }
    }
  }

  /** When the cap drops nothing, the literals reported are, of all derivations with as few missing,
      those of a cheapest. */
  lemma ClosestIsCheapest(r: Rules, k: Key, idx: LiteralIndex, row: Row, o: Tree)
    requires r.Valid() && TableCovers(r) && k in r.productions && idx.For(r.lits) && FitsKey(r, {}, k)
    requires VerdictOf(row, r.lits, PathsOf(r, {}, k), idx) && row.bucket == NoEvidence && DerivesKey(r, k, o)
    ensures |KeyLiterals(r, k, o) - Corpus(idx.files)| <= |row.missing| ==> |row.required| <= |KeyLiterals(r, k, o)|
  {
    hide PathsOf, FitsKey, Derives, Literals;
    var paths, corpus := PathsOf(r, {}, k), Corpus(idx.files);
    var j: nat :| ClosestPath(row, r.lits, paths, idx, j);
    var t := PathIsDerivation(r, k, paths[j]);
    MissingNames(r.lits, paths[j], idx.mask, corpus);
    GapCounts(r, k, paths[j], t, idx.mask, corpus);
    PathSize(r, k, paths[j], t);
    ListSize(r.lits, row.required, KeyLiterals(r, k, t));
    ListSize(r.lits, row.missing, KeyLiterals(r, k, t) - corpus);
    var x := PathFor(r, k, o);
    var d := PathIsDerivation(r, k, paths[x]);
    GapCounts(r, k, paths[x], d, idx.mask, corpus);
    LiteralsKnown(r, k.grammar, r.Body(k), o);
    BitsOfNames(r, k, paths[x], d);
    BitsReflectLiterals(r.lits, KeyLiterals(r, k, d), KeyLiterals(r, k, o));
    SubsetSize(KeyLiterals(r, k, d) - corpus, KeyLiterals(r, k, o) - corpus);
    if |KeyLiterals(r, k, o) - corpus| <= |row.missing| {
      assert x >= j;
      CheaperFirst(r, k, j, x);
    }
  }

  /** A list in table order names each literal once. */
  lemma {:induction false} ListSize(lits: LitTable, out: seq<string>, s: set<string>)
    requires InTableOrder(lits, out) && forall l :: l in out <==> l in s
    ensures |out| == |s|
  {
    if out == [] {
      assert s == {};
    } else {
      var n := |out| - 1;
      assert out[n] in s;
      forall l ensures l in out[..n] <==> l in s - {out[n]} {
        assert l in out <==> l in out[..n] || l == out[n];
      }
      ListSize(lits, out[..n], s - {out[n]});
    }
  }

  lemma MissingNames(lits: LitTable, m: Mask, corpusMask: Mask, corpus: set<string>)
    requires lits.Valid() && Bits(corpusMask) == lits.LitBits(corpus)
    ensures NameSet(lits, AndNot(m, corpusMask)) == NameSet(lits, m) - corpus
  {
    forall l | l in lits.bit ensures lits.bit[l] in lits.LitBits(corpus) <==> l in corpus {
      BitsReflectLiterals(lits, {l}, corpus);
      assert lits.LitBits({l}) == {lits.bit[l]};
    }
  }

  /** The size of a gap is the number of literals missing. */
  lemma GapCounts(r: Rules, k: Key, m: Mask, t: Tree, corpusMask: Mask, corpus: set<string>)
    requires r.Valid() && TableCovers(r) && k in r.productions && m in PathsOf(r, {}, k)
    requires DerivesKey(r, k, t) && KeyLiterals(r, k, t) == NameSet(r.lits, m)
    requires Bits(corpusMask) == r.lits.LitBits(corpus)
    ensures Gap(m, corpusMask) == |KeyLiterals(r, k, t) - corpus|
  {
    MissingNames(r.lits, m, corpusMask, corpus);
    var gap := AndNot(m, corpusMask);
    var d := KeySound(r, {}, k, m);
    forall b | b in Bits(gap) ensures exists l :: l in r.lits.bit && r.lits.bit[l] == b {
      assert b in KeyNeeds(r, k, d);
    }
    NamedSize(r.lits, Bits(gap));
    assert NameSet(r.lits, gap) == set l | l in r.lits.bit && r.lits.bit[l] in Bits(gap);
  }

  /** As many literals as bits. */
  lemma {:induction false} NamedSize(lits: LitTable, bits: set<nat>)
    requires lits.Valid() && forall b | b in bits :: exists l :: l in lits.bit && lits.bit[l] == b
    ensures |set l | l in lits.bit && lits.bit[l] in bits| == |bits|
  {
    if b :| b in bits {
      var l :| l in lits.bit && lits.bit[l] == b;
      NamedSize(lits, bits - {b});
      var rest := set o | o in lits.bit && lits.bit[o] in bits - {b};
      forall o | o in lits.bit && lits.bit[o] == b ensures o == l {
        assert lits.order[lits.bit[o]] == o && lits.order[lits.bit[l]] == l;
      }
      assert (set o | o in lits.bit && lits.bit[o] in bits) == rest + {l};
    } else {
      assert (set o | o in lits.bit && lits.bit[o] in bits) == {};
    }
  }

  lemma SubsetSize(a: set<string>, b: set<string>)
    requires a <= b
    ensures |a| <= |b|
  {
    assert b == a + (b - a);
  }

  /** When the cap drops nothing, every derivation's literals contain a path set. */
  lemma PathBelow(r: Rules, k: Key, t: Tree) returns (m: Mask)
    requires r.Valid() && DerivesKey(r, k, t) && FitsKey(r, {}, k)
    ensures m in PathsOf(r, {}, k) && Bits(m) <= KeyNeeds(r, k, t)
  {
    assert Derivable(r, k, KeyNeeds(r, k, t));
    PathsExact(r, k, KeyNeeds(r, k, t));
    m :| m in PathsOf(r, {}, k) && Bits(m) <= KeyNeeds(r, k, t);
  }

  lemma NeededLiteral(r: Rules, k: Key, t: Tree, l: string)
    requires r.Valid() && l in r.lits.bit && DerivesKey(r, k, t)
    requires r.lits.bit[l] in KeyNeeds(r, k, t)
    ensures l in KeyLiterals(r, k, t)
  {
    var o :| o in KeyLiterals(r, k, t) && o in r.lits.bit && r.lits.bit[o] == r.lits.bit[l];
    assert r.lits.order[r.lits.bit[o]] == o && r.lits.order[r.lits.bit[l]] == l;
  }

  /** The literals every path set shares are the ones every derivation needs (the core passed to
      branches), when the cap drops nothing. */
  lemma CoreIsCommon(r: Rules, k: Key, core: Mask, l: string)
    requires r.Valid() && TableCovers(r) && k in r.productions && FitsKey(r, {}, k)
    requires PathsOf(r, {}, k) != [] && l in r.lits.bit
    requires forall b :: b in Bits(core) <==> forall m | m in PathsOf(r, {}, k) :: b in Bits(m)
    ensures r.lits.bit[l] in Bits(core) <==> forall t | DerivesKey(r, k, t) :: l in KeyLiterals(r, k, t)
  {
    var b := r.lits.bit[l];
    if b in Bits(core) {
      forall t | DerivesKey(r, k, t) ensures l in KeyLiterals(r, k, t) {
        var m := PathBelow(r, k, t);
        NeededLiteral(r, k, t, l);
      }
    } else {
      var m :| m in PathsOf(r, {}, k) && b !in Bits(m);
      var t := PathIsDerivation(r, k, m);
      assert l !in KeyLiterals(r, k, t);
    }
  }
}
