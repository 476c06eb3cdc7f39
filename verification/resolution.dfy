/** Building the literal table and the rule index (newLitTable and newAnalyzer in
    cmd/grammar-coverage/classify.go). */
module Resolution {
  import opened Masks
  import opened Grammar

  /** One parsed grammar file: its base name, the name it declares and the one it extends. */
  datatype GrammarFile = GrammarFile(name: string, declared: string, extends_: string, productions: seq<Production>)

  // ----- The literal table -----

  /** newLitTable on literals already sorted and without duplicates; too many are refused. */
  method NewLitTable(order: seq<string>) returns (t: Option<LitTable>)
    requires forall i, j | 0 <= i < j < |order| :: order[i] != order[j]
    ensures t.None? <==> |order| > 1024
    ensures t.Some? ==> t.value.Valid() && t.value.order == order
    ensures t.Some? ==> forall l :: l in t.value.bit <==> l in order
  {
    if |order| > MASK_BITS {
      return None;
    }
    var bit: map<string, nat> := map[];
    for i := 0 to |order|
      invariant forall j | 0 <= j < i :: order[j] in bit && bit[order[j]] == j
      invariant forall l | l in bit :: bit[l] < i && order[bit[l]] == l
    {
      bit := bit[order[i] := i];
    }
    t := Some(LitTable(order, bit));
  }

  // ----- Inheritance -----

  /** Grammar files are told apart by name, and so are the productions of one file, which name it. */
  ghost predicate ProperFiles(files: seq<GrammarFile>) {
    && (forall i, j | 0 <= i < j < |files| :: files[i].name != files[j].name)
    && (forall i | 0 <= i < |files| :: ProperProductions(files[i]))
  }

  ghost predicate ProperProductions(file: GrammarFile) {
    && (forall i | 0 <= i < |file.productions| :: file.productions[i].grammar == file.name)
    && (forall i, j | 0 <= i < j < |file.productions| :: file.productions[i].name != file.productions[j].name)
  }

  /** The last file declaring each name, as assignments into a map leave it. */
  function ByDeclared(files: seq<GrammarFile>): map<string, GrammarFile> {
    if files == [] then map[]
    else ByDeclared(files[..|files| - 1])[files[|files| - 1].declared := files[|files| - 1]]
  }

  function Names(files: set<GrammarFile>): set<string> {
    set f | f in files :: f.name
  }

  /** The grammars inherited from `extended` on, nearest first, until the chain ends or returns to a
      name in `seen`. */
  function Ancestors(byDeclared: map<string, GrammarFile>, extended: string, seen: set<string>): seq<string>
    decreases Names(byDeclared.Values) - seen
  {
    if extended !in byDeclared || byDeclared[extended].name in seen then []
    else
      var at := byDeclared[extended];
      assert at in byDeclared.Values && at.name in Names(byDeclared.Values);
      [at.name] + Ancestors(byDeclared, at.extends_, seen + {at.name})
  }

  /** A chain names no grammar twice and none already seen, each entry is what its predecessor extends,
      and it ends only where nothing further is declared or the chain would repeat. */
  lemma {:induction false} AncestorsMeaning(byDeclared: map<string, GrammarFile>, extended: string, seen: set<string>)
    ensures var chain := Ancestors(byDeclared, extended, seen);
      && (forall i | 0 <= i < |chain| :: chain[i] !in seen)
      && (forall i, j | 0 <= i < j < |chain| :: chain[i] != chain[j])
      && Extends(byDeclared, extended, chain, seen)
    decreases Names(byDeclared.Values) - seen
  {
    if extended in byDeclared && byDeclared[extended].name !in seen {
      var at := byDeclared[extended];
      assert at in byDeclared.Values && at.name in Names(byDeclared.Values);
      AncestorsMeaning(byDeclared, at.extends_, seen + {at.name});
      var rest := Ancestors(byDeclared, at.extends_, seen + {at.name});
      assert ([at.name] + rest)[1..] == rest;
    }
  }

  ghost predicate Extends(byDeclared: map<string, GrammarFile>, extended: string, chain: seq<string>, seen: set<string>)
    decreases |chain|
  {
    if chain == [] then extended !in byDeclared || byDeclared[extended].name in seen
    else
      && extended in byDeclared && byDeclared[extended].name == chain[0]
      && Extends(byDeclared, byDeclared[extended].extends_, chain[1..], seen + {chain[0]})
  }

  // ----- Inheritance, read off the files -----

  /** The i-th file is the last to declare the name. */
  ghost predicate LastDeclares(files: seq<GrammarFile>, name: string, i: nat) {
    i < |files| && files[i].declared == name && forall j | i < j < |files| :: files[j].declared != name
  }

  /** The chain of a grammar that extends a name: the last file that declares the name, then the chain
      of what that file extends. It ends only where no file declares the name or where the grammar
      found was met before. */
  ghost predicate Inherits(files: seq<GrammarFile>, extended: string, chain: seq<string>, met: set<string>)
    decreases |chain|
  {
    if chain == [] then forall i: nat | LastDeclares(files, extended, i) :: files[i].name in met
    else exists i: nat :: LastDeclares(files, extended, i) && InheritsFrom(files, i, chain, met)
  }

  ghost predicate InheritsFrom(files: seq<GrammarFile>, i: nat, chain: seq<string>, met: set<string>)
    requires i < |files| && chain != []
    decreases |chain|, 0
  {
    && files[i].name == chain[0] && chain[0] !in met
    && Inherits(files, files[i].extends_, chain[1..], met + {chain[0]})
  }

  ghost predicate ChainOfFile(files: seq<GrammarFile>, f: GrammarFile, chain: seq<string>) {
    Inherits(files, f.extends_, chain, {f.name})
  }

  /** The rules hold exactly the files' productions, and each file's chain. */
  ghost predicate Indexes(r: Rules, files: seq<GrammarFile>) {
    && (forall f, p | f in files && p in f.productions :: KeyOf(p) in r.productions && r.productions[KeyOf(p)] == p)
    && (forall k | k in r.productions :: exists f, p | f in files && p in f.productions :: k == KeyOf(p))
    && (forall f | f in files :: f.name in r.chain && ChainOfFile(files, f, r.chain[f.name]))
  }

  /** At most one chain meets the description. */
  lemma {:induction false} InheritsOnce(files: seq<GrammarFile>, extended: string, a: seq<string>, b: seq<string>, met: set<string>)
    requires Inherits(files, extended, a, met) && Inherits(files, extended, b, met)
    ensures a == b
    decreases |a|
  {
    if a != [] && b != [] {
      var i: nat :| LastDeclares(files, extended, i) && InheritsFrom(files, i, a, met);
      var j: nat :| LastDeclares(files, extended, j) && InheritsFrom(files, j, b, met);
      assert i == j;
      InheritsOnce(files, files[i].extends_, a[1..], b[1..], met + {a[0]});
      assert a == [a[0]] + a[1..] && b == [b[0]] + b[1..];
    }
  }

  /** What the map built from the files holds. */
  lemma {:induction false} ByDeclaredIsLast(files: seq<GrammarFile>, name: string)
    ensures forall i: nat | LastDeclares(files, name, i) :: name in ByDeclared(files) && ByDeclared(files)[name] == files[i]
    ensures name in ByDeclared(files) ==> exists i: nat :: LastDeclares(files, name, i)
  {
    if files != [] {
      var n := |files| - 1;
      ByDeclaredIsLast(files[..n], name);
      forall i: nat { LastNext(files, name, i); }
      hide LastDeclares;
      assert files[n].declared == name ==> LastDeclares(files, name, n);
    }
  }

  lemma LastNext(files: seq<GrammarFile>, name: string, i: nat)
    requires files != []
    ensures var n := |files| - 1;
      LastDeclares(files, name, i) <==>
        if files[n].declared == name then i == n else LastDeclares(files[..n], name, i) && files[i] == files[..n][i]
  {
  }

  lemma {:induction false} AncestorsInherit(files: seq<GrammarFile>, extended: string, met: set<string>)
    ensures Inherits(files, extended, Ancestors(ByDeclared(files), extended, met), met)
    decreases Names(ByDeclared(files).Values) - met
  {
    hide LastDeclares, ByDeclared;
    var byDeclared := ByDeclared(files);
    ByDeclaredIsLast(files, extended);
    if extended in byDeclared && byDeclared[extended].name !in met {
      var at := byDeclared[extended];
      assert at in byDeclared.Values && at.name in Names(byDeclared.Values);
      var i: nat :| LastDeclares(files, extended, i);
      AncestorsInherit(files, at.extends_, met + {at.name});
      var rest := Ancestors(byDeclared, at.extends_, met + {at.name});
      assert ([at.name] + rest)[1..] == rest;
      assert i < |files| by { LastInside(files, extended, i); }
      assert InheritsFrom(files, i, [at.name] + rest, met);
    }
  }

  lemma LastInside(files: seq<GrammarFile>, name: string, i: nat)
    requires LastDeclares(files, name, i)
    ensures i < |files|
  {
  }

  /** newAnalyzer's index. */
  method NewRules(files: seq<GrammarFile>, lits: LitTable) returns (r: Rules)
    requires ProperFiles(files) && lits.Valid()
    ensures r.Valid() && r.lits == lits && Indexes(r, files)
  {
    var byDeclared: map<string, GrammarFile> := map[];
    for i := 0 to |files|
      invariant byDeclared == ByDeclared(files[..i])
    {
      assert files[..i + 1][..i] == files[..i];
      byDeclared := byDeclared[files[i].declared := files[i]];
    }
    assert files[..|files|] == files;
    var productions := IndexProductions(files);
    var chains: map<string, seq<string>> := map[];
    for i := 0 to |files|
      invariant forall j | 0 <= j < i :: files[j].name in chains && ChainOfFile(files, files[j], chains[files[j].name])
    {
      hide ByDeclared, Ancestors, Inherits, ProperProductions;
      var chain := ChainOf(byDeclared, files[i]);
      AncestorsInherit(files, files[i].extends_, {files[i].name});
      chains := chains[files[i].name := chain];
    }
    r := Rules(productions, chains, lits);
    IndexedAll(productions, files);
  }

  method IndexProductions(files: seq<GrammarFile>) returns (productions: map<Key, Production>)
    requires ProperFiles(files)
    ensures Indexed(productions, files, |files|, 0)
  {
    productions := map[];
    for i := 0 to |files|
      invariant Indexed(productions, files, i, 0)
    {
      var g := files[i];
      for j := 0 to |g.productions|
        invariant Indexed(productions, files, i, j)
      {
        IndexStep(productions, files, i, j);
        productions := productions[KeyOf(g.productions[j]) := g.productions[j]];
      }
      assert forall a: nat, b: nat :: Listed(files, i, |g.productions|, a, b) <==> Listed(files, i + 1, 0, a, b);
    }
  }

  lemma IndexStep(productions: map<Key, Production>, files: seq<GrammarFile>, i: nat, j: nat)
    requires ProperFiles(files) && Listed(files, i + 1, 0, i, j) && Indexed(productions, files, i, j)
    ensures var p := files[i].productions[j]; Indexed(productions[KeyOf(p) := p], files, i, j + 1)
  {
    var p := files[i].productions[j];
    assert Listed(files, i, j + 1, i, j);
    forall a: nat, b: nat | Listed(files, i, j, a, b)
      ensures Listed(files, i, j + 1, a, b) && KeyOf(files[a].productions[b]) != KeyOf(p)
    {
      assert ProperProductions(files[a]) && ProperProductions(files[i]);
    }
  }

  /** The walk up a grammar's `with` declarations. */
  method ChainOf(byDeclared: map<string, GrammarFile>, g: GrammarFile) returns (chain: seq<string>)
    ensures chain == Ancestors(byDeclared, g.extends_, {g.name})
  {
    chain := [];
    var seen := {g.name};
    var at := g.extends_;
    while at in byDeclared && byDeclared[at].name !in seen
      invariant chain + Ancestors(byDeclared, at, seen) == Ancestors(byDeclared, g.extends_, {g.name})
      decreases Names(byDeclared.Values) - seen
    {
      var file := byDeclared[at];
      assert file in byDeclared.Values && file.name in Names(byDeclared.Values);
      ghost var rest := Ancestors(byDeclared, file.extends_, seen + {file.name});
      assert chain + ([file.name] + rest) == chain + [file.name] + rest;
      seen := seen + {file.name};
      chain := chain + [file.name];
      at := file.extends_;
    }
  }

  /** The map holds exactly the productions of the first i files and the first n of the next. */
  ghost predicate Indexed(productions: map<Key, Production>, files: seq<GrammarFile>, i: nat, n: nat) {
    && (forall k | k in productions :: KeyOf(productions[k]) == k && IsListed(files, i, n, productions[k]))
    && (forall a: nat, b: nat | Listed(files, i, n, a, b) ::
          var p := files[a].productions[b]; KeyOf(p) in productions && productions[KeyOf(p)] == p)
  }

  ghost predicate IsListed(files: seq<GrammarFile>, i: nat, n: nat, p: Production) {
    exists a: nat, b: nat :: Listed(files, i, n, a, b) && p == files[a].productions[b]
  }

  predicate Listed(files: seq<GrammarFile>, i: nat, n: nat, a: nat, b: nat) {
    a < |files| && b < |files[a].productions| && (a < i || (a == i && b < n))
  }

  lemma IndexedAll(productions: map<Key, Production>, files: seq<GrammarFile>)
    requires Indexed(productions, files, |files|, 0)
    ensures forall f, p | f in files && p in f.productions :: KeyOf(p) in productions && productions[KeyOf(p)] == p
    ensures forall k | k in productions :: exists f, p | f in files && p in f.productions :: k == KeyOf(p)
  {
    forall f, p | f in files && p in f.productions ensures KeyOf(p) in productions && productions[KeyOf(p)] == p {
      var a: nat :| a < |files| && files[a] == f;
      var b: nat :| b < |f.productions| && f.productions[b] == p;
      assert Listed(files, |files|, 0, a, b);
    }
    forall k | k in productions ensures exists f, p | f in files && p in f.productions :: k == KeyOf(p) {
      assert IsListed(files, |files|, 0, productions[k]);
      var a: nat, b: nat :| Listed(files, |files|, 0, a, b) && productions[k] == files[a].productions[b];
      assert files[a] in files && files[a].productions[b] in files[a].productions;
    }
  }

  /** The file of that name has a rule of that name. */
  ghost predicate HasRule(files: seq<GrammarFile>, grammar: string, name: string) {
    exists f, p | f in files && p in f.productions :: f.name == grammar && p.name == name
  }

  /** The i-th grammar of a chain is the first to have the rule. */
  ghost predicate NearestAt(r: Rules, grammars: seq<string>, name: string, i: nat) {
    && i < |grammars| && Key(grammars[i], name) in r.productions
    && (forall j | 0 <= j < i :: Key(grammars[j], name) !in r.productions)
  }

  /** An inherited rule is the nearest one on the chain. */
  lemma {:induction false} NearestInherited(r: Rules, grammars: seq<string>, name: string)
    ensures r.Inherited(grammars, name).None? ==> forall g | g in grammars :: Key(g, name) !in r.productions
    ensures r.Inherited(grammars, name).Some? ==>
      exists i: nat :: NearestAt(r, grammars, name, i) && r.Inherited(grammars, name).value == Key(grammars[i], name)
  {
    if grammars != [] {
      var rest := grammars[1..];
      if Key(grammars[0], name) in r.productions {
        assert NearestAt(r, grammars, name, 0);
      } else {
        NearestInherited(r, rest, name);
        if r.Inherited(rest, name).Some? {
          var i: nat :| NearestAt(r, rest, name, i) && r.Inherited(rest, name).value == Key(rest[i], name);
          forall j | 0 <= j < i + 1 ensures Key(grammars[j], name) !in r.productions {
            if j > 0 { assert grammars[j] == rest[j - 1]; }
          }
          assert NearestAt(r, grammars, name, i + 1);
        }
      }
    }
  }

  lemma IndexedRule(r: Rules, files: seq<GrammarFile>, grammar: string, name: string)
    requires ProperFiles(files) && Indexes(r, files)
    ensures Key(grammar, name) in r.productions <==> HasRule(files, grammar, name)
  {
    forall f, p | f in files && p in f.productions ensures p.grammar == f.name {
      GrammarOf(files, f, p);
    }
    if HasRule(files, grammar, name) {
      var f, p :| f in files && p in f.productions && f.name == grammar && p.name == name;
      assert KeyOf(p) == Key(grammar, name);
    }
    if Key(grammar, name) in r.productions {
      var f, p :| f in files && p in f.productions && Key(grammar, name) == KeyOf(p);
    }
  }

  lemma GrammarOf(files: seq<GrammarFile>, f: GrammarFile, p: Production)
    requires ProperFiles(files) && f in files && p in f.productions
    ensures p.grammar == f.name
  {
    var i: nat :| i < |files| && files[i] == f;
    var j: nat :| j < |f.productions| && f.productions[j] == p;
  }

  /** The i-th grammar of a chain is the first whose file has the rule. */
  ghost predicate FirstWithRule(files: seq<GrammarFile>, chain: seq<string>, name: string, i: nat) {
    i < |chain| && HasRule(files, chain[i], name) && forall j | 0 <= j < i :: !HasRule(files, chain[j], name)
  }

  /** In the rules made of some files, a name referred to in one of them is its own rule of that name
      if it has one, whatever it inherits; otherwise the rule of the nearest grammar up its chain of
      `with` declarations that has one; otherwise nothing. */
  lemma LookupMeaning(r: Rules, files: seq<GrammarFile>, f: GrammarFile, name: string)
    requires ProperFiles(files) && Indexes(r, files) && f in files
    ensures f.name in r.chain && ChainOfFile(files, f, r.chain[f.name])
    ensures var found, chain := r.Lookup(f.name, name), r.chain[f.name];
      && (HasRule(files, f.name, name) ==> found == Some(Key(f.name, name)))
      && (!HasRule(files, f.name, name) ==>
            match found
            case Some(k) => exists i: nat :: FirstWithRule(files, chain, name, i) && k == Key(chain[i], name)
            case None => forall g | g in chain :: !HasRule(files, g, name))
  {
    hide HasRule, ChainOfFile, ProperFiles;
    var chain := r.chain[f.name];
    hide Indexes;
    forall g ensures Key(g, name) in r.productions <==> HasRule(files, g, name) {
      IndexedRule(r, files, g, name);
    }
    NearestInherited(r, chain, name);
    if r.Inherited(chain, name).Some? {
      var i: nat :| NearestAt(r, chain, name, i) && r.Inherited(chain, name).value == Key(chain[i], name);
      assert FirstWithRule(files, chain, name, i);
    }
  }

  /** The text the analyzer keys its memo table by. */
  function KeyText(k: Key): string {
    k.grammar + "::" + k.name
  }

  /** Production names are identifiers, so the text tells keys apart. */
  lemma KeyTextInjective(a: Key, b: Key)
    requires ':' !in a.name && ':' !in b.name && KeyText(a) == KeyText(b)
    ensures a == b
  {
    var s := KeyText(a);
    if |a.name| == |b.name| {
      assert a.grammar == s[..|a.grammar|] && b.grammar == s[..|b.grammar|];
      assert a.name == s[|a.grammar| + 2..] && b.name == s[|b.grammar| + 2..];
    } else if |a.name| < |b.name| {
      LastColon(a, b);
    } else {
      LastColon(b, a);
    }
  }

  /** A longer name would reach back over the other key's separator. */
  lemma LastColon(a: Key, b: Key)
    requires |a.name| < |b.name| && KeyText(a) == KeyText(b)
    ensures ':' in b.name
  {
    var at := |a.grammar| + 1;
    assert KeyText(a)[at] == ':';
    assert KeyText(b)[at] == b.name[at - |b.grammar| - 2];
  }
}
