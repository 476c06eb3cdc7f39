/** Rewriting a text by a list of edits (applyEdits in internal/repl/merge.go). */
module TextEdits {

  /** Replaces src[start:end] with text; an own edit's place in the result is reported. */
  datatype Edit = Edit(start: nat, end: nat, text: string, own: bool)

  datatype Span = Span(offset: nat, len: nat)

  function Max(a: nat, b: nat): nat { if a < b then b else a }

  // ----- Sorting by start, stably -----

  ghost predicate SortedByStart(es: seq<Edit>) {
    forall i, j | 0 <= i < j < |es| :: es[i].start <= es[j].start
  }

  function InsertByStart(e: Edit, es: seq<Edit>): seq<Edit> {
    if es == [] || e.start <= es[0].start then [e] + es else [es[0]] + InsertByStart(e, es[1..])
  }

  /** sort.SliceStable by start. */
  function SortByStart(es: seq<Edit>): seq<Edit> {
    if es == [] then [] else InsertByStart(es[0], SortByStart(es[1..]))
  }

  /** The edits at one start, in list order. */
  function StartingAt(es: seq<Edit>, start: nat): seq<Edit> {
    if es == [] then [] else (if es[0].start == start then [es[0]] else []) + StartingAt(es[1..], start)
  }

  lemma {:induction false} InsertSorts(e: Edit, es: seq<Edit>)
    requires SortedByStart(es)
    ensures SortedByStart(InsertByStart(e, es)) && multiset(InsertByStart(e, es)) == multiset(es) + multiset{e}
  {
    if es != [] && e.start > es[0].start {
      assert InsertByStart(e, es) == [es[0]] + InsertByStart(e, es[1..]);
      hide InsertByStart;
      InsertSorts(e, es[1..]);
      InsertBehind(e, es, InsertByStart(e, es[1..]));
    }
  }

  lemma InsertBehind(e: Edit, es: seq<Edit>, rest: seq<Edit>)
    requires SortedByStart(es) && es != [] && e.start > es[0].start
    requires SortedByStart(rest) && multiset(rest) == multiset(es[1..]) + multiset{e}
    ensures SortedByStart([es[0]] + rest) && multiset([es[0]] + rest) == multiset(es) + multiset{e}
  {
    assert es == [es[0]] + es[1..];
    forall x | x in rest ensures es[0].start <= x.start {
      assert x in multiset(rest);
      assert x == e || x in es[1..];
    }
  }

  lemma {:induction false} InsertIsStable(e: Edit, es: seq<Edit>, start: nat)
    requires SortedByStart(es)
    ensures StartingAt(InsertByStart(e, es), start) == (if e.start == start then [e] else []) + StartingAt(es, start)
  {
    hide InsertByStart, StartingAt;
    if es == [] || e.start <= es[0].start {
      InsertHere(e, es);
      StartingAtFirst(e, es, start);
    } else {
      var rest := es[1..];
      InsertIsStable(e, rest, start);
      InsertLater(e, es);
      assert es == [es[0]] + rest;
      StartingAtFirst(es[0], rest, start);
      StartingAtFirst(es[0], InsertByStart(e, rest), start);
      if e.start == start { NoneStartingAt(es, start); }
    }
  }

  lemma InsertHere(e: Edit, es: seq<Edit>)
    requires es == [] || e.start <= es[0].start
    ensures InsertByStart(e, es) == [e] + es
  {
  }

  lemma InsertLater(e: Edit, es: seq<Edit>)
    requires es != [] && es[0].start < e.start
    ensures InsertByStart(e, es) == [es[0]] + InsertByStart(e, es[1..])
  {
  }

  lemma StartingAtFirst(e: Edit, rest: seq<Edit>, start: nat)
    ensures StartingAt([e] + rest, start) == (if e.start == start then [e] else []) + StartingAt(rest, start)
  {
    assert ([e] + rest)[1..] == rest;
  }

  lemma {:induction false} NoneStartingAt(es: seq<Edit>, start: nat)
    requires SortedByStart(es) && es != [] && es[0].start < start
    ensures StartingAt(es, start) == StartingAt(es[1..], start)
  {
  }

  /** The sort orders by start, loses nothing and keeps edits at one start in their order. */
  lemma {:induction false} SortIsStable(es: seq<Edit>, start: nat)
    ensures var r := SortByStart(es);
      && SortedByStart(r) && multiset(r) == multiset(es)
      && StartingAt(r, start) == StartingAt(es, start)
  {
    if es != [] {
      SortIsStable(es[1..], start);
      InsertSorts(es[0], SortByStart(es[1..]));
      InsertIsStable(es[0], SortByStart(es[1..]), start);
      assert es == [es[0]] + es[1..];
    }
  }

  /** A sorted list is left as it is. */
  lemma {:induction false} SortSorted(es: seq<Edit>)
    requires SortedByStart(es)
    ensures SortByStart(es) == es
  {
    if es != [] {
      SortSorted(es[1..]);
      assert es == [es[0]] + es[1..];
    }
  }

  // ----- The rewriting loop -----

  predicate Skipped(src: string, e: Edit, pos: nat) {
    e.end > |src| || (e.start < pos && e.start != e.end)
  }

  /** The text from source position pos on, under sorted edits. */
  function Rewrite(src: string, es: seq<Edit>, pos: nat): string
    requires pos <= |src|
    decreases |es|
  {
    if es == [] then src[pos..]
    else
      var e := es[0];
      if Skipped(src, e, pos) || e.start > |src| then Rewrite(src, es[1..], pos)
      else
        var at := Max(pos, e.start);
        src[pos..at] + e.text + Rewrite(src, es[1..], Max(at, e.end))
  }

  /** Where the own edits' texts land, when `written` characters precede. */
  function OwnSpans(src: string, es: seq<Edit>, pos: nat, written: nat): seq<Span>
    requires pos <= |src|
    decreases |es|
  {
    if es == [] then []
    else
      var e := es[0];
      if Skipped(src, e, pos) || e.start > |src| then OwnSpans(src, es[1..], pos, written)
      else
        var at := Max(pos, e.start);
        var before := written + (at - pos);
        (if e.own then [Span(before, |e.text|)] else []) +
          OwnSpans(src, es[1..], Max(at, e.end), before + |e.text|)
  }

  /** applyEdits. Every edit starts no later than it ends. */
  method ApplyEdits(src: string, edits: seq<Edit>) returns (out: string, added: seq<Span>)
    requires forall e | e in edits :: e.start <= e.end
    ensures out == Rewrite(src, SortByStart(edits), 0)
    ensures added == OwnSpans(src, SortByStart(edits), 0, 0)
  {
    hide Remaining, SortByStart, Rewrite, OwnSpans;
    var sorted := SortByStart(edits);
    SortedEnds(edits);
    out, added := "", [];
    var pos: nat := 0;
    RemainingAll(src, sorted);
    for i := 0 to |sorted|
      invariant pos <= |src| && Remaining(src, sorted, i, pos, out, added)
    {
      var e := sorted[i];
      RewriteStep(src, sorted, i, pos, out, added);
      if e.end > |src| || (e.start < pos && e.start != e.end) {
        continue;
      }
      if e.start > pos {
        out := out + src[pos..e.start];
        pos := e.start;
      }
      if e.own {
        added := added + [Span(|out|, |e.text|)];
      }
      out := out + e.text;
      if e.end > pos {
        pos := e.end;
      }
    }
    RemainingNone(src, sorted, pos, out, added);
    out := out + src[pos..];
  }

  lemma SortedEnds(edits: seq<Edit>)
    requires forall e | e in edits :: e.start <= e.end
    ensures forall e | e in SortByStart(edits) :: e.start <= e.end
  {
    SortIsStable(edits, 0);
    forall e | e in SortByStart(edits) ensures e.start <= e.end {
      assert e in multiset(SortByStart(edits)) && e in multiset(edits);
    }
  }

  lemma RemainingAll(src: string, es: seq<Edit>)
    ensures Remaining(src, es, 0, 0, "", [])
  {
    assert es[0..] == es;
  }

  lemma RemainingNone(src: string, es: seq<Edit>, pos: nat, out: string, added: seq<Span>)
    requires pos <= |src| && Remaining(src, es, |es|, pos, out, added)
    ensures out + src[pos..] == Rewrite(src, es, 0) && added == OwnSpans(src, es, 0, 0)
  {
    assert added + [] == added;
  }

  /** The result and the spans so far, completed by what remains to be done. */
  ghost predicate Remaining(src: string, es: seq<Edit>, i: nat, pos: nat, out: string, added: seq<Span>) {
    && i <= |es| && pos <= |src|
    && out + Rewrite(src, es[i..], pos) == Rewrite(src, es, 0)
    && added + OwnSpans(src, es[i..], pos, |out|) == OwnSpans(src, es, 0, 0)
  }

  lemma OneEdit(src: string, es: seq<Edit>, pos: nat, written: nat)
    requires es != [] && es[0].start <= es[0].end && pos <= |src|
    ensures var e := es[0];
      if Skipped(src, e, pos) then
        Rewrite(src, es, pos) == Rewrite(src, es[1..], pos) && OwnSpans(src, es, pos, written) == OwnSpans(src, es[1..], pos, written)
      else
        var at := Max(pos, e.start);
        && Rewrite(src, es, pos) == src[pos..at] + e.text + Rewrite(src, es[1..], Max(at, e.end))
        && OwnSpans(src, es, pos, written) == (if e.own then [Span(written + (at - pos), |e.text|)] else []) +
             OwnSpans(src, es[1..], Max(at, e.end), written + (at - pos) + |e.text|)
  {
  }

  lemma RewriteStep(src: string, es: seq<Edit>, i: nat, pos: nat, out: string, added: seq<Span>)
    requires i < |es| && es[i].start <= es[i].end && Remaining(src, es, i, pos, out, added)
    ensures var e := es[i];
      if Skipped(src, e, pos) then Remaining(src, es, i + 1, pos, out, added)
      else
        var at := Max(pos, e.start);
        var next := out + src[pos..at];
        && Remaining(src, es, i + 1, Max(at, e.end), next + e.text, if e.own then added + [Span(|next|, |e.text|)] else added)
        && (pos == at ==> next == out)
  {
    hide Rewrite, OwnSpans;
    assert es[i..][1..] == es[i + 1..];
    var e, rest := es[i], es[i + 1..];
    OneEdit(src, es[i..], pos, |out|);
    if !Skipped(src, e, pos) {
      var at := Max(pos, e.start);
      var tail := Rewrite(src, rest, Max(at, e.end));
      var own := if e.own then [Span(|out| + (at - pos), |e.text|)] else [];
      var spans := OwnSpans(src, rest, Max(at, e.end), |out| + (at - pos) + |e.text|);
      assert out + (src[pos..at] + e.text + tail) == out + src[pos..at] + e.text + tail;
      assert added + (own + spans) == added + own + spans;
      assert added + own == if e.own then added + [Span(|out| + (at - pos), |e.text|)] else added;
    }
  }

  // ----- Nothing is lost -----

  /** Ends in range, and no two replacements overlap. */
  ghost predicate Orderly(src: string, es: seq<Edit>) {
    && (forall e | e in es :: e.start <= e.end <= |src|)
    && (forall i, j | 0 <= i < j < |es| :: Apart(es[i], es[j]))
  }

  /** Replacements that do not overlap; an insertion is apart from everything. */
  predicate Apart(a: Edit, b: Edit) {
    a.start < a.end && b.start < b.end ==> a.end <= b.start || b.end <= a.start
  }

  predicate Replaced(es: seq<Edit>, i: nat) {
    exists e | e in es :: e.start <= i < e.end
  }

  /** The part of src[..i] that no edit replaces. */
  function Kept(src: string, es: seq<Edit>, i: nat): string
    requires i <= |src|
  {
    if i == 0 then "" else Kept(src, es, i - 1) + (if Replaced(es, i - 1) then "" else [src[i - 1]])
  }

  /** The kept text with each edit's text put in behind the kept characters that precede its start. */
  function Weave(src: string, all: seq<Edit>, es: seq<Edit>, done: nat): string
    requires done <= |src|
    decreases |es|
  {
    var kept := Kept(src, all, |src|);
    PrefixKept(src, all, done, |src|);
    if es == [] then kept[|Kept(src, all, done)|..]
    else
      var at := Max(done, Min(es[0].start, |src|));
      PrefixKept(src, all, done, at);
      PrefixKept(src, all, at, |src|);
      kept[|Kept(src, all, done)|..|Kept(src, all, at)|] + es[0].text + Weave(src, all, es[1..], at)
  }

  function Min(a: nat, b: nat): nat { if a < b then a else b }

  lemma {:induction false} PrefixKept(src: string, all: seq<Edit>, i: nat, j: nat)
    requires i <= j <= |src|
    ensures Kept(src, all, i) <= Kept(src, all, j)
    ensures (forall x | i <= x < j :: Replaced(all, x)) ==> Kept(src, all, j) == Kept(src, all, i)
    ensures (forall x | i <= x < j :: !Replaced(all, x)) ==> Kept(src, all, j) == Kept(src, all, i) + src[i..j]
  {
    if i < j {
      PrefixKept(src, all, i, j - 1);
      assert src[i..j] == src[i..j - 1] + [src[j - 1]];
    }
  }

  /** What the loop knows before its k-th edit: earlier replacements end by pos, later ones start no
      earlier, and an insertion left behind stands in text that is replaced up to pos. */
  ghost predicate LoopState(src: string, all: seq<Edit>, k: nat, pos: nat) {
    && k <= |all| && pos <= |src|
    && (forall j | 0 <= j < k && all[j].start < all[j].end :: all[j].end <= pos)
    && (forall j | k <= j < |all| && all[j].start < all[j].end :: pos <= all[j].start)
    && (forall j, x | k <= j < |all| && all[j].start <= x < pos :: Replaced(all, x))
  }

  lemma LoopBounds(src: string, all: seq<Edit>, k: nat, pos: nat)
    requires LoopState(src, all, k, pos)
    ensures k <= |all| && pos <= |src|
    ensures k < |all| && all[k].start < all[k].end ==> pos <= all[k].start
    ensures k == |all| ==> forall x | pos <= x < |src| :: !Replaced(all, x)
  {
  }

  lemma NextState(src: string, all: seq<Edit>, k: nat, pos: nat)
    requires SortedByStart(all) && Orderly(src, all) && LoopState(src, all, k, pos) && k < |all|
    ensures var at := Max(pos, all[k].start);
      LoopState(src, all, k + 1, Max(at, all[k].end))
  {
    var e := all[k];
    assert e in all;
    var next := Max(Max(pos, e.start), e.end);
    forall j, x | k + 1 <= j < |all| && all[j].start <= x < next ensures Replaced(all, x) {
      assert e.start <= all[j].start;
      if x >= pos { assert e.start <= x < e.end; }
    }
  }

  /** Rewriting weaves the edits' texts into the text no edit replaces: none of that text and none of
      the texts is lost, and each text stands behind exactly the kept characters before its start,
      also when that start lies inside a replaced range. */
  lemma {:induction false} RewriteWeaves(src: string, all: seq<Edit>, k: nat, pos: nat)
    requires SortedByStart(all) && Orderly(src, all) && LoopState(src, all, k, pos)
    ensures Rewrite(src, all[k..], pos) == Weave(src, all, all[k..], pos)
    decreases |all| - k
  {
    hide Kept, Replaced, LoopState, SortedByStart;
    LoopBounds(src, all, k, pos);
    var kept := Kept(src, all, |src|);
    PrefixKept(src, all, pos, |src|);
    if k < |all| {
      var e := all[k];
      assert e in all && all[k..][1..] == all[k + 1..];
      var at := Max(pos, e.start);
      var next := Max(at, e.end);
      NextState(src, all, k, pos);
      RewriteWeaves(src, all, k + 1, next);
      SegmentKept(src, all, k, pos);
      WeaveFrom(src, all, all[k + 1..], at, next);
      assert Rewrite(src, all[k..], pos) == src[pos..at] + e.text + Rewrite(src, all[k + 1..], next);
      assert Weave(src, all, all[k..], pos) ==
        kept[|Kept(src, all, pos)|..|Kept(src, all, at)|] + e.text + Weave(src, all, all[k + 1..], at);
    }
  }

  lemma SegmentKept(src: string, all: seq<Edit>, k: nat, pos: nat)
    requires SortedByStart(all) && Orderly(src, all) && LoopState(src, all, k, pos) && k < |all|
    ensures var at := Max(pos, all[k].start); var next := Max(at, all[k].end);
      && at <= next <= |src|
      && Kept(src, all, next) == Kept(src, all, at) == Kept(src, all, pos) + src[pos..at]
      && Kept(src, all, at) <= Kept(src, all, |src|)
      && Kept(src, all, |src|)[|Kept(src, all, pos)|..|Kept(src, all, at)|] == src[pos..at]
      && forall x | at <= x < next :: Replaced(all, x)
  {
    var e := all[k];
    assert e in all;
    var at := Max(pos, e.start);
    var next := Max(at, e.end);
    forall x | pos <= x < at ensures !Replaced(all, x) {
      forall j | 0 <= j < |all| ensures !(all[j].start <= x < all[j].end) {
        if j >= k { assert e.start <= all[j].start; }
      }
    }
    forall x | at <= x < next ensures Replaced(all, x) {
      assert e.start <= x < e.end;
    }
    PrefixKept(src, all, pos, at);
    PrefixKept(src, all, at, next);
    PrefixKept(src, all, at, |src|);
    hide Kept, Replaced;
    MiddleOf(Kept(src, all, pos), src[pos..at], Kept(src, all, |src|));
  }

  lemma MiddleOf(a: string, b: string, whole: string)
    requires a + b <= whole
    ensures whole[|a|..|a + b|] == b
  {
    assert whole[..|a + b|] == a + b;
  }

  /** Weaving on from behind replaced text is weaving on from before it. */
  lemma WeaveFrom(src: string, all: seq<Edit>, es: seq<Edit>, at: nat, next: nat)
    requires at <= next <= |src| && forall x | at <= x < next :: Replaced(all, x)
    ensures Weave(src, all, es, at) == Weave(src, all, es, next)
    decreases |es|
  {
    PrefixKept(src, all, at, next);
    if es != [] {
      var p, q := Max(at, Min(es[0].start, |src|)), Max(next, Min(es[0].start, |src|));
      assert p <= q;
      WeaveFrom(src, all, es[1..], p, q);
      PrefixKept(src, all, p, q);
    }
  }

  /** applyEdits on any orderly edits. */
  lemma EditsWeave(src: string, edits: seq<Edit>)
    requires Orderly(src, edits)
    ensures var es := SortByStart(edits);
      Rewrite(src, es, 0) == Weave(src, es, es, 0)
  {
    var es := SortByStart(edits);
    SortIsStable(edits, 0);
    SortKeepsOrderly(src, edits);
    assert es[0..] == es;
    RewriteWeaves(src, es, 0, 0);
  }

  /** Order does not matter to being orderly. */
  lemma {:induction false} SortKeepsOrderly(src: string, es: seq<Edit>)
    requires Orderly(src, es)
    ensures Orderly(src, SortByStart(es))
  {
    if es != [] {
      assert es == [es[0]] + es[1..];
      SortKeepsOrderly(src, es[1..]);
      SortIsStable(es[1..], 0);
      forall x | x in SortByStart(es[1..]) ensures x in es[1..] && Apart(es[0], x) {
        assert x in multiset(SortByStart(es[1..])) && x in multiset(es[1..]);
      }
      InsertKeepsOrderly(src, es[0], SortByStart(es[1..]));
    }
  }

  lemma {:induction false} InsertKeepsOrderly(src: string, e: Edit, es: seq<Edit>)
    requires Orderly(src, es) && e.start <= e.end <= |src| && forall x | x in es :: Apart(e, x)
    ensures Orderly(src, InsertByStart(e, es))
    ensures forall x | x in InsertByStart(e, es) :: x == e || x in es
  {
    if es != [] && e.start > es[0].start {
      assert Orderly(src, es[1..]);
      InsertKeepsOrderly(src, e, es[1..]);
      var rest := InsertByStart(e, es[1..]);
      forall x | x in rest ensures Apart(es[0], x) {
        if x == e {
          assert Apart(e, es[0]);
        } else {
          var j :| 0 <= j < |es[1..]| && es[1..][j] == x;
          assert Apart(es[0], es[j + 1]);
        }
      }
      FirstOrderly(src, es[0], rest);
    } else {
      FirstOrderly(src, e, es);
    }
  }

  lemma FirstOrderly(src: string, e: Edit, es: seq<Edit>)
    requires Orderly(src, es) && e.start <= e.end <= |src| && forall x | x in es :: Apart(e, x)
    ensures Orderly(src, [e] + es)
  {
  }

  // ----- Where the texts land -----

  ghost predicate Lands(out: string, sp: Span, text: string) {
    sp.offset + sp.len <= |out| && out[sp.offset..sp.offset + sp.len] == text
  }

  /** The texts of the own edits, in order. */
  function OwnTexts(es: seq<Edit>): seq<string> {
    if es == [] then [] else (if es[0].own then [es[0].text] else []) + OwnTexts(es[1..])
  }

  /** Each reported span slices the result to its edit's text. */
  lemma {:induction false} SpansLand(src: string, es: seq<Edit>, pos: nat, before: string)
    requires pos <= |src| && forall i | 0 <= i < |es| :: es[i].start <= es[i].end <= |src|
    requires SpacedFrom(es, pos)
    ensures AllLand(before + Rewrite(src, es, pos), OwnSpans(src, es, pos, |before|), OwnTexts(es))
    decreases |es|
  {
    if es != [] {
      hide Rewrite, OwnSpans, OwnTexts, SpacedFrom, AllLand, Lands;
      var e := es[0];
      var at := Max(pos, e.start);
      var next := Max(at, e.end);
      var so := before + src[pos..at] + e.text;
      HeadLands(src, es, pos, before);
      SpansLand(src, es[1..], next, so);
      LandsAfter(before + src[pos..at], e.text, Rewrite(src, es[1..], next));
      LandsFirst(so + Rewrite(src, es[1..], next), Span(|before| + (at - pos), |e.text|), e.text,
                 OwnSpans(src, es[1..], next, |so|), OwnTexts(es[1..]));
    } else {
      assert OwnSpans(src, es, pos, |before|) == [] && OwnTexts(es) == [];
    }
  }

  lemma HeadLands(src: string, es: seq<Edit>, pos: nat, before: string)
    requires es != [] && pos <= |src| && es[0].start <= es[0].end <= |src| && SpacedFrom(es, pos)
    ensures var e := es[0]; var at := Max(pos, e.start); var next := Max(at, e.end);
      var so := before + src[pos..at] + e.text;
      && next <= |src| && SpacedFrom(es[1..], next)
      && before + Rewrite(src, es, pos) == so + Rewrite(src, es[1..], next)
      && OwnSpans(src, es, pos, |before|) ==
           (if e.own then [Span(|before| + (at - pos), |e.text|)] else []) + OwnSpans(src, es[1..], next, |so|)
      && OwnTexts(es) == (if e.own then [e.text] else []) + OwnTexts(es[1..])
  {
    var e := es[0];
    var at := Max(pos, e.start);
    var tail := Rewrite(src, es[1..], Max(at, e.end));
    assert Rewrite(src, es, pos) == src[pos..at] + e.text + tail;
    hide Rewrite, OwnSpans, OwnTexts, SpacedFrom;
    assert before + (src[pos..at] + e.text + tail) == before + src[pos..at] + e.text + tail;
  }

  ghost predicate AllLand(out: string, spans: seq<Span>, texts: seq<string>) {
    |spans| == |texts| && forall i | 0 <= i < |spans| :: Lands(out, spans[i], texts[i])
  }

  lemma LandsAfter(a: string, text: string, b: string)
    ensures Lands(a + text + b, Span(|a|, |text|), text)
  {
  }

  lemma LandsFirst(out: string, sp: Span, text: string, spans: seq<Span>, texts: seq<string>)
    requires Lands(out, sp, text) && AllLand(out, spans, texts)
    ensures AllLand(out, [sp] + spans, [text] + texts)
    ensures AllLand(out, [] + spans, [] + texts)
  {
    assert [] + spans == spans && [] + texts == texts;
  }

  /** No replacement starts behind the point the rewriting has reached. */
  ghost predicate SpacedFrom(es: seq<Edit>, pos: nat)
    decreases |es|
  {
    es != [] ==>
      && (es[0].start < es[0].end ==> pos <= es[0].start)
      && SpacedFrom(es[1..], Max(Max(pos, es[0].start), es[0].end))
  }

  lemma {:induction false} OrderlyIsSpaced(src: string, all: seq<Edit>, k: nat, pos: nat)
    requires SortedByStart(all) && Orderly(src, all) && LoopState(src, all, k, pos)
    ensures SpacedFrom(all[k..], pos)
    decreases |all| - k
  {
    if k < |all| {
      assert all[k..][1..] == all[k + 1..];
      NextState(src, all, k, pos);
      OrderlyIsSpaced(src, all, k + 1, Max(Max(pos, all[k].start), all[k].end));
    }
  }

  lemma OwnSpansLand(src: string, edits: seq<Edit>)
    requires Orderly(src, edits)
    ensures var es := SortByStart(edits); var spans := OwnSpans(src, es, 0, 0);
      AllLand(Rewrite(src, es, 0), spans, OwnTexts(es))
  {
    hide SortByStart, Rewrite, OwnSpans, OwnTexts, SpacedFrom, AllLand;
    var es := SortByStart(edits);
    SortIsStable(edits, 0);
    SortKeepsOrderly(src, edits);
    assert es[0..] == es;
    OrderlyIsSpaced(src, es, 0, 0);
    SpansLand(src, es, 0, "");
    assert "" + Rewrite(src, es, 0) == Rewrite(src, es, 0);
  }

  // ----- Any edits -----

  /** Which of the sorted edits take effect: those in range that insert, or that replace nothing an
      earlier one in effect has replaced. */
  ghost predicate TakesEffect(src: string, es: seq<Edit>, keep: seq<bool>, k: nat)
    requires k < |es| && k <= |keep|
  {
    es[k].end <= |src| && (es[k].start == es[k].end || forall j | 0 <= j < k && keep[j] :: es[j].end <= es[k].start)
  }

  ghost predicate InEffect(src: string, es: seq<Edit>, keep: seq<bool>) {
    |keep| == |es| && forall k: nat | k < |es| :: keep[k] <==> TakesEffect(src, es, keep, k)
  }

  /** The edits kept, in order. */
  function Picked(es: seq<Edit>, keep: seq<bool>): seq<Edit>
    requires |keep| == |es|
  {
    if es == [] then [] else (if keep[0] then [es[0]] else []) + Picked(es[1..], keep[1..])
  }

  /** How far the edits kept so far reach. */
  ghost predicate Reach(es: seq<Edit>, keep: seq<bool>, k: nat, pos: nat) {
    && k <= |es| && k <= |keep|
    && (forall j | 0 <= j < k && keep[j] :: es[j].end <= pos)
    && (pos == 0 || exists j :: 0 <= j < k && keep[j] && es[j].end == pos)
  }

  lemma EffectIsNotSkipped(src: string, es: seq<Edit>, keep: seq<bool>, k: nat, pos: nat)
    requires k < |es| && es[k].start <= es[k].end && Reach(es, keep, k, pos)
    ensures TakesEffect(src, es, keep, k) <==> !Skipped(src, es[k], pos)
  {
  }

  lemma ReachNext(es: seq<Edit>, keep: seq<bool>, k: nat, pos: nat, takes: bool)
    requires |keep| == k < |es| && es[k].start <= es[k].end && Reach(es, keep, k, pos)
    ensures Reach(es, keep + [takes], k + 1, if takes then Max(Max(pos, es[k].start), es[k].end) else pos)
  {
    var next := keep + [takes];
    if pos > 0 {
      var j :| 0 <= j < k && keep[j] && es[j].end == pos;
      assert next[j] && es[j].end == pos;
    }
    assert takes ==> next[k];
  }

  /** From the k-th edit on: which take effect, and that the others change nothing. */
  lemma {:induction false} PickFrom(src: string, es: seq<Edit>, k: nat, pos: nat, before: seq<bool>, written: nat) returns (keep: seq<bool>)
    requires k <= |es| && |before| == k && pos <= |src| && Reach(es, before, k, pos)
    requires forall e | e in es :: e.start <= e.end
    ensures |keep| == |es| && keep[..k] == before
    ensures forall j: nat | k <= j < |es| :: keep[j] <==> TakesEffect(src, es, keep, j)
    ensures Rewrite(src, es[k..], pos) == Rewrite(src, Picked(es[k..], keep[k..]), pos)
    ensures OwnSpans(src, es[k..], pos, written) == OwnSpans(src, Picked(es[k..], keep[k..]), pos, written)
    decreases |es| - k
  {
    hide Rewrite, OwnSpans, Picked, Reach, TakesEffect, Skipped;
    if k == |es| {
      keep := before;
      assert es[k..] == [] && keep[k..] == [];
      NonePicked();
    } else {
      var e := es[k];
      EffectIsNotSkipped(src, es, before, k, pos);
      var takes := TakesEffect(src, es, before, k);
      ReachNext(es, before, k, pos, takes);
      RewriteFirst(src, es[k..], pos, written);
      var at := Max(pos, e.start);
      if takes { InRange(src, es, before, k); }
      keep := PickFrom(src, es, k + 1, if takes then Max(at, e.end) else pos, before + [takes],
                       if takes then written + (at - pos) + |e.text| else written);
      assert keep[..k] == keep[..k + 1][..k] && keep[k] == keep[..k + 1][k] == takes;
      SameEffect(src, es, before, keep, k);
      assert es[k..][1..] == es[k + 1..] && keep[k..][1..] == keep[k + 1..];
      PickedFirst(es[k..], keep[k..]);
      if takes { RewriteFirst(src, [e] + Picked(es[k + 1..], keep[k + 1..]), pos, written); }
      assert takes ==> ([e] + Picked(es[k + 1..], keep[k + 1..]))[1..] == Picked(es[k + 1..], keep[k + 1..]);
    }
  }

  lemma NonePicked()
    ensures Picked([], []) == []
  {
  }

  lemma PickedFirst(es: seq<Edit>, keep: seq<bool>)
    requires es != [] && |keep| == |es|
    ensures Picked(es, keep) == if keep[0] then [es[0]] + Picked(es[1..], keep[1..]) else Picked(es[1..], keep[1..])
  {
  }

  lemma InRange(src: string, es: seq<Edit>, keep: seq<bool>, k: nat)
    requires k < |es| && k <= |keep| && TakesEffect(src, es, keep, k)
    ensures es[k].end <= |src|
  {
  }

  lemma SameEffect(src: string, es: seq<Edit>, a: seq<bool>, b: seq<bool>, k: nat)
    requires k < |es| && k <= |a| && k <= |b| && a[..k] == b[..k]
    ensures TakesEffect(src, es, a, k) <==> TakesEffect(src, es, b, k)
  {
    forall j | 0 <= j < k ensures a[j] == b[j] {
      assert a[..k][j] == b[..k][j];
    }
  }

  lemma RewriteFirst(src: string, es: seq<Edit>, pos: nat, written: nat)
    requires es != [] && pos <= |src| && es[0].start <= es[0].end
    ensures var e, rest := es[0], es[1..];
      if Skipped(src, e, pos) then
        Rewrite(src, es, pos) == Rewrite(src, rest, pos) && OwnSpans(src, es, pos, written) == OwnSpans(src, rest, pos, written)
      else
        var at := Max(pos, e.start);
        && at <= |src| && e.end <= |src|
        && Rewrite(src, es, pos) == src[pos..at] + e.text + Rewrite(src, rest, Max(at, e.end))
        && OwnSpans(src, es, pos, written) ==
             (if e.own then [Span(written + (at - pos), |e.text|)] else []) + OwnSpans(src, rest, Max(at, e.end), written + (at - pos) + |e.text|)
  {
  }

  lemma {:induction false} PickedMember(es: seq<Edit>, keep: seq<bool>, e: Edit)
    requires |keep| == |es| && e in Picked(es, keep)
    ensures exists j :: 0 <= j < |es| && keep[j] && es[j] == e
  {
    if !(keep[0] && es[0] == e) {
      PickedMember(es[1..], keep[1..], e);
      var j :| 0 <= j < |es| - 1 && keep[1..][j] && es[1..][j] == e;
      assert keep[j + 1] && es[j + 1] == e;
    }
  }

  /** Of two edits that take effect the later one lies behind the earlier, or inserts. */
  lemma PickedApart(src: string, es: seq<Edit>, keep: seq<bool>, k: nat, x: Edit)
    requires InEffect(src, es, keep) && SortedByStart(es) && k < |es| && keep[k] && x in Picked(es[k + 1..], keep[k + 1..])
    ensures es[k].start <= x.start && Apart(es[k], x)
  {
    PickedMember(es[k + 1..], keep[k + 1..], x);
    hide Picked;
    var j :| 0 <= j < |es| - k - 1 && keep[k + 1..][j] && es[k + 1..][j] == x;
    assert es[k + 1 + j] == x && keep[k + 1 + j] && TakesEffect(src, es, keep, k + 1 + j);
  }

  lemma {:induction false} PickedOrderly(src: string, es: seq<Edit>, keep: seq<bool>, k: nat)
    requires InEffect(src, es, keep) && SortedByStart(es) && k <= |es| && forall e | e in es :: e.start <= e.end
    ensures Orderly(src, Picked(es[k..], keep[k..])) && SortedByStart(Picked(es[k..], keep[k..]))
    decreases |es| - k
  {
    hide Picked;
    if k == |es| {
      NonePicked();
      assert es[k..] == [] && keep[k..] == [];
    } else {
      PickedOrderly(src, es, keep, k + 1);
      assert es[k..][1..] == es[k + 1..] && keep[k..][1..] == keep[k + 1..];
      PickedFirst(es[k..], keep[k..]);
      var rest := Picked(es[k + 1..], keep[k + 1..]);
      if keep[k] {
        assert TakesEffect(src, es, keep, k) && es[k] in es;
        forall x | x in rest ensures es[k].start <= x.start && Apart(es[k], x) { PickedApart(src, es, keep, k, x); }
        hide InEffect, TakesEffect, SortedByStart, Orderly;
        OrderlyCons(src, es[k], rest);
      }
    }
  }

  lemma OrderlyCons(src: string, e: Edit, rest: seq<Edit>)
    requires Orderly(src, rest) && SortedByStart(rest) && e.start <= e.end <= |src|
    requires forall x | x in rest :: e.start <= x.start && Apart(e, x)
    ensures Orderly(src, [e] + rest) && SortedByStart([e] + rest)
  {
    var es := [e] + rest;
    forall i, j | 0 <= i < j < |es| ensures Apart(es[i], es[j]) && es[i].start <= es[j].start {
      if i == 0 { assert es[j] in rest; }
    }
  }

  /** applyEdits on any edits: those that would replace text already replaced, or reach beyond the text,
      are passed over, and the others are woven in. */
  lemma AnyEditsWeave(src: string, edits: seq<Edit>) returns (keep: seq<bool>)
    requires forall e | e in edits :: e.start <= e.end
    ensures var es := SortByStart(edits);
      && InEffect(src, es, keep)
      && var kept := Picked(es, keep);
      && Orderly(src, kept) && Rewrite(src, es, 0) == Weave(src, kept, kept, 0)
      && OwnSpans(src, es, 0, 0) == OwnSpans(src, kept, 0, 0) && AllLand(Rewrite(src, es, 0), OwnSpans(src, es, 0, 0), OwnTexts(kept))
  {
    hide Rewrite, OwnSpans, Picked, Weave, SortByStart, Orderly, AllLand, OwnTexts;
    var es := SortByStart(edits);
    SortedEnds(edits);
    SortIsStable(edits, 0);
    keep := PickFrom(src, es, 0, 0, [], 0);
    assert es[0..] == es && keep[0..] == keep;
    assert InEffect(src, es, keep);
    PickedOrderly(src, es, keep, 0);
    var kept := Picked(es, keep);
    SortSorted(kept);
    EditsWeave(src, kept);
    OwnSpansLand(src, kept);
  }
}
