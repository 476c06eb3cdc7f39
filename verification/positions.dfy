/** Byte offsets and LSP positions (internal/lsp/posmap.go).

    A position is a line and a column counted in UTF-16 code units. Contents are arbitrary bytes: an
    ill-formed byte counts as one character of one unit. */
module Positions {
  import opened Utf

  const MAX_UINT32 := 0xFFFF_FFFF

  datatype Position = Position(line: nat, character: nat)

  datatype Range = Range(start: Position, end: Position)

  datatype Span = Span(offset: int, len: int) {
    function End(): int { offset + len }
  }

  /** uint32Clamp on the non-negative numbers it is given. */
  function Clamp32(n: nat): nat {
    if n > MAX_UINT32 then MAX_UINT32 else n
  }

  /** offset brought into content. */
  function Clip(content: seq<Byte>, offset: int): (o: nat)
    ensures o <= |content|
  {
    if offset < 0 then 0 else if offset > |content| then |content| else offset
  }

  // ----- What a position is -----

  /** The newlines before o. */
  function LineAt(content: seq<Byte>, o: nat): nat
    requires o <= |content|
  {
    if o == 0 then 0 else LineAt(content, o - 1) + (if content[o - 1] == NEWLINE then 1 else 0)
  }

  /** Where o's line starts. */
  function LineStart(content: seq<Byte>, o: nat): (s: nat)
    requires o <= |content|
    ensures s <= o && forall j | s <= j < o :: content[j] != NEWLINE
    ensures s == 0 || content[s - 1] == NEWLINE
  {
    if o == 0 || content[o - 1] == NEWLINE then o else LineStart(content, o - 1)
  }

  /** The UTF-16 length of content[i:end]. */
  function Units(content: seq<Byte>, i: nat, end: nat): nat
    requires i <= end <= |content|
    decreases end - i
  {
    if i == end then 0
    else Utf16RuneLen(RuneAt(content, i, end)) + Units(content, i + SizeAt(content, i, end), end)
  }

  function Column(content: seq<Byte>, o: nat): nat
    requires o <= |content|
  {
    Units(content, LineStart(content, o), o)
  }

  /** The position of a byte offset. */
  function PositionOf(content: seq<Byte>, o: nat): Position
    requires o <= |content|
  {
    Position(Clamp32(LineAt(content, o)), Clamp32(Column(content, o)))
  }

  /** The offset n lines below i, or the end of content. */
  function SkipLines(content: seq<Byte>, i: nat, n: nat): (o: nat)
    requires i <= |content|
    ensures i <= o <= |content|
    decreases |content| - i
  {
    if n == 0 || i == |content| then i
    else SkipLines(content, i + 1, if content[i] == NEWLINE then n - 1 else n)
  }

  /** The first offset from i on that is at least n units to the right, or the end of the line. */
  function SkipUnits(content: seq<Byte>, i: nat, n: int): (o: nat)
    requires i <= |content|
    ensures i <= o <= |content|
    decreases |content| - i
  {
    if i == |content| || content[i] == NEWLINE || n <= 0 then i
    else
      SkipUnits(content, i + SizeAt(content, i, |content|), n - Utf16RuneLen(RuneAt(content, i, |content|)))
  }

  /** The byte offset of a position. */
  function OffsetOf(content: seq<Byte>, pos: Position): (o: nat)
    ensures o <= |content|
  {
    SkipUnits(content, SkipLines(content, 0, pos.line), pos.character)
  }

  // ----- The loops -----

  method OffsetToPosition(content: seq<Byte>, offset: int) returns (pos: Position)
    ensures pos == PositionOf(content, Clip(content, offset))
  {
    var offset := offset;
    if offset < 0 {
      offset := 0;
    }
    if offset > |content| {
      offset := |content|;
    }
    var line, lineStart := 0, 0;
    for i := 0 to offset
      invariant line == LineAt(content, i) && lineStart == LineStart(content, i)
    {
      if content[i] == NEWLINE {
        line := line + 1;
        lineStart := i + 1;
      }
    }
    var column := Utf16Len(content, lineStart, offset);
    pos := Position(Clamp32(line), Clamp32(column));
  }

  /** utf16Len(content[start:end]). */
  method Utf16Len(content: seq<Byte>, start: nat, end: nat) returns (n: nat)
    requires start <= end <= |content|
    ensures n == Units(content, start, end)
  {
    n := 0;
    var i := start;
    while i < end
      invariant start <= i <= end
      invariant n + Units(content, i, end) == Units(content, start, end)
    {
      n := n + Utf16RuneLen(RuneAt(content, i, end));
      i := i + SizeAt(content, i, end);
    }
  }

  method PositionToOffset(content: seq<Byte>, pos: Position) returns (i: nat)
    ensures i == OffsetOf(content, pos)
  {
    var line := 0;
    i := 0;
    while line < pos.line && i < |content|
      invariant i <= |content| && line <= pos.line
      invariant SkipLines(content, i, pos.line - line) == SkipLines(content, 0, pos.line)
    {
      if content[i] == NEWLINE {
        line := line + 1;
      }
      i := i + 1;
    }
    var units: int := 0;
    while i < |content| && content[i] != NEWLINE
      invariant i <= |content|
      invariant SkipUnits(content, i, pos.character - units) == OffsetOf(content, pos)
      decreases |content| - i
    {
      if units >= pos.character {
        break;
      }
      units := units + Utf16RuneLen(RuneAt(content, i, |content|));
      i := i + SizeAt(content, i, |content|);
    }
  }

  method SpanToRange(content: seq<Byte>, sp: Span) returns (r: Range)
    ensures r == Range(PositionOf(content, Clip(content, sp.offset)), PositionOf(content, Clip(content, sp.End())))
  {
    var start := OffsetToPosition(content, sp.offset);
    var end := OffsetToPosition(content, sp.End());
    r := Range(start, end);
  }

  /** rangeToSpan: an end before the start is moved up to it. */
  function SpanOf(content: seq<Byte>, r: Range): (sp: Span)
    ensures 0 <= sp.offset <= sp.End() <= |content|
  {
    var start, end := OffsetOf(content, r.start), OffsetOf(content, r.end);
    Span(start, (if end < start then start else end) - start)
  }

  method RangeToSpan(content: seq<Byte>, r: Range) returns (sp: Span)
    ensures sp == SpanOf(content, r)
  {
    var start := PositionToOffset(content, r.start);
    var end := PositionToOffset(content, r.end);
    if end < start {
      end := start;
    }
    sp := Span(start, end - start);
  }

  // ----- Character boundaries -----

  /** Decoding from i on stops at o. */
  predicate ReachesFrom(content: seq<Byte>, i: nat, o: nat)
    requires i <= |content|
    decreases |content| - i
  {
    i == o || (i < o && i < |content| && ReachesFrom(content, i + SizeAt(content, i, |content|), o))
  }

  /** o does not fall inside a character. */
  predicate Boundary(content: seq<Byte>, o: nat) {
    o <= |content| && ReachesFrom(content, 0, o)
  }

  lemma {:induction false} ReachesOn(content: seq<Byte>, i: nat, m: nat, o: nat)
    requires i <= m <= |content| && o <= |content|
    requires ReachesFrom(content, i, m) && ReachesFrom(content, m, o)
    ensures ReachesFrom(content, i, o)
    decreases m - i
  {
    if i < m { ReachesOn(content, i + SizeAt(content, i, |content|), m, o); }
  }

  lemma {:induction false} ReachesBetween(content: seq<Byte>, i: nat, m: nat, o: nat)
    requires i <= m <= o <= |content|
    requires ReachesFrom(content, i, m) && ReachesFrom(content, i, o)
    ensures ReachesFrom(content, m, o)
    decreases m - i
  {
    if i < m { ReachesBetween(content, i + SizeAt(content, i, |content|), m, o); }
  }

  /** Decoding stops before and after every newline it meets. */
  lemma {:induction false} StopsAtNewline(content: seq<Byte>, i: nat, j: nat)
    requires i <= j < |content| && content[j] == NEWLINE
    ensures ReachesFrom(content, i, j) && ReachesFrom(content, i, j + 1)
    decreases j - i
  {
    var n := SizeAt(content, i, |content|);
    if j < i + n {
      NewlineAlone(content, i, j);
    } else {
      StopsAtNewline(content, i + n, j);
    }
  }

  lemma LineStartIsBoundary(content: seq<Byte>, o: nat)
    requires Boundary(content, o)
    ensures Boundary(content, LineStart(content, o)) && ReachesFrom(content, LineStart(content, o), o)
  {
    var s := LineStart(content, o);
    if s > 0 { StopsAtNewline(content, 0, s - 1); }
    ReachesBetween(content, 0, s, o);
  }

  // ----- Lines and columns found again -----

  lemma {:induction false} SkipLinesFinds(content: seq<Byte>, i: nat, o: nat)
    requires o <= |content| && i <= LineStart(content, o)
    ensures LineAt(content, i) <= LineAt(content, o)
    ensures i < LineStart(content, o) ==> LineAt(content, i) < LineAt(content, o)
    ensures SkipLines(content, i, LineAt(content, o) - LineAt(content, i)) == LineStart(content, o)
    decreases o - i
  {
    var s := LineStart(content, o);
    if i < s {
      SkipLinesFinds(content, i + 1, o);
    } else {
      SameLine(content, s, o);
    }
  }

  lemma {:induction false} SameLine(content: seq<Byte>, i: nat, o: nat)
    requires i <= o <= |content| && forall j | i <= j < o :: content[j] != NEWLINE
    ensures LineAt(content, i) == LineAt(content, o) && LineStart(content, i) == LineStart(content, o)
  {
    if i < o { SameLine(content, i, o - 1); }
  }

  /** SkipLines stops at the start of a line, n lines down unless the text ends first. */
  lemma {:induction false} SkipLinesStops(content: seq<Byte>, i: nat, n: nat)
    requires i <= |content|
    ensures var s := SkipLines(content, i, n);
      && LineAt(content, s) <= LineAt(content, i) + n
      && (LineAt(content, s) == LineAt(content, i) + n || s == |content|)
      && (s == i || s == |content| || content[s - 1] == NEWLINE)
    decreases |content| - i
  {
    if n > 0 && i < |content| {
      SkipLinesStops(content, i + 1, if content[i] == NEWLINE then n - 1 else n);
    }
  }

  lemma {:induction false} LinesGrow(content: seq<Byte>, i: nat, o: nat)
    requires i <= o <= |content|
    ensures LineAt(content, i) <= LineAt(content, o)
  {
    if i < o { LinesGrow(content, i, o - 1); }
  }

  /** The units of content[i:o] before its last character. */
  function UnitsBeforeLast(content: seq<Byte>, i: nat, o: nat): nat
    requires i < o <= |content| && ReachesFrom(content, i, o)
    decreases o - i
  {
    var next := i + SizeAt(content, i, |content|);
    if next == o then 0 else Utf16RuneLen(RuneAt(content, i, |content|)) + UnitsBeforeLast(content, next, o)
  }

  /** Units, read off the whole content. */
  lemma UnitsStep(content: seq<Byte>, i: nat, o: nat)
    requires i < o <= |content| && ReachesFrom(content, i, o)
    ensures var next := i + SizeAt(content, i, |content|);
      && next <= o && ReachesFrom(content, next, o)
      && Units(content, i, o) == Utf16RuneLen(RuneAt(content, i, |content|)) + Units(content, next, o)
  {
    SameDecoding(content, i, o);
  }

  /** Walking n units along a line, n at most its length up to o, stops at o exactly when more than
      the units before the last character are asked for. */
  lemma {:induction false} SkipUnitsFinds(content: seq<Byte>, i: nat, o: nat, n: nat)
    requires i <= o <= |content| && ReachesFrom(content, i, o)
    requires forall j | i <= j < o :: content[j] != NEWLINE
    requires n <= Units(content, i, o)
    ensures SkipUnits(content, i, n) == o <==> i == o || UnitsBeforeLast(content, i, o) < n
    ensures i < o ==> UnitsBeforeLast(content, i, o) < Units(content, i, o)
    decreases o - i
  {
    if i < o {
      UnitsStep(content, i, o);
      var next := i + SizeAt(content, i, |content|);
      var width := Utf16RuneLen(RuneAt(content, i, |content|));
      if n >= width {
        SkipUnitsFinds(content, next, o, n - width);
      } else {
        SkipUnitsFinds(content, next, o, 0);
      }
    }
  }

  /** Where a walk along a line stops: on a boundary of that line, at its end or at least n units
      along, and no earlier boundary is that far. */
  lemma {:induction false} SkipUnitsStops(content: seq<Byte>, i: nat, n: int)
    requires i <= |content|
    ensures var o := SkipUnits(content, i, n);
      && ReachesFrom(content, i, o)
      && (forall j | i <= j < o :: content[j] != NEWLINE)
      && (o == |content| || content[o] == NEWLINE || n <= Units(content, i, o))
      && (o > i ==> UnitsBeforeLast(content, i, o) < n)
    decreases |content| - i
  {
    var o := SkipUnits(content, i, n);
    if i < |content| && content[i] != NEWLINE && n > 0 {
      var next := i + SizeAt(content, i, |content|);
      SkipUnitsStops(content, next, n - Utf16RuneLen(RuneAt(content, i, |content|)));
      forall j | i <= j < next ensures content[j] != NEWLINE {
        if content[j] == NEWLINE { NewlineAlone(content, i, j); }
      }
      UnitsStep(content, i, o);
    }
  }

  lemma {:induction false} EarlierIsShorter(content: seq<Byte>, i: nat, b: nat, o: nat)
    requires i <= b < o <= |content| && ReachesFrom(content, i, b) && ReachesFrom(content, i, o)
    ensures Units(content, i, b) <= UnitsBeforeLast(content, i, o)
    decreases b - i
  {
    if i < b {
      UnitsStep(content, i, b);
      EarlierIsShorter(content, i + SizeAt(content, i, |content|), b, o);
    }
  }

  // ----- Position maps undo each other -----

  /** A boundary's position leads back to it, ill-formed bytes included, exactly when its line and
      the columns before its last character fit the protocol's 32 bits. */
  lemma OffsetRoundTrip(content: seq<Byte>, o: nat)
    requires Boundary(content, o)
    ensures var s := LineStart(content, o);
      && ReachesFrom(content, s, o)
      && (OffsetOf(content, PositionOf(content, o)) == o <==>
            LineAt(content, o) <= MAX_UINT32 && (s == o || UnitsBeforeLast(content, s, o) < MAX_UINT32))
  {
    var s := LineStart(content, o);
    LineStartIsBoundary(content, o);
    var pos := PositionOf(content, o);
    if LineAt(content, o) <= MAX_UINT32 {
      SkipLinesFinds(content, 0, o);
      SkipUnitsFinds(content, s, o, pos.character);
    } else {
      var t := SkipLines(content, 0, pos.line);
      SkipLinesStops(content, 0, pos.line);
      SkipUnitsStops(content, t, pos.character);
      SameLine(content, t, SkipUnits(content, t, pos.character));
    }
  }

  /** What a position stands for in any content: its line's first boundary at or right of its column,
      or the line's end; the end of the text when there is no such line. */
  lemma OffsetMeaning(content: seq<Byte>, pos: Position)
    ensures var o := OffsetOf(content, pos);
      && Boundary(content, o)
      && (pos.line > LineAt(content, |content|) ==> o == |content|)
      && (pos.line <= LineAt(content, |content|) ==>
            && LineAt(content, o) == pos.line
            && (o == |content| || content[o] == NEWLINE || pos.character <= Column(content, o))
            && forall b: nat | b < o && Boundary(content, b) && LineAt(content, b) == pos.line ::
                 Column(content, b) < pos.character)
  {
    var s := SkipLines(content, 0, pos.line);
    var o := OffsetOf(content, pos);
    SkipLinesStops(content, 0, pos.line);
    SkipUnitsStops(content, s, pos.character);
    SameLine(content, s, o);
    LinesGrow(content, s, |content|);
    if s > 0 && content[s - 1] == NEWLINE { StopsAtNewline(content, 0, s - 1); }
    ReachesEnd(content, 0);
    ReachesOn(content, 0, s, o);
    if pos.line <= LineAt(content, |content|) {
      LineStartOf(content, s, pos.line);
      forall b: nat | b < o && Boundary(content, b) && LineAt(content, b) == pos.line
        ensures Column(content, b) < pos.character
      {
        LinesApart(content, b, s);
        SameLine(content, s, b);
        ReachesBetween(content, 0, s, b);
        EarlierIsShorter(content, s, b, o);
      }
    }
  }

  lemma {:induction false} ReachesEnd(content: seq<Byte>, i: nat)
    requires i <= |content|
    ensures ReachesFrom(content, i, |content|)
    decreases |content| - i
  {
    if i < |content| { ReachesEnd(content, i + SizeAt(content, i, |content|)); }
  }

  /** A line that exists is reached at its start. */
  lemma LineStartOf(content: seq<Byte>, s: nat, line: nat)
    requires s == SkipLines(content, 0, line) && line <= LineAt(content, |content|)
    ensures LineAt(content, s) == line && LineStart(content, s) == s
  {
    SkipLinesStops(content, 0, line);
    if s == |content| && (s > 0 && content[s - 1] != NEWLINE) {
      // The end of the text was met before the line began: its last line lies above.
      SkipLinesFinds(content, 0, s);
      SkipShorter(content, 0, line, LineAt(content, s));
    }
  }

  lemma {:induction false} SkipShorter(content: seq<Byte>, i: nat, n: nat, m: nat)
    requires i <= |content| && n <= m
    ensures SkipLines(content, i, n) <= SkipLines(content, i, m)
    decreases |content| - i
  {
    if i < |content| && n > 0 {
      if content[i] == NEWLINE { SkipShorter(content, i + 1, n - 1, m - 1); } else { SkipShorter(content, i + 1, n, m); }
    }
  }

  /** An offset above the start of a line lies on an earlier line. */
  lemma LinesApart(content: seq<Byte>, b: nat, s: nat)
    requires b <= |content| && s <= |content| && LineStart(content, s) == s && LineAt(content, b) == LineAt(content, s)
    ensures s <= b
  {
    if b < s {
      LinesGrow(content, b, s - 1);
    }
  }

  /** A position some boundary has leads to that boundary, and back. */
  lemma PositionRoundTrip(content: seq<Byte>, pos: Position, o: nat)
    requires Boundary(content, o) && pos == Position(LineAt(content, o), Column(content, o))
    requires pos.line <= MAX_UINT32 && pos.character <= MAX_UINT32
    ensures OffsetOf(content, pos) == o && PositionOf(content, OffsetOf(content, pos)) == pos
  {
    OffsetRoundTrip(content, o);
    var s := LineStart(content, o);
    SkipUnitsFinds(content, s, o, pos.character);
  }
}
