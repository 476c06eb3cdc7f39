/** Semantic token encoding (internal/lsp/semantictokens.go): the resumable cursor, the cut of a
    token into line pieces, and the delta encoding of LSP 3.17, "Semantic Tokens". */
module SemanticTokens {
  import opened Utf
  import opened Positions

  // ----- The cursor -----

  /** The first character boundary at or after o, decoding from i. */
  function NextBoundary(content: seq<Byte>, i: nat, o: nat): (b: nat)
    requires i <= |content| && o <= |content|
    ensures i <= b <= |content| && o <= b
    ensures ReachesFrom(content, i, b)
    decreases |content| - i
  {
    if i >= o then i else NextBoundary(content, i + SizeAt(content, i, |content|), o)
  }

  /** NextBoundary is the least boundary at or after o. */
  lemma {:induction false} NextIsLeast(content: seq<Byte>, i: nat, o: nat, b: nat)
    requires i <= o <= b <= |content| && ReachesFrom(content, i, b)
    ensures NextBoundary(content, i, o) <= b
    decreases |content| - i
  {
    if i < o {
      var next := i + SizeAt(content, i, |content|);
      if next < o { NextIsLeast(content, next, o, b); }
    }
  }

  lemma {:induction false} NextFromAnywhere(content: seq<Byte>, i: nat, m: nat, o: nat)
    requires i <= m <= o <= |content| && ReachesFrom(content, i, m)
    ensures NextBoundary(content, i, o) == NextBoundary(content, m, o)
    decreases |content| - i
  {
    if i < m { NextFromAnywhere(content, i + SizeAt(content, i, |content|), m, o); }
  }

  /** Reading one character moves the line and column by its own width. */
  lemma StepPosition(content: seq<Byte>, i: nat)
    requires i < |content| && Boundary(content, i)
    ensures var next := i + SizeAt(content, i, |content|);
      && Boundary(content, next)
      && LineAt(content, next) == LineAt(content, i) + (if content[i] == NEWLINE then 1 else 0)
      && Column(content, next) ==
           (if content[i] == NEWLINE then 0 else Column(content, i) + Utf16RuneLen(RuneAt(content, i, |content|)))
  {
    var next := i + SizeAt(content, i, |content|);
    ReachesOn(content, 0, i, next);
    forall j | i <= j < next && content[j] == NEWLINE ensures j == i && next == i + 1 {
      NewlineAlone(content, i, j);
    }
    if content[i] != NEWLINE {
      SameLine(content, i, next);
      LineStartIsBoundary(content, i);
      UnitsAppend(content, LineStart(content, i), i);
    } else {
      NewlineAlone(content, i, i);
    }
  }

  lemma {:induction false} UnitsAppend(content: seq<Byte>, s: nat, i: nat)
    requires s <= i < |content| && ReachesFrom(content, s, i)
    ensures Units(content, s, i + SizeAt(content, i, |content|)) ==
      Units(content, s, i) + Utf16RuneLen(RuneAt(content, i, |content|))
    decreases i - s
  {
    hide Units, RuneAt, SizeAt, Utf16RuneLen, ReachesFrom;
    var next := i + SizeAt(content, i, |content|);
    OneStep(content, i);
    ReachesOn(content, s, i, next);
    UnitsStep(content, s, next);
    if s < i {
      UnitsStep(content, s, i);
      UnitsAppend(content, s + SizeAt(content, s, |content|), i);
    }
  }

  lemma OneStep(content: seq<Byte>, i: nat)
    requires i < |content|
    ensures var next := i + SizeAt(content, i, |content|);
      ReachesFrom(content, i, next) && Units(content, i, i) == Units(content, next, next) == 0
  {
    hide SizeAt;
  }

  lemma AtStart(content: seq<Byte>)
    ensures Boundary(content, 0) && LineAt(content, 0) == 0 && Column(content, 0) == 0
  {
  }

  class LineCursor {
    const content: seq<Byte>
    var offset: nat
    var line: nat
    var column: nat

    ghost predicate Valid()
      reads this
    {
      && Boundary(content, offset)
      && line == LineAt(content, offset)
      && column == Column(content, offset)
    }

    constructor (content: seq<Byte>)
      ensures Valid() && this.content == content && offset == 0
    {
      this.content := content;
      offset, line, column := 0, 0, 0;
    }

    /** Goes on from where the last query stopped, and answers the position of the first boundary at or
        after it, whatever was asked before. */
    method PositionAt(offset: int) returns (pos: Position)
      requires Valid()
      modifies this
      ensures Valid()
      ensures this.offset == NextBoundary(content, 0, Clip(content, offset))
      ensures pos == PositionOf(content, NextBoundary(content, 0, Clip(content, offset)))
    {
      var offset := offset;
      if offset < 0 {
        offset := 0;
      }
      if offset > |content| {
        offset := |content|;
      }
      hide RuneAt, SizeAt, Utf16RuneLen, LineAt, Column, ReachesFrom;
      if offset < this.offset {
        AtStart(content);
        this.offset, line, column := 0, 0, 0;
      }
      NextFromAnywhere(content, 0, this.offset, offset);
      while this.offset < offset
        invariant Valid() && offset <= |content|
        invariant NextBoundary(content, this.offset, offset) == NextBoundary(content, 0, offset)
        decreases |content| - this.offset
      {
        StepPosition(content, this.offset);
        NewlineRune(content, this.offset);
        var rune, size := RuneAt(content, this.offset, |content|), SizeAt(content, this.offset, |content|);
        this.offset := this.offset + size;
        if rune == 0x0A {
          line, column := line + 1, 0;
          continue;
        }
        column := column + Utf16RuneLen(rune);
      }
      pos := Position(Clamp32(line), Clamp32(column));
    }
  }

  /** On a boundary the cursor answers what offsetToPosition answers. */
  lemma CursorRefinesMap(content: seq<Byte>, offset: int)
    requires Boundary(content, Clip(content, offset))
    ensures NextBoundary(content, 0, Clip(content, offset)) == Clip(content, offset)
  {
    var o := Clip(content, offset);
    NextIsLeast(content, 0, o, o);
  }

  // ----- Queries inside a character -----

  /** The last character boundary at or before o, decoding from i. */
  function LastBoundary(content: seq<Byte>, i: nat, o: nat): (s: nat)
    requires i <= o <= |content|
    ensures i <= s <= o && ReachesFrom(content, i, s)
    ensures s < o ==> o < s + SizeAt(content, s, |content|)
    decreases o - i
  {
    if i == o || o < i + SizeAt(content, i, |content|) then i
    else LastBoundary(content, i + SizeAt(content, i, |content|), o)
  }

  lemma {:induction false} UnitsOfBytes(content: seq<Byte>, s: nat, j: nat, o: nat)
    requires s < |content| && s <= j <= o < s + SizeAt(content, s, |content|)
    ensures Units(content, j, o) == o - j
    decreases o - j
  {
    if j < o {
      CutShort(content, s, j, o);
      UnitsOfBytes(content, s, j + 1, o);
    }
  }

  /** Up to a place inside a character, each of its bytes before that place counts one unit. */
  lemma {:induction false} UnitsInside(content: seq<Byte>, i: nat, s: nat, o: nat)
    requires i <= s < |content| && ReachesFrom(content, i, s) && s <= o < s + SizeAt(content, s, |content|)
    ensures Units(content, i, o) == Units(content, i, s) + (o - s)
    decreases s - i
  {
    if i == s {
      UnitsOfBytes(content, s, s, o);
    } else {
      UnitsStep(content, i, s);
      SameDecoding(content, i, o);
      UnitsInside(content, i + SizeAt(content, i, |content|), s, o);
    }
  }

  /** The place lies on a boundary, or as many bytes into its character as that has UTF-16 units, or
      beyond the columns that 32 bits tell apart. */
  predicate ReadExactly(content: seq<Byte>, o: nat)
    requires o <= |content|
  {
    var s := LastBoundary(content, 0, o);
    s == o ||
    var units := Utf16RuneLen(RuneAt(content, s, |content|));
    o - s == units || Column(content, s) + Min(o - s, units) >= MAX_UINT32
  }

  function Min(a: nat, b: nat): nat { if a < b then a else b }

  /** The cursor's answer is that of offsetToPosition exactly there. */
  lemma CursorExactly(content: seq<Byte>, o: nat)
    requires o <= |content|
    ensures PositionOf(content, NextBoundary(content, 0, o)) == PositionOf(content, o) <==> ReadExactly(content, o)
    ensures Boundary(content, o) ==> ReadExactly(content, o)
  {
    hide LineAt, LineStart, Column, ReachesFrom, RuneAt, SizeAt, Utf16RuneLen, Units;
    var s := LastBoundary(content, 0, o);
    if s == o {
      CursorRefinesMap(content, o);
    } else {
      NextInside(content, s, o);
      StepPosition(content, s);
      PlaceInside(content, s, o);
    }
  }

  lemma NextInside(content: seq<Byte>, s: nat, o: nat)
    requires Boundary(content, s) && s < |content| && s < o < s + SizeAt(content, s, |content|)
    ensures NextBoundary(content, 0, o) == s + SizeAt(content, s, |content|)
    ensures !Boundary(content, o)
  {
    NextFromAnywhere(content, 0, s, o);
    if Boundary(content, o) {
      ReachesBetween(content, 0, s, o);
    }
  }

  lemma PlaceInside(content: seq<Byte>, s: nat, o: nat)
    requires Boundary(content, s) && s < |content| && s < o < s + SizeAt(content, s, |content|)
    ensures content[s] != NEWLINE
    ensures LineAt(content, o) == LineAt(content, s) && Column(content, o) == Column(content, s) + (o - s)
  {
    forall j | s <= j < o ensures content[j] != NEWLINE {
      if content[j] == NEWLINE { NewlineAlone(content, s, j); }
    }
    SameLine(content, s, o);
    LineStartIsBoundary(content, s);
    UnitsInside(content, LineStart(content, s), s, o);
  }

  // ----- Line pieces -----

  /** The end of the line piece starting at start: the next newline, or the end of the span. */
  function LineEnd(content: seq<Byte>, start: nat, end: nat): (e: nat)
    requires start <= end <= |content|
    ensures start <= e <= end
    ensures e < end ==> content[e] == NEWLINE
    decreases end - start
  {
    if start == end || content[start] == NEWLINE then start else LineEnd(content, start + 1, end)
  }

  lemma {:induction false} NoNewlineBeforeEnd(content: seq<Byte>, start: nat, end: nat)
    requires start <= end <= |content|
    ensures forall j | start <= j < LineEnd(content, start, end) :: content[j] != NEWLINE
    decreases end - start
  {
    if start < end { NoNewlineBeforeEnd(content, start + 1, end); }
  }

  const RETURN: Byte := 0x0D

  /** The end of the piece proper: a carriage return before the line's end is left off. */
  function Trimmed(content: seq<Byte>, start: nat, e: nat): (t: nat)
    requires start <= e <= |content|
    ensures start <= t <= e
  {
    if e > start && content[e - 1] == RETURN then e - 1 else e
  }

  function OnePiece(start: nat, trimmed: nat): seq<Span> {
    if trimmed > start then [Span(start, trimmed - start)] else []
  }

  /** The non-empty pieces of content[start:end], one per line, without line terminators. */
  function Pieces(content: seq<Byte>, start: nat, end: nat): seq<Span>
    requires end <= |content|
    decreases end - start
  {
    if start >= end then []
    else
      var e := LineEnd(content, start, end);
      OnePiece(start, Trimmed(content, start, e)) + Pieces(content, e + 1, end)
  }

  method SplitLines(content: seq<Byte>, sp: Span) returns (out: seq<Span>)
    ensures out == SplitSpan(content, sp)
  {
    hide Pieces, Remaining, LineEnd, Trimmed, SplitSpan;
    SplitSpanIs(content, sp);
    if sp.len <= 0 || sp.offset < 0 || sp.End() > |content| {
      return [];
    }
    out := [];
    var start: nat := sp.offset;
    var stop: nat := sp.End();
    while start < stop
      invariant Remaining(content, out, start, stop, SplitSpan(content, sp))
      decreases stop - start
    {
      var end := LineEnd(content, start, stop);
      var trimmed := end;
      if trimmed > start && content[trimmed - 1] == RETURN {
        trimmed := trimmed - 1;
      }
      assert trimmed == Trimmed(content, start, end) by { TrimmedIs(content, start, end); }
      RemainingStep(content, out, start, stop, SplitSpan(content, sp));
      if trimmed > start {
        out := out + [Span(start, trimmed - start)];
      }
      start := end + 1;
    }
    RemainingNone(content, out, start, stop, SplitSpan(content, sp));
  }

  lemma SplitSpanIs(content: seq<Byte>, sp: Span)
    ensures if sp.len <= 0 || sp.offset < 0 || sp.End() > |content| then SplitSpan(content, sp) == []
      else Remaining(content, [], sp.offset, sp.End(), SplitSpan(content, sp))
  {
    hide Pieces;
  }

  lemma TrimmedIs(content: seq<Byte>, start: nat, e: nat)
    requires start <= e <= |content|
    ensures Trimmed(content, start, e) == if e > start && content[e - 1] == RETURN then e - 1 else e
  {
  }

  lemma PiecesStep(content: seq<Byte>, start: nat, end: nat)
    requires start < end <= |content|
    ensures var e := LineEnd(content, start, end);
      Pieces(content, start, end) == OnePiece(start, Trimmed(content, start, e)) + Pieces(content, e + 1, end)
  {
    hide LineEnd, Trimmed, OnePiece;
  }

  /** `out` holds the pieces of `all` up to start. */
  ghost predicate Remaining(content: seq<Byte>, out: seq<Span>, start: nat, stop: nat, all: seq<Span>)
    requires stop <= |content|
  {
    all == out + Pieces(content, start, stop)
  }

  lemma RemainingNone(content: seq<Byte>, out: seq<Span>, start: nat, stop: nat, all: seq<Span>)
    requires stop <= |content| && stop <= start && Remaining(content, out, start, stop, all)
    ensures out == all
  {
    NothingLeft(content, start, stop);
  }

  lemma RemainingStep(content: seq<Byte>, out: seq<Span>, start: nat, stop: nat, all: seq<Span>)
    requires start < stop <= |content| && Remaining(content, out, start, stop, all)
    ensures var e := LineEnd(content, start, stop);
      var trimmed := Trimmed(content, start, e);
      && (trimmed > start ==> Remaining(content, out + [Span(start, trimmed - start)], e + 1, stop, all))
      && (trimmed <= start ==> Remaining(content, out, e + 1, stop, all))
  {
    PiecesStep(content, start, stop);
    hide Pieces, LineEnd, Trimmed;
    var e := LineEnd(content, start, stop);
    assert out + (OnePiece(start, Trimmed(content, start, e)) + Pieces(content, e + 1, stop)) ==
      out + OnePiece(start, Trimmed(content, start, e)) + Pieces(content, e + 1, stop);
  }

  function SplitSpan(content: seq<Byte>, sp: Span): seq<Span> {
    if sp.len <= 0 || sp.offset < 0 || sp.End() > |content| then [] else Pieces(content, sp.offset, sp.End())
  }

  /** A byte of the span that belongs to no piece: a newline, or a carriage return before a newline
      or at the end of the span. */
  predicate Terminator(content: seq<Byte>, i: nat, end: nat)
    requires i < end <= |content|
  {
    content[i] == 0x0A || (content[i] == 0x0D && (i + 1 == end || content[i + 1] == 0x0A))
  }

  ghost predicate InPiece(ps: seq<Span>, i: nat) {
    exists p | p in ps :: p.offset <= i < p.End()
  }

  /** The pieces cover exactly the bytes that are not terminators, each on one line. */
  lemma {:induction false} PiecesCover(content: seq<Byte>, start: nat, end: nat, i: nat)
    requires start <= i < end <= |content|
    ensures InPiece(Pieces(content, start, end), i) <==> !Terminator(content, i, end)
    decreases end - start
  {
    var e := LineEnd(content, start, end);
    if i > e {
      PiecesCover(content, e + 1, end, i);
      LaterPieces(content, start, end, i);
    } else {
      FirstPiece(content, start, end, i);
    }
  }

  lemma LaterPieces(content: seq<Byte>, start: nat, end: nat, i: nat)
    requires start < end <= |content| && LineEnd(content, start, end) < i < end
    ensures InPiece(Pieces(content, start, end), i) <==> InPiece(Pieces(content, LineEnd(content, start, end) + 1, end), i)
  {
    PiecesStep(content, start, end);
    hide Pieces, LineEnd, Trimmed;
    var rest := Pieces(content, LineEnd(content, start, end) + 1, end);
    if InPiece(rest, i) {
      var p :| p in rest && p.offset <= i < p.End();
      assert p in Pieces(content, start, end);
    }
  }

  lemma FirstPiece(content: seq<Byte>, start: nat, end: nat, i: nat)
    requires start <= i < end <= |content| && i <= LineEnd(content, start, end)
    ensures InPiece(Pieces(content, start, end), i) <==> !Terminator(content, i, end)
  {
    hide Pieces, OnePiece, LineEnd, Trimmed, Terminator, InPiece, Boundary;
    PiecesStep(content, start, end);
    TrimmedIsNotTerminator(content, start, end, i);
    var e := LineEnd(content, start, end);
    var rest := Pieces(content, e + 1, end);
    PiecesOnBoundaries(content, e + 1, end);
    InFirst(start, Trimmed(content, start, e), rest, i);
  }

  lemma InFirst(start: nat, trimmed: nat, rest: seq<Span>, i: nat)
    requires start <= i && forall p | p in rest :: i < p.offset
    ensures InPiece(OnePiece(start, trimmed) + rest, i) <==> i < trimmed
  {
    if i < trimmed {
      assert (OnePiece(start, trimmed) + rest)[0] == Span(start, trimmed - start);
    }
  }

  lemma TrimmedIsNotTerminator(content: seq<Byte>, start: nat, end: nat, i: nat)
    requires start <= i < end <= |content| && i <= LineEnd(content, start, end)
    ensures i < Trimmed(content, start, LineEnd(content, start, end)) <==> !Terminator(content, i, end)
  {
    NoNewlineBeforeEnd(content, start, end);
    hide LineEnd;
  }

  /** Pieces are non-empty, ordered, disjoint, inside the span and without newlines. */
  lemma {:induction false} PiecesInside(content: seq<Byte>, start: nat, end: nat)
    requires end <= |content|
    ensures forall p | p in Pieces(content, start, end) :: PieceOk(content, start, end, p)
    ensures InOrder(Pieces(content, start, end))
    decreases end - start
  {
    hide Pieces, LineEnd, InOrder, Trimmed, OnePiece;
    if start < end {
      PiecesStep(content, start, end);
      var e := LineEnd(content, start, end);
      var first, rest := OnePiece(start, Trimmed(content, start, e)), Pieces(content, e + 1, end);
      FirstInside(content, start, end);
      PiecesInside(content, e + 1, end);
      forall p | p in rest ensures e < p.offset && PieceOk(content, start, end, p) {
        assert PieceOk(content, e + 1, end, p);
      }
      PrependInOrder(first, rest, e);
    } else {
      NoneInside(content, start, end);
    }
  }

  lemma NoneInside(content: seq<Byte>, start: nat, end: nat)
    requires end <= start && end <= |content|
    ensures Pieces(content, start, end) == [] && InOrder([])
  {
  }

  lemma FirstInside(content: seq<Byte>, start: nat, end: nat)
    requires start < end <= |content|
    ensures var e := LineEnd(content, start, end);
      var first := OnePiece(start, Trimmed(content, start, e));
      |first| <= 1 && forall p | p in first :: p.End() <= e && PieceOk(content, start, end, p)
  {
    NoNewlineBeforeEnd(content, start, end);
    hide LineEnd;
  }

  lemma PrependInOrder(first: seq<Span>, rest: seq<Span>, e: int)
    requires |first| <= 1 && InOrder(rest)
    requires (forall p | p in first :: p.End() <= e) && forall p | p in rest :: e < p.offset
    ensures InOrder(first + rest)
  {
    forall k, l | 0 <= k < l < |first + rest| ensures (first + rest)[k].End() < (first + rest)[l].offset {
      assert (first + rest)[l] in rest;
      if k >= |first| { assert rest[k - |first|].End() < rest[l - |first|].offset; }
    }
  }

  ghost predicate PieceOk(content: seq<Byte>, start: nat, end: nat, p: Span)
    requires end <= |content|
  {
    start <= p.offset < p.End() <= end && forall j | p.offset <= j < p.End() :: content[j] != NEWLINE
  }

  ghost predicate InOrder(ps: seq<Span>) {
    forall k, l | 0 <= k < l < |ps| :: ps[k].End() < ps[l].offset
  }

  /** Pieces start on character boundaries, save one at the very start of a span that does not. */
  lemma {:induction false} PiecesOnBoundaries(content: seq<Byte>, start: nat, end: nat)
    requires end <= |content|
    ensures forall p | p in Pieces(content, start, end) ::
      p.offset >= start && (p.offset > start || Boundary(content, start) ==> Boundary(content, p.offset))
    decreases end - start
  {
    if start < end {
      PiecesStep(content, start, end);
      hide Pieces, LineEnd, Trimmed, ReachesFrom;
      var e := LineEnd(content, start, end);
      PiecesOnBoundaries(content, e + 1, end);
      if e < end {
        StopsAtNewline(content, 0, e);
      } else {
        NothingLeft(content, e + 1, end);
      }
    }
  }

  lemma NothingLeft(content: seq<Byte>, start: nat, end: nat)
    requires end <= start && end <= |content|
    ensures Pieces(content, start, end) == []
  {
  }

  // ----- Delta encoding -----

  const UINT32 := 0x1_0000_0000

  /** A highlighted token: its byte span, its class and its modifier set. */
  datatype Token = Token(span: Span, class_: nat, modifiers: nat)

  /** What a client is to know about one line piece of a token. */
  datatype Piece = Piece(line: nat, column: nat, length: nat, class_: nat, modifiers: nat) {
    ghost predicate Fits32() {
      line < UINT32 && column < UINT32 && length < UINT32 && class_ < UINT32 && modifiers < UINT32
    }
  }

  function PieceAt(content: seq<Byte>, tok: Token, part: Span): (p: Piece)
    requires 0 <= part.offset <= part.End() <= |content|
    ensures p.Fits32()
  {
    var pos := PositionOf(content, NextBoundary(content, 0, part.offset));
    Piece(pos.line, pos.character, Clamp32(Units(content, part.offset, part.End())), Clamp32(tok.class_), tok.modifiers % UINT32)
  }

  function TokenPieces(content: seq<Byte>, tok: Token, parts: seq<Span>): (ps: seq<Piece>)
    requires forall p | p in parts :: 0 <= p.offset <= p.End() <= |content|
    ensures |ps| == |parts| && forall i | 0 <= i < |ps| :: ps[i] == PieceAt(content, tok, parts[i])
  {
    seq(|parts|, i requires 0 <= i < |parts| => PieceAt(content, tok, parts[i]))
  }

  lemma PartsInside(content: seq<Byte>, sp: Span)
    ensures forall p | p in SplitSpan(content, sp) :: 0 <= p.offset <= p.End() <= |content|
  {
    if !(sp.len <= 0 || sp.offset < 0 || sp.End() > |content|) {
      PiecesInside(content, sp.offset, sp.End());
      assert forall p | p in SplitSpan(content, sp) :: PieceOk(content, sp.offset, sp.End(), p);
    }
  }

  /** A span that is empty or leaves the text has no pieces; those of any other hold exactly its bytes
      that end no line. */
  lemma SplitSpanMeaning(content: seq<Byte>, sp: Span)
    ensures sp.len <= 0 || sp.offset < 0 || sp.offset + sp.len > |content| ==> SplitSpan(content, sp) == []
    ensures sp.len > 0 && sp.offset >= 0 && sp.offset + sp.len <= |content| ==>
      && InOrder(SplitSpan(content, sp))
      && (forall p | p in SplitSpan(content, sp) :: PieceOk(content, sp.offset, sp.End(), p))
      && forall i: nat :: InPiece(SplitSpan(content, sp), i) <==> sp.offset <= i < sp.End() && !Terminator(content, i, sp.End())
  {
    if sp.len > 0 && sp.offset >= 0 && sp.offset + sp.len <= |content| {
      hide Pieces, InOrder, Terminator;
      PiecesInside(content, sp.offset, sp.End());
      forall i: nat
        ensures InPiece(SplitSpan(content, sp), i) <==> sp.offset <= i < sp.End() && !Terminator(content, i, sp.End())
      {
        if sp.offset <= i < sp.End() { PiecesCover(content, sp.offset, sp.End(), i); }
      }
    }
  }

  /** Every line piece of every token, in order. */
  function AllPieces(content: seq<Byte>, toks: seq<Token>): seq<Piece> {
    if toks == [] then []
    else
      var last := toks[|toks| - 1];
      PartsInside(content, last.span);
      AllPieces(content, toks[..|toks| - 1]) + TokenPieces(content, last, SplitSpan(content, last.span))
  }

  function Sub32(a: nat, b: nat): nat {
    (a - b) % UINT32
  }

  function Add32(a: nat, b: nat): nat {
    (a + b) % UINT32
  }

  /** One piece relative to its predecessor, in the protocol's 32-bit arithmetic. */
  function Relative(p: Piece, line: nat, column: nat): seq<nat> {
    var deltaLine := Sub32(p.line, line);
    [deltaLine, if deltaLine == 0 then Sub32(p.column, column) else p.column, p.length, p.class_, p.modifiers]
  }

  function Encoded(ps: seq<Piece>): seq<nat> {
    if ps == [] then []
    else
      var n := |ps| - 1;
      Encoded(ps[..n]) + Relative(ps[n], LastLine(ps[..n]), LastColumn(ps[..n]))
  }

  function LastLine(ps: seq<Piece>): nat { if ps == [] then 0 else ps[|ps| - 1].line }

  function LastColumn(ps: seq<Piece>): nat { if ps == [] then 0 else ps[|ps| - 1].column }

  lemma EncodedStart()
    ensures Encoded([]) == [] && LastLine([]) == 0 && LastColumn([]) == 0
  {
  }

  lemma EncodedAppend(done: seq<Piece>, p: Piece)
    ensures Encoded(done + [p]) == Encoded(done) + Relative(p, LastLine(done), LastColumn(done))
    ensures LastLine(done + [p]) == p.line && LastColumn(done + [p]) == p.column
  {
    assert (done + [p])[..|done|] == done;
  }

  lemma NoPieces(content: seq<Byte>)
    ensures AllPieces(content, []) == []
  {
  }

  lemma PiecesNext(content: seq<Byte>, toks: seq<Token>, t: nat)
    requires t < |toks|
    ensures var parts := SplitSpan(content, toks[t].span);
      && (forall p | p in parts :: 0 <= p.offset <= p.End() <= |content|)
      && AllPieces(content, toks[..t + 1]) == AllPieces(content, toks[..t]) + TokenPieces(content, toks[t], parts)
  {
    hide SplitSpan, TokenPieces;
    PartsInside(content, toks[t].span);
    assert toks[..t + 1][..t] == toks[..t];
  }

  /** encodeTokens: five numbers a piece, relative to the piece before. */
  method EncodeTokens(content: seq<Byte>, toks: seq<Token>) returns (data: seq<nat>)
    ensures data == Encoded(AllPieces(content, toks))
    ensures Carries(content, toks, data)
  {
    hide Carries, Encoded, Relative, PositionOf, NextBoundary, Units, SplitSpan, LastLine, LastColumn, Clamp32, AllPieces;
    EncodedStart();
    NoPieces(content);
    data := [];
    var prevLine, prevColumn := 0, 0;
    var cursor := new LineCursor(content);
    ghost var done: seq<Piece> := [];
    for t := 0 to |toks|
      invariant cursor.Valid() && cursor.content == content && fresh(cursor)
      invariant done == AllPieces(content, toks[..t]) && data == Encoded(done)
      invariant prevLine == LastLine(done) && prevColumn == LastColumn(done)
    {
      var tok := toks[t];
      PiecesNext(content, toks, t);
      var parts := SplitLines(content, tok.span);
      ghost var before, pieces := done, TokenPieces(content, tok, parts);
      for i := 0 to |parts|
        invariant cursor.Valid() && cursor.content == content && fresh(cursor)
        invariant done == before + pieces[..i] && data == Encoded(done)
        invariant prevLine == LastLine(done) && prevColumn == LastColumn(done)
      {
        var part := parts[i];
        var pos := cursor.PositionAt(part.offset);
        var length := Utf16Len(content, part.offset, part.End());
        var p := Piece(pos.line, pos.character, Clamp32(length), Clamp32(tok.class_), tok.modifiers % UINT32);
        assert p == pieces[i];
        EncodedAppend(done, p);
        assert pieces[..i + 1] == pieces[..i] + [p];
        data := data + Relative(p, prevLine, prevColumn);
        prevLine, prevColumn := pos.line, pos.character;
        done := done + [p];
      }
      assert pieces[..|parts|] == pieces;
    }
    assert toks[..|toks|] == toks;
    EncodedCarries(content, toks);
  }

  // ----- Decoding -----

  /** The client's rule: the line is relative to the previous token's, the column too when they share
      a line. `wrap` is how the client adds. */
  function Decoded(data: seq<nat>, wrap: bool): seq<Piece> {
    if |data| < 5 then []
    else
      var n := |data| - 5;
      var ps := Decoded(data[..n], wrap);
      ps + [Absolute(data[n..], LastLine(ps), LastColumn(ps), wrap)]
  }

  function Absolute(five: seq<nat>, line: nat, column: nat, wrap: bool): Piece
    requires |five| == 5
  {
    Piece(Plus(line, five[0], wrap), if five[0] == 0 then Plus(column, five[1], wrap) else five[1],
          five[2], five[3], five[4])
  }

  function Plus(a: nat, b: nat, wrap: bool): nat {
    if wrap then Add32(a, b) else a + b
  }

  /** Each piece starts no earlier than the one before it. */
  ghost predicate InDocumentOrder(ps: seq<Piece>) {
    forall i | 0 <= i < |ps| :: NotBefore(ps[i], LastLine(ps[..i]), LastColumn(ps[..i]))
  }

  ghost predicate NotBefore(p: Piece, line: nat, column: nat) {
    p.line > line || (p.line == line && p.column >= column)
  }

  ghost predicate AllFit(ps: seq<Piece>) {
    forall p | p in ps :: p.Fits32()
  }

  lemma DecodedAppend(ps: seq<Piece>, p: Piece, wrap: bool)
    ensures var d := Decoded(Encoded(ps), wrap);
      Decoded(Encoded(ps + [p]), wrap) ==
        d + [Absolute(Relative(p, LastLine(ps), LastColumn(ps)), LastLine(d), LastColumn(d), wrap)]
  {
    var data, tail := Encoded(ps), Relative(p, LastLine(ps), LastColumn(ps));
    EncodedAppend(ps, p);
    assert (data + tail)[..|data|] == data && (data + tail)[|data|..] == tail;
  }

  lemma OneDelta(p: Piece, line: nat, column: nat)
    requires p.Fits32() && line < UINT32 && column < UINT32
    ensures Absolute(Relative(p, line, column), line, column, true) == p
    ensures Absolute(Relative(p, line, column), line, column, false) == p <==> NotBefore(p, line, column)
  {
    hide Plus, Sub32;
    OneDifference(p.line, line);
    OneDifference(p.column, column);
  }

  lemma OneDifference(a: nat, b: nat)
    requires a < UINT32 && b < UINT32
    ensures Plus(b, Sub32(a, b), true) == a
    ensures Plus(b, Sub32(a, b), false) == a <==> b <= a
    ensures Sub32(a, b) == 0 <==> a == b
  {
  }

  lemma LastFits(ps: seq<Piece>)
    requires AllFit(ps)
    ensures LastLine(ps) < UINT32 && LastColumn(ps) < UINT32
  {
    if ps != [] { assert ps[|ps| - 1] in ps; }
  }

  /** A client adding in 32 bits recovers every piece, in whatever order the tokens come. */
  lemma {:induction false} DecodeEncoded(ps: seq<Piece>)
    requires AllFit(ps)
    ensures Decoded(Encoded(ps), true) == ps
  {
    if ps != [] {
      hide Absolute, Relative, LastLine, LastColumn, Encoded, Decoded;
      var before, p := ps[..|ps| - 1], ps[|ps| - 1];
      assert ps == before + [p];
      DecodeEncoded(before);
      DecodedAppend(before, p, true);
      LastFits(before);
      OneDelta(p, LastLine(before), LastColumn(before));
    }
  }

  /** A client adding without wrap-around recovers them exactly when they come in document order. */
  lemma {:induction false} PlainDecodeEncoded(ps: seq<Piece>)
    requires AllFit(ps)
    ensures |Decoded(Encoded(ps), false)| == |ps|
    ensures Decoded(Encoded(ps), false) == ps <==> InDocumentOrder(ps)
  {
    if ps != [] {
      hide Absolute, Relative, LastLine, LastColumn, Encoded, Decoded;
      var before, p := ps[..|ps| - 1], ps[|ps| - 1];
      assert ps == before + [p];
      PlainDecodeEncoded(before);
      DecodedAppend(before, p, false);
      LastFits(before);
      OneDelta(p, LastLine(before), LastColumn(before));
      OrderedPrefix(ps);
      assert Decoded(Encoded(ps), false)[..|ps| - 1] == Decoded(Encoded(before), false);
    }
  }

  lemma OrderedPrefix(ps: seq<Piece>)
    requires ps != []
    ensures var n := |ps| - 1;
      InDocumentOrder(ps) <==> InDocumentOrder(ps[..n]) && NotBefore(ps[n], LastLine(ps[..n]), LastColumn(ps[..n]))
  {
    var n := |ps| - 1;
    assert forall i | 0 <= i < n :: ps[..n][..i] == ps[..i];
  }

  /** From the encoding of any tokens a client recovers every line piece. Its position is the one
      offsetToPosition gives its start exactly where that reads exactly, as it does on a boundary: for
      every piece of a token that starts on one, and for every piece but the first of any token. */
  lemma TokensRecovered(content: seq<Byte>, toks: seq<Token>)
    ensures Decoded(Encoded(AllPieces(content, toks)), true) == AllPieces(content, toks)
    ensures forall tok, part | tok in toks && part in SplitSpan(content, tok.span) ::
      && 0 <= tok.span.offset <= part.offset <= part.End() <= |content|
      && (PlacedAt(PieceAt(content, tok, part), PositionOf(content, part.offset)) <==> ReadExactly(content, part.offset))
      && (part.offset > tok.span.offset || Boundary(content, tok.span.offset) ==> ReadExactly(content, part.offset))
  {
    PiecesFit(content, toks);
    DecodeEncoded(AllPieces(content, toks));
    forall tok, part | tok in toks && part in SplitSpan(content, tok.span)
      ensures 0 <= tok.span.offset <= part.offset <= part.End() <= |content|
      ensures PlacedAt(PieceAt(content, tok, part), PositionOf(content, part.offset)) <==> ReadExactly(content, part.offset)
      ensures part.offset > tok.span.offset || Boundary(content, tok.span.offset) ==> ReadExactly(content, part.offset)
    {
      PartsInside(content, tok.span);
      PiecesOnBoundaries(content, tok.span.offset, tok.span.End());
      CursorExactly(content, part.offset);
    }
  }

  predicate PlacedAt(p: Piece, pos: Position) {
    p.line == pos.line && p.column == pos.character
  }

  // ----- What the encoding carries, number by number -----

  /** How many line pieces the first t tokens have. */
  function PartsBefore(content: seq<Byte>, toks: seq<Token>, t: nat): nat
    requires t <= |toks|
  {
    if t == 0 then 0 else PartsBefore(content, toks, t - 1) + |SplitSpan(content, toks[t - 1].span)|
  }

  /** n brought into 32 bits. */
  predicate Clamped(n: nat, r: nat) {
    r == n || (n > 0xFFFF_FFFF && r == 0xFFFF_FFFF)
  }

  /** The position at k is that at k - 1 moved by the first two of the five numbers, in 32 bits. */
  ghost predicate MovesBy(data: seq<nat>, k: nat, line: nat, column: nat) {
    && 5 * k + 5 <= |data| && k < |Decoded(data, true)|
    && Decoded(data, true)[k].line == (line + data[5 * k]) % 0x1_0000_0000
    && Decoded(data, true)[k].column == if data[5 * k] == 0 then (column + data[5 * k + 1]) % 0x1_0000_0000 else data[5 * k + 1]
  }

  /** The k-th five numbers describe this part of this token: its UTF-16 length, class and modifiers,
      and, decoded, the position of the first character boundary at or after its start. */
  ghost predicate CarriesPart(content: seq<Byte>, tok: Token, part: Span, data: seq<nat>, k: nat) {
    && 0 <= part.offset <= part.End() <= |content| && 5 * k + 5 <= |data| && k < |Decoded(data, true)|
    && Clamped(Units(content, part.offset, part.End()), data[5 * k + 2])
    && Clamped(tok.class_, data[5 * k + 3])
    && data[5 * k + 4] == tok.modifiers % 0x1_0000_0000
    && PlacedAt(Decoded(data, true)[k], PositionOf(content, NextBoundary(content, 0, part.offset)))
    && (if k == 0 then MovesBy(data, 0, 0, 0)
        else MovesBy(data, k, Decoded(data, true)[k - 1].line, Decoded(data, true)[k - 1].column))
  }

  /** Five numbers for each part of each token, token after token and part after part. */
  ghost predicate Carries(content: seq<Byte>, toks: seq<Token>, data: seq<nat>) {
    && |data| == 5 * PartsBefore(content, toks, |toks|)
    && forall t: nat, j: nat | t < |toks| && j < |SplitSpan(content, toks[t].span)| ::
         CarriesPart(content, toks[t], SplitSpan(content, toks[t].span)[j], data, PartsBefore(content, toks, t) + j)
  }

  lemma {:induction false} PiecesCounted(content: seq<Byte>, toks: seq<Token>, t: nat)
    requires t <= |toks|
    ensures |AllPieces(content, toks[..t])| == PartsBefore(content, toks, t)
  {
    hide SplitSpan, AllPieces, PieceAt;
    if t > 0 {
      PiecesCounted(content, toks, t - 1);
      PiecesNext(content, toks, t - 1);
    } else {
      NoPieces(content);
      assert toks[..0] == [];
    }
  }

  lemma {:induction false} PieceStands(content: seq<Byte>, toks: seq<Token>, n: nat, t: nat, j: nat)
    requires t < n <= |toks| && j < |SplitSpan(content, toks[t].span)|
    ensures var part, k := SplitSpan(content, toks[t].span)[j], PartsBefore(content, toks, t) + j;
      && 0 <= part.offset <= part.End() <= |content|
      && k < |AllPieces(content, toks[..n])| && AllPieces(content, toks[..n])[k] == PieceAt(content, toks[t], part)
  {
    hide SplitSpan, AllPieces, PieceAt, PartsBefore;
    PartsInside(content, toks[t].span);
    PiecesNext(content, toks, n - 1);
    if t < n - 1 {
      PieceStands(content, toks, n - 1, t, j);
    } else {
      PiecesCounted(content, toks, t);
    }
  }

  lemma {:induction false} EncodedAt(ps: seq<Piece>, k: nat)
    requires k < |ps|
    ensures |Encoded(ps)| == 5 * |ps|
    ensures var d := Encoded(ps); d[5 * k + 2] == ps[k].length && d[5 * k + 3] == ps[k].class_ && d[5 * k + 4] == ps[k].modifiers
  {
    var n := |ps| - 1;
    if n > 0 { EncodedAt(ps[..n], if k < n then k else 0); }
  }

  lemma {:induction false} EncodedMoves(ps: seq<Piece>, k: nat)
    requires k < |ps|
    ensures |Encoded(ps)| == 5 * |ps|
    ensures var d, line, column := Encoded(ps), LastLine(ps[..k]), LastColumn(ps[..k]);
      && d[5 * k] == Sub32(ps[k].line, line)
      && d[5 * k + 1] == if d[5 * k] == 0 then Sub32(ps[k].column, column) else ps[k].column
  {
    hide Sub32, LastLine, LastColumn;
    var n := |ps| - 1;
    EncodedAt(ps, k);
    if k < n {
      EncodedMoves(ps[..n], k);
      assert ps[..n][..k] == ps[..k];
    }
  }

  lemma PieceMoves(ps: seq<Piece>, k: nat)
    requires k < |ps| && AllFit(ps) && Decoded(Encoded(ps), true) == ps
    ensures k == 0 ==> MovesBy(Encoded(ps), 0, 0, 0)
    ensures k > 0 ==> MovesBy(Encoded(ps), k, ps[k - 1].line, ps[k - 1].column)
  {
    hide Encoded, Decoded, Sub32;
    EncodedMoves(ps, k);
    LastFits(ps[..k]);
    assert ps[k] in ps;
    OneDifference(ps[k].line, LastLine(ps[..k]));
    OneDifference(ps[k].column, LastColumn(ps[..k]));
  }

  lemma PieceCarried(content: seq<Byte>, tok: Token, part: Span, ps: seq<Piece>, k: nat)
    requires 0 <= part.offset <= part.End() <= |content|
    requires k < |ps| && ps[k] == PieceAt(content, tok, part) && Decoded(Encoded(ps), true) == ps && AllFit(ps)
    ensures CarriesPart(content, tok, part, Encoded(ps), k)
  {
    hide Encoded, Decoded, NextBoundary, PositionOf, Units, AllFit;
    EncodedAt(ps, k);
    PieceMoves(ps, k);
  }

  lemma EncodedCarries(content: seq<Byte>, toks: seq<Token>)
    ensures Carries(content, toks, Encoded(AllPieces(content, toks)))
  {
    hide SplitSpan, AllPieces, PieceAt, Encoded, Decoded, PartsBefore, CarriesPart, AllFit;
    var ps := AllPieces(content, toks);
    assert toks[..|toks|] == toks;
    PiecesCounted(content, toks, |toks|);
    PiecesFit(content, toks);
    DecodeEncoded(ps);
    if ps == [] { EncodedStart(); } else { EncodedAt(ps, 0); }
    forall t: nat, j: nat | t < |toks| && j < |SplitSpan(content, toks[t].span)|
      ensures CarriesPart(content, toks[t], SplitSpan(content, toks[t].span)[j], Encoded(ps), PartsBefore(content, toks, t) + j)
    {
      PieceStands(content, toks, |toks|, t, j);
      PieceCarried(content, toks[t], SplitSpan(content, toks[t].span)[j], ps, PartsBefore(content, toks, t) + j);
    }
  }

  /** A token that starts on the last byte of a three-byte character is encoded at column 1, behind the
      character, where offsetToPosition counts the two bytes before it. */
  lemma InsideCharacter()
    ensures var content: seq<Byte>, tok := [0xE2, 0x82, 0xAC], Token(Span(2, 1), 0, 0);
      && SplitSpan(content, tok.span) == [Span(2, 1)]
      && PieceAt(content, tok, Span(2, 1)).column == 1 && PositionOf(content, 2).character == 2
      && !ReadExactly(content, 2)
  {
    var content: seq<Byte> := [0xE2, 0x82, 0xAC];
    assert SizeAt(content, 0, 3) == 3 && RuneAt(content, 0, 3) == 0x20AC;
    assert NextBoundary(content, 0, 2) == 3 && LastBoundary(content, 0, 2) == 0;
    assert LineStart(content, 3) == LineStart(content, 2) == LineStart(content, 1) == LineStart(content, 0) == 0;
    assert Units(content, 3, 3) == 0;
    assert Units(content, 0, 2) == 2 by { UnitsOfBytes(content, 0, 0, 2); }
    assert LineEnd(content, 2, 3) == 3 && Trimmed(content, 2, 3) == 3;
    NothingLeft(content, 4, 3);
  }

  lemma {:induction false} PiecesFit(content: seq<Byte>, toks: seq<Token>)
    ensures AllFit(AllPieces(content, toks))
  {
    if toks != [] {
      var last := toks[|toks| - 1];
      PartsInside(content, last.span);
      PiecesFit(content, toks[..|toks| - 1]);
    }
  }

  // ----- Tokens in document order -----

  ghost predicate Sequential(content: seq<Byte>, toks: seq<Token>) {
    && (forall t | t in toks :: 0 <= t.span.offset <= t.span.End() <= |content|)
    && (forall i, j | 0 <= i < j < |toks| :: toks[i].span.End() <= toks[j].span.offset)
  }

  /** The position the cursor reports for o. */
  function ReportedAt(content: seq<Byte>, o: nat): Position
    requires o <= |content|
  {
    PositionOf(content, NextBoundary(content, 0, o))
  }

  lemma ColumnsGrow(content: seq<Byte>, x: nat, y: nat)
    requires x <= y && Boundary(content, x) && Boundary(content, y) && LineAt(content, x) == LineAt(content, y)
    ensures Column(content, x) <= Column(content, y)
  {
    hide LineAt, LineStart, ReachesFrom, Units;
    var s := LineStart(content, y);
    SameLine(content, s, y);
    LinesApart(content, x, s);
    SameLine(content, s, x);
    LineStartIsBoundary(content, y);
    ReachesBetween(content, 0, s, x);
    if x < y {
      EarlierIsShorter(content, s, x, y);
      SkipUnitsFinds(content, s, y, 0);
    }
  }

  lemma ReportedMonotone(content: seq<Byte>, a: nat, b: nat)
    requires a <= b <= |content| && LineAt(content, |content|) <= MAX_UINT32
    ensures var p, q := ReportedAt(content, a), ReportedAt(content, b);
      q.line > p.line || (q.line == p.line && q.character >= p.character)
  {
    hide LineAt, Column, ReachesFrom;
    var x, y := NextBoundary(content, 0, a), NextBoundary(content, 0, b);
    NextIsLeast(content, 0, a, y);
    LinesGrow(content, x, y);
    LinesGrow(content, y, |content|);
    if LineAt(content, x) == LineAt(content, y) {
      ColumnsGrow(content, x, y);
    }
  }

  /** Nothing reported from o on comes before the pieces already encoded. */
  ghost predicate Behind(content: seq<Byte>, ps: seq<Piece>, o: nat)
    requires o <= |content|
  {
    forall b | o <= b <= |content| ::
      var q := ReportedAt(content, b);
      q.line > LastLine(ps) || (q.line == LastLine(ps) && q.character >= LastColumn(ps))
  }

  lemma {:induction false} PartsInOrder(content: seq<Byte>, before: seq<Piece>, tok: Token, parts: seq<Span>, from: nat, end: nat)
    requires from <= end <= |content| && LineAt(content, |content|) <= MAX_UINT32
    requires InDocumentOrder(before) && Behind(content, before, from)
    requires InOrder(parts) && forall p | p in parts :: from <= p.offset <= p.End() <= end
    ensures InDocumentOrder(before + TokenPieces(content, tok, parts))
    ensures Behind(content, before + TokenPieces(content, tok, parts), end)
  {
    hide ReportedAt, InDocumentOrder, InOrder;
    var n := |parts| - 1;
    if parts == [] {
      assert before + TokenPieces(content, tok, parts) == before;
    } else {
      PrefixParts(parts, from, end);
      PartsInOrder(content, before, tok, parts[..n], from, parts[n].offset);
      PiecesAppend(content, before, tok, parts);
      PieceReported(content, tok, parts[n]);
      PieceInOrder(content, before + TokenPieces(content, tok, parts[..n]), PieceAt(content, tok, parts[n]), parts[n].offset, end);
    }
  }

  lemma PrefixParts(parts: seq<Span>, from: nat, end: nat)
    requires parts != [] && InOrder(parts) && forall p | p in parts :: from <= p.offset <= p.End() <= end
    ensures var n := |parts| - 1;
      && InOrder(parts[..n]) && from <= parts[n].offset <= parts[n].End() <= end
      && forall p | p in parts[..n] :: from <= p.offset <= p.End() <= parts[n].offset
  {
  }

  lemma PiecesAppend(content: seq<Byte>, before: seq<Piece>, tok: Token, parts: seq<Span>)
    requires parts != [] && forall p | p in parts :: 0 <= p.offset <= p.End() <= |content|
    ensures var n := |parts| - 1;
      before + TokenPieces(content, tok, parts) ==
        before + TokenPieces(content, tok, parts[..n]) + [PieceAt(content, tok, parts[n])]
  {
    hide PieceAt;
    var n := |parts| - 1;
    assert TokenPieces(content, tok, parts) == TokenPieces(content, tok, parts[..n]) + [PieceAt(content, tok, parts[n])];
  }

  lemma PieceReported(content: seq<Byte>, tok: Token, part: Span)
    requires 0 <= part.offset <= part.End() <= |content|
    ensures var p := PieceAt(content, tok, part); Position(p.line, p.column) == ReportedAt(content, part.offset)
  {
  }

  lemma PieceInOrder(content: seq<Byte>, done: seq<Piece>, p: Piece, o: nat, end: nat)
    requires o <= end <= |content| && LineAt(content, |content|) <= MAX_UINT32
    requires InDocumentOrder(done) && Behind(content, done, o)
    requires Position(p.line, p.column) == ReportedAt(content, o)
    ensures InDocumentOrder(done + [p]) && Behind(content, done + [p], end)
  {
    hide ReportedAt;
    assert (done + [p])[..|done|] == done;
    OrderedPrefix(done + [p]);
    forall b | end <= b <= |content| { ReportedMonotone(content, o, b); }
  }

  /** Tokens that follow one another in the text are encoded so that even a client adding without
      wrap-around recovers them. */
  lemma {:induction false} SequentialTokensInOrder(content: seq<Byte>, toks: seq<Token>)
    requires Sequential(content, toks) && LineAt(content, |content|) <= MAX_UINT32
    ensures InDocumentOrder(AllPieces(content, toks))
    ensures Behind(content, AllPieces(content, toks), if toks == [] then 0 else toks[|toks| - 1].span.End())
    ensures Decoded(Encoded(AllPieces(content, toks)), false) == AllPieces(content, toks)
  {
    if toks != [] {
      var n := |toks| - 1;
      var sp := toks[n].span;
      SequentialTokensInOrder(content, toks[..n]);
      PartsInside(content, sp);
      if sp.len > 0 {
        PiecesInside(content, sp.offset, sp.End());
        assert forall p | p in SplitSpan(content, sp) :: PieceOk(content, sp.offset, sp.End(), p);
      }
      PartsInOrder(content, AllPieces(content, toks[..n]), toks[n], SplitSpan(content, sp), sp.offset, sp.End());
    }
    PiecesFit(content, toks);
    PlainDecodeEncoded(AllPieces(content, toks));
  }
}
