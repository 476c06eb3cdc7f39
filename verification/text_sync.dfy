/** Document synchronisation (internal/lsp/handler.go).

    The server keeps the document as UTF-8 bytes, the client as UTF-16 code units, and every change is
    a full text or a range in the client's line and column terms. The server's text is proved to
    refine the client's over every run of changes whose positions the two read alike. */
module TextSync {
  import opened Utf
  import opened Positions

  datatype Option<+T> = None | Some(value: T)

  /** A content change: no range means a full replacement. */
  datatype Change = Change(range: Option<Range>, text: seq<Scalar>)

  /** The document as bytes and as code units. */
  function Utf8(doc: seq<Scalar>): seq<Byte> {
    if doc == [] then [] else Utf8(doc[..|doc| - 1]) + Encode(doc[|doc| - 1])
  }

  function Utf16(doc: seq<Scalar>): seq<int> {
    if doc == [] then [] else Utf16(doc[..|doc| - 1]) + Encode16(doc[|doc| - 1])
  }

  // ----- The server -----

  /** applyRawContentChange. */
  function Applied(content: seq<Byte>, ch: Change): seq<Byte> {
    match ch.range
    case None => Utf8(ch.text)
    case Some(r) =>
      var sp := SpanOf(content, r);
      content[..sp.offset] + Utf8(ch.text) + content[sp.End()..]
  }

  method ApplyRawContentChange(content: seq<Byte>, ch: Change) returns (out: seq<Byte>)
    ensures out == Applied(content, ch)
  {
    if ch.range.None? {
      return Utf8(ch.text);
    }
    var sp := RangeToSpan(content, ch.range.value);
    var start := sp.offset;
    var end := sp.End();
    if start > |content| {
      start := |content|;
    }
    if end > |content| {
      end := |content|;
    }
    out := content[..start] + Utf8(ch.text) + content[end..];
  }

  function ServerRun(content: seq<Byte>, changes: seq<Change>): seq<Byte> {
    if changes == [] then content else Applied(ServerRun(content, changes[..|changes| - 1]), changes[|changes| - 1])
  }

  /** applyDidChange's fold over the changes of one notification. */
  method ApplyDidChange(content: seq<Byte>, changes: seq<Change>) returns (out: seq<Byte>)
    ensures out == ServerRun(content, changes)
  {
    out := content;
    for i := 0 to |changes|
      invariant out == ServerRun(content, changes[..i])
    {
      assert changes[..i + 1][..i] == changes[..i];
      out := ApplyRawContentChange(out, changes[i]);
    }
    assert changes[..|changes|] == changes;
  }

  // ----- The client, by the "Position" section of LSP 3.17 -----

  const LF := 0x0A
  const CR := 0x0D

  /** How many code units the line ending at i takes: \n, \r\n or \r; 0 when there is none. */
  function EolAt(u: seq<int>, i: nat): nat
    requires i < |u|
  {
    if u[i] == CR && i + 1 < |u| && u[i + 1] == LF then 2 else if u[i] == CR || u[i] == LF then 1 else 0
  }

  function ClientLines(u: seq<int>, i: nat, n: nat): (o: nat)
    requires i <= |u|
    ensures i <= o <= |u|
    decreases |u| - i
  {
    if n == 0 || i == |u| then i
    else if EolAt(u, i) > 0 then ClientLines(u, i + EolAt(u, i), n - 1)
    else ClientLines(u, i + 1, n)
  }

  /** A column beyond the line's length means its length. */
  function ClientColumn(u: seq<int>, i: nat, n: nat): (o: nat)
    requires i <= |u|
    ensures i <= o <= |u|
    decreases |u| - i
  {
    if n == 0 || i == |u| || EolAt(u, i) > 0 then i else ClientColumn(u, i + 1, n - 1)
  }

  function ClientOffset(u: seq<int>, pos: Position): (o: nat)
    ensures o <= |u|
  {
    ClientColumn(u, ClientLines(u, 0, pos.line), pos.character)
  }

  function ClientApplied(u: seq<int>, ch: Change): seq<int> {
    match ch.range
    case None => Utf16(ch.text)
    case Some(r) =>
      var start, end := ClientOffset(u, r.start), ClientOffset(u, r.end);
      u[..start] + Utf16(ch.text) + u[if end < start then start else end..]
  }

  function ClientRun(u: seq<int>, changes: seq<Change>): seq<int> {
    if changes == [] then u else ClientApplied(ClientRun(u, changes[..|changes| - 1]), changes[|changes| - 1])
  }

  // ----- Scalars in both encodings -----

  /** Byte and code-unit offsets of the i-th scalar. */
  function ByteOffset(doc: seq<Scalar>, i: nat): nat
    requires i <= |doc|
  {
    |Utf8(doc[..i])|
  }

  function UnitOffset(doc: seq<Scalar>, i: nat): nat
    requires i <= |doc|
  {
    |Utf16(doc[..i])|
  }

  lemma DropLast<T>(a: seq<T>, b: seq<T>)
    requires b != []
    ensures var ab := a + b;
      ab != [] && ab[..|ab| - 1] == a + b[..|b| - 1] && ab[|ab| - 1] == b[|b| - 1]
  {
  }

  lemma Associative<T>(x: seq<T>, y: seq<T>, z: seq<T>)
    ensures (x + y) + z == x + (y + z)
  {
  }

  lemma {:induction false} Utf8Concat(a: seq<Scalar>, b: seq<Scalar>)
    ensures Utf8(a + b) == Utf8(a) + Utf8(b)
  {
    var ab, last := a + b, |b| - 1;
    if b == [] {
      assert ab == a;
    } else {
      Utf8Concat(a, b[..last]);
      DropLast(a, b);
      var x, y, z := Utf8(a), Utf8(b[..last]), Encode(b[last]);
      assert Utf8(ab) == (x + y) + z && Utf8(b) == y + z;
      hide Utf8, Encode;
      Associative(x, y, z);
    }
  }

  lemma {:induction false} Utf16Concat(a: seq<Scalar>, b: seq<Scalar>)
    ensures Utf16(a + b) == Utf16(a) + Utf16(b)
  {
    var ab, last := a + b, |b| - 1;
    if b == [] {
      assert ab == a;
    } else {
      Utf16Concat(a, b[..last]);
      DropLast(a, b);
      var x, y, z := Utf16(a), Utf16(b[..last]), Encode16(b[last]);
      assert Utf16(ab) == (x + y) + z && Utf16(b) == y + z;
      hide Utf16, Encode16;
      Associative(x, y, z);
    }
  }

  lemma Split8(doc: seq<Scalar>, i: nat)
    requires i <= |doc|
    ensures ByteOffset(doc, i) <= |Utf8(doc)|
    ensures Utf8(doc)[..ByteOffset(doc, i)] == Utf8(doc[..i]) && Utf8(doc)[ByteOffset(doc, i)..] == Utf8(doc[i..])
  {
    hide Utf8;
    Utf8Concat(doc[..i], doc[i..]);
    assert doc == doc[..i] + doc[i..];
    var x, y := Utf8(doc[..i]), Utf8(doc[i..]);
    assert (x + y)[..|x|] == x && (x + y)[|x|..] == y;
  }

  lemma Split16(doc: seq<Scalar>, i: nat)
    requires i <= |doc|
    ensures UnitOffset(doc, i) <= |Utf16(doc)|
    ensures Utf16(doc)[..UnitOffset(doc, i)] == Utf16(doc[..i]) && Utf16(doc)[UnitOffset(doc, i)..] == Utf16(doc[i..])
  {
    hide Utf16;
    Utf16Concat(doc[..i], doc[i..]);
    assert doc == doc[..i] + doc[i..];
    var x, y := Utf16(doc[..i]), Utf16(doc[i..]);
    assert (x + y)[..|x|] == x && (x + y)[|x|..] == y;
  }

  lemma LfIsOneByte(s: Scalar)
    ensures s == LF ==> |Encode(s)| == 1
  {
  }

  lemma Utf8Next(doc: seq<Scalar>, i: nat)
    requires i < |doc|
    ensures Utf8(doc[..i + 1]) == Utf8(doc[..i]) + Encode(doc[i])
  {
    assert doc[..i + 1][..i] == doc[..i];
  }

  /** The i-th scalar in the bytes. */
  lemma ScalarBytes(doc: seq<Scalar>, i: nat)
    requires i < |doc|
    ensures var b := ByteOffset(doc, i); var next := ByteOffset(doc, i + 1); var content := Utf8(doc);
      && next == b + |Encode(doc[i])| && next <= |content|
      && RuneAt(content, b, |content|) == doc[i] && b + SizeAt(content, b, |content|) == next
      && (forall j | b <= j < next :: content[j] == NEWLINE <==> doc[i] == LF)
  {
    hide Utf8, RuneAt, SizeAt, Encode;
    Split8(doc, i);
    Split8(doc, i + 1);
    Utf8Next(doc, i);
    var content, b, next := Utf8(doc), ByteOffset(doc, i), ByteOffset(doc, i + 1);
    assert content[b..next] == Encode(doc[i]) by {
      assert content[..next] == Utf8(doc[..i + 1]) == Utf8(doc[..i]) + Encode(doc[i]);
      assert content[b..next] == content[..next][b..];
    }
    DecodeEncode(content, b, doc[i]);
    forall j | b <= j < next ensures content[j] == NEWLINE <==> doc[i] == LF {
      if content[j] == NEWLINE {
        NewlineAlone(content, b, j);
      } else if doc[i] == LF {
        LfIsOneByte(doc[i]);
      }
    }
  }

  /** The i-th scalar in the code units. */
  lemma ScalarUnits(doc: seq<Scalar>, i: nat)
    requires i < |doc|
    ensures var b := UnitOffset(doc, i); var u := Utf16(doc);
      && UnitOffset(doc, i + 1) == b + Utf16RuneLen(doc[i]) <= |u|
      && (doc[i] <= 0xFFFF ==> u[b] == doc[i])
      && (doc[i] > 0xFFFF ==> u[b] > CR && u[b + 1] > CR)
  {
    assert doc[..i + 1][..i] == doc[..i];
    Split16(doc, i);
    Split16(doc, i + 1);
    var u, b, next := Utf16(doc), UnitOffset(doc, i), UnitOffset(doc, i + 1);
    assert u[..next] == Utf16(doc[..i]) + Encode16(doc[i]);
    assert u[b] == u[..next][b] == Encode16(doc[i])[0];
    if doc[i] > 0xFFFF { assert u[b + 1] == u[..next][b + 1] == Encode16(doc[i])[1]; }
  }

  // ----- The scalar index both sides mean -----

  function LinesDown(doc: seq<Scalar>, i: nat, n: nat): (k: nat)
    requires i <= |doc|
    ensures i <= k <= |doc|
    decreases |doc| - i
  {
    if n == 0 || i == |doc| then i else LinesDown(doc, i + 1, if doc[i] == LF then n - 1 else n)
  }

  function UnitsAlong(doc: seq<Scalar>, i: nat, n: int): (k: nat)
    requires i <= |doc|
    ensures i <= k <= |doc|
    decreases |doc| - i
  {
    if i == |doc| || doc[i] == LF || n <= 0 then i else UnitsAlong(doc, i + 1, n - Utf16RuneLen(doc[i]))
  }

  /** The scalar a position designates on the server. */
  function IndexOf(doc: seq<Scalar>, pos: Position): (k: nat)
    ensures k <= |doc|
  {
    UnitsAlong(doc, LinesDown(doc, 0, pos.line), pos.character)
  }

  lemma {:induction false} SkipBytes(content: seq<Byte>, p: nat, q: nat, n: nat)
    requires p <= q <= |content| && n > 0 && forall j | p <= j < q :: content[j] != NEWLINE
    ensures SkipLines(content, p, n) == SkipLines(content, q, n)
    decreases q - p
  {
    if p < q { SkipBytes(content, p + 1, q, n); }
  }

  lemma {:induction false} ServerLines(doc: seq<Scalar>, i: nat, n: nat)
    requires i <= |doc|
    ensures ByteOffset(doc, i) <= |Utf8(doc)|
    ensures SkipLines(Utf8(doc), ByteOffset(doc, i), n) == ByteOffset(doc, LinesDown(doc, i, n))
    decreases |doc| - i
  {
    hide Utf8, RuneAt, SizeAt;
    Split8(doc, i);
    if i == |doc| {
      assert doc[..i] == doc;
    } else if n > 0 {
      ScalarBytes(doc, i);
      ServerLines(doc, i + 1, if doc[i] == LF then n - 1 else n);
      if doc[i] != LF {
        SkipBytes(Utf8(doc), ByteOffset(doc, i), ByteOffset(doc, i + 1), n);
      }
    }
  }

  lemma {:induction false} ServerUnits(doc: seq<Scalar>, i: nat, n: int)
    requires i <= |doc|
    ensures ByteOffset(doc, i) <= |Utf8(doc)|
    ensures SkipUnits(Utf8(doc), ByteOffset(doc, i), n) == ByteOffset(doc, UnitsAlong(doc, i, n))
    decreases |doc| - i
  {
    hide Utf8, RuneAt, SizeAt;
    Split8(doc, i);
    if i == |doc| {
      assert doc[..i] == doc;
    } else {
      ScalarBytes(doc, i);
      ServerUnits(doc, i + 1, n - Utf16RuneLen(doc[i]));
    }
  }

  /** On well-formed text the server's offset of any position is a scalar boundary. */
  lemma ServerReads(doc: seq<Scalar>, pos: Position)
    ensures OffsetOf(Utf8(doc), pos) == ByteOffset(doc, IndexOf(doc, pos))
  {
    ServerLines(doc, 0, pos.line);
    ServerUnits(doc, LinesDown(doc, 0, pos.line), pos.character);
  }

  // ----- Where the client reads the same -----

  /** Every carriage return is followed by a newline. */
  predicate NoLoneCR(doc: seq<Scalar>) {
    forall i | 0 <= i < |doc| && doc[i] == CR :: i + 1 < |doc| && doc[i + 1] == LF
  }

  /** The client's offset does not fall inside a surrogate pair. */
  ghost predicate OnScalar(doc: seq<Scalar>, pos: Position) {
    exists k :: 0 <= k <= |doc| && ClientOffset(Utf16(doc), pos) == UnitOffset(doc, k)
  }

  /** The column lies beyond the end of a line that ends in a carriage return: LSP takes it back to
      before the carriage return, the server to behind it. */
  predicate PastCR(u: seq<int>, pos: Position) {
    var start, o := ClientLines(u, 0, pos.line), ClientOffset(u, pos);
    o < |u| && u[o] == CR && o - start < pos.character
  }

  lemma {:induction false} UnitOffsetsGrow(doc: seq<Scalar>, i: nat, k: nat)
    requires i < k <= |doc|
    ensures UnitOffset(doc, i) < UnitOffset(doc, k)
    ensures doc[i] > 0xFFFF ==> UnitOffset(doc, i) + 2 <= UnitOffset(doc, k)
  {
    ScalarUnits(doc, k - 1);
    if i < k - 1 {
      UnitOffsetsGrow(doc, i, k - 1);
    }
  }

  /** Where the i-th scalar stands in the client's text, and what line ending it starts there. */
  lemma EolHere(doc: seq<Scalar>, i: nat)
    requires i < |doc|
    ensures var u, b := Utf16(doc), UnitOffset(doc, i);
      && UnitOffset(doc, i + 1) == b + Utf16RuneLen(doc[i]) <= |u|
      && EolAt(u, b) == (if doc[i] == CR && i + 1 < |doc| && doc[i + 1] == LF then 2 else if doc[i] == CR || doc[i] == LF then 1 else 0)
      && (doc[i] > 0xFFFF ==> EolAt(u, b + 1) == 0)
      && (u[b] == CR <==> doc[i] == CR)
  {
    hide Utf16;
    ScalarUnits(doc, i);
    Split16(doc, i + 1);
    if i + 1 < |doc| {
      ScalarUnits(doc, i + 1);
    } else {
      assert doc[..i + 1] == doc;
    }
  }

  /** Lines agree as long as the carriage returns passed on the way belong to \\r\\n. */
  lemma {:induction false} ClientLinesAgree(doc: seq<Scalar>, i: nat, n: nat)
    requires i <= |doc|
    requires forall x | i <= x < LinesDown(doc, i, n) && doc[x] == CR :: x + 1 < |doc| && doc[x + 1] == LF
    ensures UnitOffset(doc, i) <= |Utf16(doc)|
    ensures ClientLines(Utf16(doc), UnitOffset(doc, i), n) == UnitOffset(doc, LinesDown(doc, i, n))
    decreases |doc| - i
  {
    hide Utf16, UnitOffset, EolAt;
    Split16(doc, i);
    if i == |doc| {
      WholeUnits(doc);
    } else if n > 0 {
      EolHere(doc, i);
      if doc[i] == CR {
        assert i < LinesDown(doc, i, n);
        EolHere(doc, i + 1);
        ClientLinesAgree(doc, i + 2, n - 1);
      } else {
        ClientLinesAgree(doc, i + 1, if doc[i] == LF then n - 1 else n);
      }
    }
  }

  lemma WholeUnits(doc: seq<Scalar>)
    ensures UnitOffset(doc, |doc|) == |Utf16(doc)|
  {
    assert doc[..|doc|] == doc;
  }

  /** Along a line: unless the client stops inside a pair, it stops where the server does exactly when
      it was not held back before a carriage return. */
  lemma {:induction false} ClientColumnAgrees(doc: seq<Scalar>, i: nat, n: nat)
    requires i <= |doc|
    ensures UnitOffset(doc, i) <= |Utf16(doc)|
    ensures var u, b := Utf16(doc), UnitOffset(doc, i); var o := ClientColumn(u, b, n);
      (exists k :: 0 <= k <= |doc| && o == UnitOffset(doc, k)) ==>
        (o == UnitOffset(doc, UnitsAlong(doc, i, n)) <==> !(o < |u| && u[o] == CR && o - b < n))
    decreases |doc| - i
  {
    hide Utf16, UnitOffset, EolAt;
    Split16(doc, i);
    if i == |doc| {
      WholeUnits(doc);
    } else if n > 0 {
      EolHere(doc, i);
      if doc[i] == CR {
        UnitOffsetsGrow(doc, i, UnitsAlong(doc, i, n));
      } else if doc[i] > 0xFFFF && n == 1 {
        var b := UnitOffset(doc, i);
        assert ClientColumn(Utf16(doc), b, n) == ClientColumn(Utf16(doc), b + 1, 0) == b + 1;
        forall k | 0 <= k <= |doc| ensures b + 1 != UnitOffset(doc, k) {
          if k < i { UnitOffsetsGrow(doc, k, i); }
          if k > i { UnitOffsetsGrow(doc, i, k); }
        }
      } else if doc[i] > 0xFFFF {
        var b := UnitOffset(doc, i);
        assert ClientColumn(Utf16(doc), b, n) == ClientColumn(Utf16(doc), b + 1, n - 1) == ClientColumn(Utf16(doc), b + 2, n - 2);
        ClientColumnAgrees(doc, i + 1, n - 2);
      } else if doc[i] != LF {
        ClientColumnAgrees(doc, i + 1, n - 1);
      }
    }
  }

  /** The two sides mean the same scalar by a position. */
  ghost predicate Agree(doc: seq<Scalar>, pos: Position) {
    exists k :: 0 <= k <= |doc| && OffsetOf(Utf8(doc), pos) == ByteOffset(doc, k) && ClientOffset(Utf16(doc), pos) == UnitOffset(doc, k)
  }

  lemma {:induction false} ByteOffsetsGrow(doc: seq<Scalar>, i: nat, k: nat)
    requires i < k <= |doc|
    ensures ByteOffset(doc, i) < ByteOffset(doc, k)
  {
    ScalarBytes(doc, k - 1);
    if i < k - 1 { ByteOffsetsGrow(doc, i, k - 1); }
  }

  lemma AgreeMeans(doc: seq<Scalar>, pos: Position)
    ensures Agree(doc, pos) <==> ClientOffset(Utf16(doc), pos) == UnitOffset(doc, IndexOf(doc, pos))
  {
    ServerReads(doc, pos);
    if k :| 0 <= k <= |doc| && OffsetOf(Utf8(doc), pos) == ByteOffset(doc, k) && ClientOffset(Utf16(doc), pos) == UnitOffset(doc, k) {
      var i := IndexOf(doc, pos);
      if i < k { ByteOffsetsGrow(doc, i, k); }
      if k < i { ByteOffsetsGrow(doc, k, i); }
    }
  }

  /** No line above this one ends in a lone carriage return, so both sides find it in the same place. */
  predicate LinesAlike(doc: seq<Scalar>, line: nat) {
    forall x | 0 <= x < LinesDown(doc, 0, line) && doc[x] == CR :: x + 1 < |doc| && doc[x + 1] == LF
  }

  /** The client stays on its line, and so before the end of line the server has still to pass. */
  lemma {:induction false} HeldOnLine(doc: seq<Scalar>, i: nat, n: nat, column: nat)
    requires i <= |doc| && n > 0
    ensures UnitOffset(doc, i) <= |Utf16(doc)|
    ensures var below := LinesDown(doc, i, n);
      below == |doc| || ClientColumn(Utf16(doc), UnitOffset(doc, i), column) < UnitOffset(doc, below)
    decreases |doc| - i
  {
    hide Utf16, UnitOffset, EolAt;
    Split16(doc, i);
    if i < |doc| {
      EolHere(doc, i);
      UnitOffsetsGrow(doc, i, LinesDown(doc, i, n));
      var b := UnitOffset(doc, i);
      if column > 0 && doc[i] != CR && doc[i] != LF {
        if doc[i] <= 0xFFFF {
          HeldOnLine(doc, i + 1, n, column - 1);
        } else if column == 1 {
          assert ClientColumn(Utf16(doc), b, column) == ClientColumn(Utf16(doc), b + 1, 0) == b + 1;
        } else {
          assert ClientColumn(Utf16(doc), b, column) == ClientColumn(Utf16(doc), b + 1, column - 1) == ClientColumn(Utf16(doc), b + 2, column - 2);
          HeldOnLine(doc, i + 1, n, column - 2);
        }
      }
    }
  }

  /** Going down fewer lines than the server, the client stays above where the server stops. */
  lemma {:induction false} HeldAbove(doc: seq<Scalar>, i: nat, m: nat, n: nat, column: nat)
    requires i <= |doc| && m < n
    ensures UnitOffset(doc, i) <= |Utf16(doc)|
    ensures var below := LinesDown(doc, i, n);
      below == |doc| || ClientColumn(Utf16(doc), ClientLines(Utf16(doc), UnitOffset(doc, i), m), column) < UnitOffset(doc, below)
    decreases |doc| - i
  {
    hide Utf16, UnitOffset, EolAt, ClientColumn;
    Split16(doc, i);
    if m == 0 {
      HeldOnLine(doc, i, n, column);
    } else if i < |doc| {
      EolHere(doc, i);
      if doc[i] == CR && i + 1 < |doc| && doc[i + 1] == LF {
        EolHere(doc, i + 1);
        HeldAbove(doc, i + 2, m - 1, n - 1, column);
      } else if doc[i] == CR {
        HeldAbove(doc, i + 1, m - 1, n, column);
      } else {
        HeldAbove(doc, i + 1, if doc[i] == LF then m - 1 else m, if doc[i] == LF then n - 1 else n, column);
      }
    }
  }

  /** A lone carriage return on the way down is a line to the client alone. */
  lemma {:induction false} LoneCRAbove(doc: seq<Scalar>, i: nat, n: nat, column: nat, x: nat)
    requires i <= x < |doc| && x < LinesDown(doc, i, n) && doc[x] == CR && !(x + 1 < |doc| && doc[x + 1] == LF)
    ensures UnitOffset(doc, i) <= |Utf16(doc)|
    ensures var below := LinesDown(doc, i, n);
      below == |doc| || ClientColumn(Utf16(doc), ClientLines(Utf16(doc), UnitOffset(doc, i), n), column) < UnitOffset(doc, below)
    decreases |doc| - i
  {
    hide Utf16, UnitOffset, EolAt, ClientColumn;
    Split16(doc, i);
    EolHere(doc, i);
    if i == x {
      HeldAbove(doc, i + 1, n - 1, n, column);
    } else if doc[i] == CR && doc[i + 1] == LF {
      EolHere(doc, i + 1);
      LoneCRAbove(doc, i + 2, n - 1, column, x);
    } else if doc[i] == CR {
      HeldAbove(doc, i + 1, n - 1, n, column);
    } else {
      LoneCRAbove(doc, i + 1, if doc[i] == LF then n - 1 else n, column, x);
    }
  }

  /** Any position in any document is read alike exactly when the client's offset is outside surrogate
      pairs and, if no line above ends in a lone carriage return, the column does not run past a
      carriage return; if one does, when the client means the end of the document. */
  lemma AgreeExactly(doc: seq<Scalar>, pos: Position)
    ensures Agree(doc, pos) <==>
      && OnScalar(doc, pos)
      && if LinesAlike(doc, pos.line) then !PastCR(Utf16(doc), pos) else ClientOffset(Utf16(doc), pos) == |Utf16(doc)|
    ensures NoLoneCR(doc) ==> LinesAlike(doc, pos.line)
  {
    hide Utf16, Utf8, UnitOffset, UnitsAlong, LinesDown, ClientLines, ClientColumn, ByteOffset, OffsetOf;
    AgreeMeans(doc, pos);
    DocumentStart(doc);
    var s := LinesDown(doc, 0, pos.line);
    if LinesAlike(doc, pos.line) {
      ClientLinesAgree(doc, 0, pos.line);
      ClientColumnAgrees(doc, s, pos.character);
    } else {
      var x: nat :| x < s && doc[x] == CR && !(x + 1 < |doc| && doc[x + 1] == LF);
      LoneCRAbove(doc, 0, pos.line, pos.character, x);
      WholeUnits(doc);
      var k := IndexOf(doc, pos);
      if s < k { UnitOffsetsGrow(doc, s, k); }
      if k < |doc| { UnitOffsetsGrow(doc, k, |doc|); }
    }
  }

  // ----- Runs of changes -----

  /** The two sides read both ends of the change's range alike. */
  ghost predicate AgreedChange(doc: seq<Scalar>, ch: Change) {
    ch.range.Some? ==> Agree(doc, ch.range.value.start) && Agree(doc, ch.range.value.end)
  }

  function DocApplied(doc: seq<Scalar>, ch: Change): seq<Scalar> {
    match ch.range
    case None => ch.text
    case Some(r) =>
      var (start, end) := RangeIndexes(doc, r);
      doc[..start] + ch.text + doc[end..]
  }

  function DocRun(doc: seq<Scalar>, changes: seq<Change>): seq<Scalar> {
    if changes == [] then doc else DocApplied(DocRun(doc, changes[..|changes| - 1]), changes[|changes| - 1])
  }

  /** Each change is read alike in the text the previous ones left. */
  ghost predicate AgreedRun(doc: seq<Scalar>, changes: seq<Change>) {
    changes != [] ==>
      && AgreedRun(doc, changes[..|changes| - 1])
      && AgreedChange(DocRun(doc, changes[..|changes| - 1]), changes[|changes| - 1])
  }

  /** Where a change's range starts and ends in the document. */
  function RangeIndexes(doc: seq<Scalar>, r: Range): (e: (nat, nat))
    ensures e.0 <= e.1 <= |doc|
  {
    var start, end := IndexOf(doc, r.start), IndexOf(doc, r.end);
    (start, if end < start then start else end)
  }

  lemma ServerRange(doc: seq<Scalar>, r: Range)
    ensures var sp := SpanOf(Utf8(doc), r); var (start, end) := RangeIndexes(doc, r);
      sp.offset == ByteOffset(doc, start) && sp.End() == ByteOffset(doc, end)
  {
    ServerReads(doc, r.start);
    ServerReads(doc, r.end);
    hide OffsetOf, IndexOf, Utf8, ByteOffset;
    var start, last := IndexOf(doc, r.start), IndexOf(doc, r.end);
    if start < last { ByteOffsetsGrow(doc, start, last); }
    if last < start { ByteOffsetsGrow(doc, last, start); }
  }

  lemma ClientRange(doc: seq<Scalar>, r: Range)
    requires Agree(doc, r.start) && Agree(doc, r.end)
    ensures var start, end := ClientOffset(Utf16(doc), r.start), ClientOffset(Utf16(doc), r.end);
      start == UnitOffset(doc, RangeIndexes(doc, r).0) &&
      (if end < start then start else end) == UnitOffset(doc, RangeIndexes(doc, r).1)
  {
    AgreeMeans(doc, r.start);
    AgreeMeans(doc, r.end);
    hide ClientOffset, IndexOf, Utf16, UnitOffset;
    var start, last := IndexOf(doc, r.start), IndexOf(doc, r.end);
    if start < last { UnitOffsetsGrow(doc, start, last); }
    if last < start { UnitOffsetsGrow(doc, last, start); }
  }

  /** One change keeps the server's bytes and the client's code units two encodings of one document. */
  lemma ChangeRefines(doc: seq<Scalar>, ch: Change)
    requires AgreedChange(doc, ch)
    ensures Applied(Utf8(doc), ch) == Utf8(DocApplied(doc, ch))
    ensures ClientApplied(Utf16(doc), ch) == Utf16(DocApplied(doc, ch))
  {
    match ch.range {
      case None =>
      case Some(r) =>
        hide SpanOf, ClientOffset, RangeIndexes, Utf8, Utf16, ByteOffset, UnitOffset, Agree;
        var (start, end) := RangeIndexes(doc, r);
        ServerRange(doc, r);
        ClientRange(doc, r);
        Splice(doc, start, end, ch.text);
    }
  }

  lemma Splice(doc: seq<Scalar>, start: nat, end: nat, text: seq<Scalar>)
    requires start <= end <= |doc|
    ensures ByteOffset(doc, start) <= |Utf8(doc)| && ByteOffset(doc, end) <= |Utf8(doc)|
    ensures UnitOffset(doc, start) <= |Utf16(doc)| && UnitOffset(doc, end) <= |Utf16(doc)|
    ensures Utf8(doc[..start] + text + doc[end..]) ==
      Utf8(doc)[..ByteOffset(doc, start)] + Utf8(text) + Utf8(doc)[ByteOffset(doc, end)..]
    ensures Utf16(doc[..start] + text + doc[end..]) ==
      Utf16(doc)[..UnitOffset(doc, start)] + Utf16(text) + Utf16(doc)[UnitOffset(doc, end)..]
  {
    Split8(doc, start);
    Split8(doc, end);
    Split16(doc, start);
    Split16(doc, end);
    Utf8Concat(doc[..start] + text, doc[end..]);
    Utf8Concat(doc[..start], text);
    Utf16Concat(doc[..start] + text, doc[end..]);
    Utf16Concat(doc[..start], text);
  }

  /** Server text refines client text over any run of full and incremental changes. */
  lemma {:induction false} RunRefines(doc: seq<Scalar>, changes: seq<Change>)
    requires AgreedRun(doc, changes)
    ensures ServerRun(Utf8(doc), changes) == Utf8(DocRun(doc, changes))
    ensures ClientRun(Utf16(doc), changes) == Utf16(DocRun(doc, changes))
  {
    if changes != [] {
      var n := |changes| - 1;
      RunRefines(doc, changes[..n]);
      ChangeRefines(DocRun(doc, changes[..n]), changes[n]);
    }
  }

  // ----- Carriage returns are what sets the two apart -----

  lemma {:induction false} NoCRUnits(doc: seq<Scalar>)
    requires forall i | 0 <= i < |doc| :: doc[i] != CR
    ensures forall x | x in Utf16(doc) :: x != CR
  {
    if doc != [] { NoCRUnits(doc[..|doc| - 1]); }
  }

  lemma NotPastCR(u: seq<int>, pos: Position)
    requires forall x | x in u :: x != CR
    ensures !PastCR(u, pos)
  {
    var o := ClientOffset(u, pos);
    if o < |u| { assert u[o] in u; }
  }

  function LfBefore(doc: seq<Scalar>, j: nat): nat
    requires j <= |doc|
  {
    if j == 0 then 0 else LfBefore(doc, j - 1) + (if doc[j - 1] == LF then 1 else 0)
  }

  lemma {:induction false} LineOfScalar(doc: seq<Scalar>, i: nat, j: nat)
    requires i <= j <= |doc|
    ensures LfBefore(doc, i) <= LfBefore(doc, j)
    ensures var s := LinesDown(doc, i, LfBefore(doc, j) - LfBefore(doc, i));
      s <= j && forall x | s <= x < j :: doc[x] != LF
    decreases j - i
  {
    if i < j { LineOfScalar(doc, i + 1, j); }
  }

  /** One unit beyond the first carriage return of a line: the client stays before it, the server
      goes behind it. */
  lemma {:induction false} AtCR(doc: seq<Scalar>, i: nat, j: nat)
    requires i <= j < |doc| && doc[j] == CR && forall x | i <= x < j :: doc[x] != CR && doc[x] != LF
    ensures UnitOffset(doc, i) <= UnitOffset(doc, j) <= |Utf16(doc)|
    ensures UnitsAlong(doc, i, UnitOffset(doc, j) - UnitOffset(doc, i) + 1) == j + 1
    ensures ClientColumn(Utf16(doc), UnitOffset(doc, i), UnitOffset(doc, j) - UnitOffset(doc, i) + 1) == UnitOffset(doc, j)
    decreases j - i
  {
    hide Utf16, UnitOffset, EolAt;
    Split16(doc, j);
    EolHere(doc, i);
    if i < j {
      AtCR(doc, i + 1, j);
      if doc[i] > 0xFFFF {
        var b, n := UnitOffset(doc, i), UnitOffset(doc, j) - UnitOffset(doc, i) + 1;
        assert ClientColumn(Utf16(doc), b, n) == ClientColumn(Utf16(doc), b + 1, n - 1) == ClientColumn(Utf16(doc), b + 2, n - 2);
      }
    }
  }

  /** A carriage return is read differently by the two sides at some position outside every pair. */
  lemma CRDisagrees(doc: seq<Scalar>, j: nat) returns (pos: Position)
    requires j < |doc| && doc[j] == CR && forall x | 0 <= x < j :: doc[x] != CR
    ensures OnScalar(doc, pos) && !Agree(doc, pos)
  {
    hide LfBefore, LinesDown, Utf16, UnitOffset, UnitsAlong, ClientColumn, ClientLines, Agree;
    var line := LfBefore(doc, j);
    var s := LinesDown(doc, 0, line);
    DocumentStart(doc);
    LineOfScalar(doc, 0, j);
    AtCR(doc, s, j);
    pos := Position(line, UnitOffset(doc, j) - UnitOffset(doc, s) + 1);
    ClientLinesAgree(doc, 0, line);
    AgreeMeans(doc, pos);
    UnitOffsetsGrow(doc, j, j + 1);
  }

  lemma DocumentStart(doc: seq<Scalar>)
    ensures LfBefore(doc, 0) == 0 && UnitOffset(doc, 0) == 0
  {
  }

  lemma {:induction false} FirstCR(doc: seq<Scalar>, i: nat) returns (j: nat)
    requires i < |doc| && doc[i] == CR
    ensures j < |doc| && doc[j] == CR && forall x | 0 <= x < j :: doc[x] != CR
  {
    if x: nat :| x < i && doc[x] == CR {
      j := FirstCR(doc, x);
    } else {
      j := i;
    }
  }

  /** The server and an LSP client read every position outside surrogate pairs alike exactly when the
      document has no carriage return. */
  lemma AgreeEverywhere(doc: seq<Scalar>)
    ensures (forall pos | OnScalar(doc, pos) :: Agree(doc, pos)) <==> forall i | 0 <= i < |doc| :: doc[i] != CR
  {
    if i: nat :| i < |doc| && doc[i] == CR {
      var j := FirstCR(doc, i);
      var pos := CRDisagrees(doc, j);
    } else {
      NoCRUnits(doc);
      forall pos | OnScalar(doc, pos) ensures Agree(doc, pos) {
        AgreeExactly(doc, pos);
        NotPastCR(Utf16(doc), pos);
      }
    }
  }
}
