/** UTF-8 and UTF-16 as the language server meets them: bytes that need not be valid UTF-8 on the
    server, UTF-16 code units on the client (section 3 of RFC 3629, section 2.1 of RFC 2781). */
module Utf {

  type Byte = b: int | 0 <= b < 256

  const NEWLINE: Byte := 0x0A
  const RUNE_ERROR := 0xFFFD

  /** A Unicode scalar value: a code point that is not a surrogate. */
  type Scalar = s: int | 0 <= s < 0xD800 || 0xE000 <= s < 0x11_0000

  predicate Continuation(b: Byte) { 0x80 <= b < 0xC0 }

  /** How many bytes the leading byte announces; 0 for one that cannot lead. */
  function Announced(b: Byte): nat {
    if b < 0x80 then 1 else if 0xC2 <= b < 0xE0 then 2 else if 0xE0 <= b < 0xF0 then 3
    else if 0xF0 <= b < 0xF5 then 4 else 0
  }

  /** The second byte is restricted further to rule out overlong forms, surrogates and code points
      above 10FFFF. */
  predicate SecondFits(lead: Byte, b: Byte) {
    && Continuation(b)
    && (lead == 0xE0 ==> b >= 0xA0)
    && (lead == 0xED ==> b < 0xA0)
    && (lead == 0xF0 ==> b >= 0x90)
    && (lead == 0xF4 ==> b < 0x90)
  }

  /** content[i:end] starts with a well-formed character. */
  predicate WellFormedAt(content: seq<Byte>, i: nat, end: nat)
    requires i < end <= |content|
  {
    var n := Announced(content[i]);
    && n > 0 && i + n <= end
    && (n >= 2 ==> SecondFits(content[i], content[i + 1]))
    && (n >= 3 ==> Continuation(content[i + 2]))
    && (n >= 4 ==> Continuation(content[i + 3]))
  }

  /** utf8.DecodeRune(content[i:end]): the size is 1 for an ill-formed byte. */
  function SizeAt(content: seq<Byte>, i: nat, end: nat): (n: nat)
    requires i < end <= |content|
    ensures 1 <= n <= 4 && i + n <= end
  {
    if WellFormedAt(content, i, end) then Announced(content[i]) else 1
  }

  function RuneAt(content: seq<Byte>, i: nat, end: nat): (r: int)
    requires i < end <= |content|
    ensures 0 <= r < 0x11_0000
  {
    var b := content[i] as int;
    if !WellFormedAt(content, i, end) then RUNE_ERROR
    else if b < 0x80 then b
    else if b < 0xE0 then (b - 0xC0) * 0x40 + Low6(content[i + 1])
    else if b < 0xF0 then (b - 0xE0) * 0x1000 + Low6(content[i + 1]) * 0x40 + Low6(content[i + 2])
    else (b - 0xF0) * 0x4_0000 + Low6(content[i + 1]) * 0x1000 + Low6(content[i + 2]) * 0x40 + Low6(content[i + 3])
  }

  /** The six payload bits of a continuation byte. */
  function Low6(b: Byte): int {
    b as int - 0x80
  }

  /** A byte string written by section 3 of RFC 3629. */
  function Encode(s: Scalar): (r: seq<Byte>)
    ensures 1 <= |r| <= 4
  {
    if s < 0x80 then [s]
    else if s < 0x800 then [0xC0 + s / 0x40, 0x80 + s % 0x40]
    else if s < 0x1_0000 then [0xE0 + s / 0x1000, 0x80 + s / 0x40 % 0x40, 0x80 + s % 0x40]
    else [0xF0 + s / 0x4_0000, 0x80 + s / 0x1000 % 0x40, 0x80 + s / 0x40 % 0x40, 0x80 + s % 0x40]
  }

  /** utf16RuneLen: a character above FFFF takes a surrogate pair. */
  function Utf16RuneLen(r: int): nat {
    if r > 0xFFFF then 2 else 1
  }

  /** The code units section 2.1 of RFC 2781 gives a scalar value. */
  function Encode16(s: Scalar): (r: seq<int>)
    ensures |r| == Utf16RuneLen(s)
  {
    if s < 0x1_0000 then [s] else [0xD800 + (s - 0x1_0000) / 0x400, 0xDC00 + (s - 0x1_0000) % 0x400]
  }

  /** One unit is the scalar itself; two are a high and a low surrogate from which it is computed. */
  lemma Encode16Meaning(s: Scalar)
    ensures var u := Encode16(s);
      if |u| == 1 then u[0] == s && !(0xD800 <= u[0] < 0xE000)
      else 0xD800 <= u[0] < 0xDC00 && 0xDC00 <= u[1] < 0xE000 && s == 0x1_0000 + (u[0] - 0xD800) * 0x400 + (u[1] - 0xDC00)
  {
  }

  /** Decoding a written character gives it back and consumes exactly its bytes, and only a newline
      character contains the newline byte. */
  lemma DecodeEncode(content: seq<Byte>, i: nat, s: Scalar)
    requires i + |Encode(s)| <= |content| && content[i..i + |Encode(s)|] == Encode(s)
    ensures RuneAt(content, i, |content|) == s && SizeAt(content, i, |content|) == |Encode(s)|
    ensures content[i] == NEWLINE <==> s == 0x0A
  {
    var e := Encode(s);
    assert content[i] == e[0];
    if s >= 0x80 { assert content[i + 1] == e[1]; }
    if s >= 0x800 { assert content[i + 2] == e[2]; }
    if s >= 0x1_0000 { assert content[i + 3] == e[3]; }
    Sextets(s);
  }

  /** A scalar's bytes stand at i. */
  ghost predicate EncodedAt(content: seq<Byte>, i: nat, s: Scalar) {
    i + |Encode(s)| <= |content| && content[i..i + |Encode(s)|] == Encode(s)
  }

  /** The decoder takes several bytes, or a single one for a character, exactly where a written
      character stands, and then it is that one; anything else is an ill-formed byte. */
  lemma DecodesWhatIsEncoded(content: seq<Byte>, i: nat)
    requires i < |content|
    ensures WellFormedAt(content, i, |content|) <==> exists s :: EncodedAt(content, i, s)
    ensures !WellFormedAt(content, i, |content|) ==> RuneAt(content, i, |content|) == RUNE_ERROR && SizeAt(content, i, |content|) == 1
  {
    if WellFormedAt(content, i, |content|) {
      WellFormedEncodes(content, i);
    }
    if s :| EncodedAt(content, i, s) {
      EncodedWellFormed(content, i, s);
    }
  }

  lemma EncodedWellFormed(content: seq<Byte>, i: nat, s: Scalar)
    requires EncodedAt(content, i, s)
    ensures i < |content| && WellFormedAt(content, i, |content|)
  {
    var e := Encode(s);
    assert content[i] == e[0];
    if s >= 0x80 { assert content[i + 1] == e[1]; }
    if s >= 0x800 { assert content[i + 2] == e[2]; }
    if s >= 0x1_0000 { assert content[i + 3] == e[3]; }
    Sextets(s);
  }

  /** The sextets of a number written with four of them. */
  lemma Digits(r: nat, a: nat, b: nat, c: nat, d: nat)
    requires b < 0x40 && c < 0x40 && d < 0x40 && r == a * 0x4_0000 + b * 0x1000 + c * 0x40 + d
    ensures r / 0x4_0000 == a && r / 0x1000 % 0x40 == b && r / 0x40 % 0x40 == c && r % 0x40 == d
    ensures r / 0x1000 == a * 0x40 + b && r / 0x40 == a * 0x1000 + b * 0x40 + c
  {
    assert r == (a * 0x1000 + b * 0x40 + c) * 0x40 + d;
    assert r / 0x40 == a * 0x1000 + b * 0x40 + c;
    assert r == (a * 0x40 + b) * 0x1000 + (c * 0x40 + d);
    assert r / 0x1000 == a * 0x40 + b;
    assert r / 0x4_0000 == a;
  }

  lemma FirstItems<T>(s: seq<T>, i: nat)
    ensures i + 1 <= |s| ==> s[i..i + 1] == [s[i]]
    ensures i + 2 <= |s| ==> s[i..i + 2] == [s[i], s[i + 1]]
    ensures i + 3 <= |s| ==> s[i..i + 3] == [s[i], s[i + 1], s[i + 2]]
    ensures i + 4 <= |s| ==> s[i..i + 4] == [s[i], s[i + 1], s[i + 2], s[i + 3]]
  {
  }

  /** What a well-formed character's bytes decode to is a scalar that has them as its encoding. */
  lemma BytesEncode(a: Byte, b: Byte, c: Byte, d: Byte)
    ensures 0xC2 <= a < 0xE0 && Continuation(b) ==>
      var r := (a as int - 0xC0) * 0x40 + Low6(b);
      0 <= r < 0xD800 && Encode(r) == [a, b]
    ensures 0xE0 <= a < 0xF0 && SecondFits(a, b) && Continuation(c) ==>
      var r := (a as int - 0xE0) * 0x1000 + Low6(b) * 0x40 + Low6(c);
      (0 <= r < 0xD800 || 0xE000 <= r < 0x1_0000) && Encode(r) == [a, b, c]
    ensures 0xF0 <= a < 0xF5 && SecondFits(a, b) && Continuation(c) && Continuation(d) ==>
      var r := (a as int - 0xF0) * 0x4_0000 + Low6(b) * 0x1000 + Low6(c) * 0x40 + Low6(d);
      0x1_0000 <= r < 0x11_0000 && Encode(r) == [a, b, c, d]
  {
    if 0xC2 <= a < 0xE0 && Continuation(b) {
      Digits((a as int - 0xC0) * 0x40 + Low6(b), 0, 0, a - 0xC0, b - 0x80);
    } else if 0xE0 <= a < 0xF0 && SecondFits(a, b) && Continuation(c) {
      Digits((a as int - 0xE0) * 0x1000 + Low6(b) * 0x40 + Low6(c), 0, a - 0xE0, b - 0x80, c - 0x80);
    } else if 0xF0 <= a < 0xF5 && SecondFits(a, b) && Continuation(c) && Continuation(d) {
      Digits((a as int - 0xF0) * 0x4_0000 + Low6(b) * 0x1000 + Low6(c) * 0x40 + Low6(d), a - 0xF0, b - 0x80, c - 0x80, d - 0x80);
    }
  }

  lemma WellFormedEncodes(content: seq<Byte>, i: nat)
    requires i < |content| && WellFormedAt(content, i, |content|)
    ensures var r := RuneAt(content, i, |content|); (0 <= r < 0xD800 || 0xE000 <= r < 0x11_0000) && EncodedAt(content, i, r)
  {
    var n := Announced(content[i]);
    FirstItems(content, i);
    BytesEncode(content[i], content[i + if n >= 2 then 1 else 0], content[i + if n >= 3 then 2 else 0],
                content[i + if n >= 4 then 3 else 0]);
  }

  lemma Sextets(s: int)
    requires 0 <= s < 0x11_0000
    ensures s == s / 0x40 * 0x40 + s % 0x40
    ensures s == s / 0x1000 * 0x1000 + s / 0x40 % 0x40 * 0x40 + s % 0x40
    ensures s == s / 0x4_0000 * 0x4_0000 + s / 0x1000 % 0x40 * 0x1000 + s / 0x40 % 0x40 * 0x40 + s % 0x40
    ensures s < 0x1_0000 ==> s / 0x1000 < 0x10
    ensures s / 0x4_0000 < 5
  {
    assert s / 0x1000 == s / 0x40 / 0x40 && s / 0x4_0000 == s / 0x1000 / 0x40;
  }

  /** A decoding that fits before `end` does not look past it. */
  lemma SameDecoding(content: seq<Byte>, i: nat, end: nat)
    requires i < end <= |content| && i + SizeAt(content, i, |content|) <= end
    ensures SizeAt(content, i, end) == SizeAt(content, i, |content|)
    ensures RuneAt(content, i, end) == RuneAt(content, i, |content|)
  {
  }

  /** Cut off inside a character, each of its bytes before the cut is ill-formed. */
  lemma CutShort(content: seq<Byte>, s: nat, j: nat, end: nat)
    requires s < |content| && s <= j < end < s + SizeAt(content, s, |content|)
    ensures SizeAt(content, j, end) == 1 && RuneAt(content, j, end) == RUNE_ERROR
  {
    assert j > s ==> Continuation(content[j]);
  }

  /** A newline byte is a character by itself: no decoding step passes over one. */
  lemma NewlineAlone(content: seq<Byte>, i: nat, j: nat)
    requires i < |content| && i <= j < i + SizeAt(content, i, |content|) && content[j] == NEWLINE
    ensures i == j && SizeAt(content, i, |content|) == 1 && RuneAt(content, i, |content|) == 0x0A
  {
  }

  lemma NewlineRune(content: seq<Byte>, i: nat)
    requires i < |content|
    ensures RuneAt(content, i, |content|) == 0x0A <==> content[i] == NEWLINE
  {
  }
}
