/** Qualified names and their segments (hasQualifiedIdentity in internal/grpc/query.go). */
module QualifiedNames {

  /** strings.Split(s, "::"). */
  function Segments(s: string): (r: seq<string>)
    ensures r != []
  {
    if s == "" then [""]
    else if |s| >= 2 && s[0] == ':' && s[1] == ':' then [""] + Segments(s[2..])
    else
      var rest := Segments(s[1..]);
      [[s[0]] + rest[0]] + rest[1..]
  }

  predicate HasQualifiedIdentity(fqn: string) {
    fqn != "" && "" !in Segments(fqn)
  }

  // ----- Splitting undoes joining -----

  function Joined(parts: seq<string>): string
    requires parts != []
  {
    if |parts| == 1 then parts[0] else parts[0] + "::" + Joined(parts[1..])
  }

  predicate ColonsAt(s: string, i: int) {
    0 <= i && i + 1 < |s| && s[i] == ':' && s[i + 1] == ':'
  }

  lemma {:induction false} FirstIsPrefix(s: string)
    ensures Segments(s)[0] <= s
  {
    if s != "" && !ColonsAt(s, 0) {
      FirstIsPrefix(s[1..]);
    }
  }

  /** The segments joined give the text back, and none of them holds a separator. */
  lemma {:induction false} SegmentsJoin(s: string)
    ensures Joined(Segments(s)) == s
    ensures forall part, i | part in Segments(s) :: !ColonsAt(part, i)
  {
    if s == "" {
    } else if ColonsAt(s, 0) {
      var rest := Segments(s[2..]);
      SegmentsJoin(s[2..]);
      hide Segments;
      assert ([""] + rest)[1..] == rest;
      assert "" + "::" + s[2..] == s;
    } else {
      var rest := Segments(s[1..]);
      var first := [s[0]] + rest[0];
      assert Segments(s) == [first] + rest[1..];
      SegmentsJoin(s[1..]);
      FirstIsPrefix(s[1..]);
      hide Segments;
      JoinedMore(s[0], rest);
      assert [s[0]] + s[1..] == s;
      forall i ensures !ColonsAt(first, i) {
        assert i > 0 ==> (ColonsAt(first, i) <==> ColonsAt(rest[0], i - 1));
      }
    }
  }

  lemma JoinedMore(c: char, parts: seq<string>)
    requires parts != []
    ensures Joined([[c] + parts[0]] + parts[1..]) == [c] + Joined(parts)
  {
    var first := [c] + parts[0];
    assert ([first] + parts[1..])[1..] == parts[1..];
    if |parts| > 1 {
      assert first + "::" + Joined(parts[1..]) == [c] + (parts[0] + "::" + Joined(parts[1..]));
    }
  }

  // ----- Identity, read off the text -----

  /** A separator stands at i: two colons, an even number of colons after where their run begins. */
  ghost predicate SeparatorAt(s: string, i: int) {
    ColonsAt(s, i) && exists r: int :: RunBegins(s, r, i) && (i - r) % 2 == 0
  }

  /** The run of colons that i lies in begins at r. */
  ghost predicate RunBegins(s: string, r: int, i: int) {
    && 0 <= r <= i < |s| && (forall k | r <= k < i :: s[k] == ':')
    && (r == 0 || s[r - 1] != ':')
  }

  /** Some segment after the first is empty. */
  ghost predicate EmptyBehind(s: string) {
    SeparatorAt(s, |s| - 2) || exists i :: SeparatorAt(s, i) && SeparatorAt(s, i + 2)
  }

  /** Behind a separator at the start the others stand as in the text that follows it. */
  lemma SeparatorsBehind(s: string, i: nat)
    requires ColonsAt(s, 0)
    ensures SeparatorAt(s, 0) && !SeparatorAt(s, 1)
    ensures SeparatorAt(s, i + 2) <==> SeparatorAt(s[2..], i)
  {
    var t := s[2..];
    assert RunBegins(s, 0, 0);
    if SeparatorAt(s, i + 2) {
      var r: int :| RunBegins(s, r, i + 2) && (i + 2 - r) % 2 == 0;
      assert RunBegins(t, if r == 0 then 0 else r - 2, i);
    }
    if SeparatorAt(t, i) {
      var r: int :| RunBegins(t, r, i) && (i - r) % 2 == 0;
      forall k | r + 2 <= k < i + 2 ensures s[k] == ':' { assert t[k - 2] == ':'; }
      assert RunBegins(s, if r == 0 then 0 else r + 2, i + 2);
    }
  }

  /** Behind a character that starts no separator they stand as in the text that follows it. */
  lemma SeparatorsAfter(s: string, i: nat)
    requires s != "" && !ColonsAt(s, 0)
    ensures !SeparatorAt(s, 0)
    ensures SeparatorAt(s, i + 1) <==> SeparatorAt(s[1..], i)
  {
    var t := s[1..];
    if SeparatorAt(s, i + 1) {
      var r: int :| RunBegins(s, r, i + 1) && (i + 1 - r) % 2 == 0;
      assert s[i + 1] == ':';
      if r > 0 { assert RunBegins(t, r - 1, i); }
    }
    if SeparatorAt(t, i) {
      var r: int :| RunBegins(t, r, i) && (i - r) % 2 == 0;
      forall k | r + 1 <= k < i + 1 ensures s[k] == ':' { assert t[k - 1] == ':'; }
      assert t[r] == ':';
      assert RunBegins(s, r + 1, i + 1);
    }
  }

  lemma {:induction false} EmptySegments(s: string)
    ensures Segments(s)[0] == "" <==> s == "" || SeparatorAt(s, 0)
    ensures "" in Segments(s)[1..] <==> EmptyBehind(s)
  {
    hide SeparatorAt;
    if s == "" {
      NoSeparator(s);
    } else if ColonsAt(s, 0) {
      var t := s[2..];
      EmptySegments(t);
      assert Segments(s)[1..] == Segments(t);
      SeparatorsBehind(s, 0);
      EmptyBehindSeparator(s);
      assert "" in Segments(t) <==> Segments(t)[0] == "" || "" in Segments(t)[1..];
    } else {
      EmptySegments(s[1..]);
      SeparatorsAfter(s, 0);
      EmptyAfterCharacter(s);
    }
  }

  lemma NoSeparator(s: string)
    requires |s| < 2
    ensures forall i :: !SeparatorAt(s, i)
  {
  }

  lemma OnlyInside(s: string, i: int)
    requires SeparatorAt(s, i)
    ensures 0 <= i && i + 1 < |s|
  {
  }

  lemma EmptyBehindSeparator(s: string)
    requires ColonsAt(s, 0)
    ensures EmptyBehind(s) <==> s[2..] == "" || SeparatorAt(s[2..], 0) || EmptyBehind(s[2..])
  {
    hide SeparatorAt;
    var t := s[2..];
    SeparatorsBehind(s, 0);
    forall i: nat ensures SeparatorAt(s, i + 2) <==> SeparatorAt(t, i) { SeparatorsBehind(s, i); }
    forall i | SeparatorAt(s, i) || SeparatorAt(t, i) ensures i >= 0 {
      if SeparatorAt(s, i) { OnlyInside(s, i); } else { OnlyInside(t, i); }
    }
    if |t| >= 2 { assert SeparatorAt(t, |t| - 2) <==> SeparatorAt(s, |t| - 2 + 2); }
    if SeparatorAt(t, |t| - 2) { OnlyInside(t, |t| - 2); }
    if i :| SeparatorAt(s, i) && SeparatorAt(s, i + 2) {
      assert SeparatorAt(t, i);
      if i >= 2 { assert SeparatorAt(t, i - 2) && SeparatorAt(t, i - 2 + 2); }
    }
    if i :| SeparatorAt(t, i) && SeparatorAt(t, i + 2) {
      assert SeparatorAt(s, i + 2) && SeparatorAt(s, i + 2 + 2);
    }
    if SeparatorAt(t, 0) { assert SeparatorAt(s, 0) && SeparatorAt(s, 0 + 2); }
  }

  lemma EmptyAfterCharacter(s: string)
    requires s != "" && !ColonsAt(s, 0)
    ensures EmptyBehind(s) <==> EmptyBehind(s[1..])
  {
    hide SeparatorAt;
    var t := s[1..];
    SeparatorsAfter(s, 0);
    forall i: nat ensures SeparatorAt(s, i + 1) <==> SeparatorAt(t, i) { SeparatorsAfter(s, i); }
    forall i | SeparatorAt(s, i) || SeparatorAt(t, i) ensures i >= 0 {
      if SeparatorAt(s, i) { OnlyInside(s, i); } else { OnlyInside(t, i); }
    }
    if SeparatorAt(s, |s| - 2) { assert SeparatorAt(s, |t| - 2 + 1); }
    if SeparatorAt(t, |t| - 2) { assert SeparatorAt(s, |t| - 2 + 1); }
    if i :| SeparatorAt(s, i) && SeparatorAt(s, i + 2) {
      assert SeparatorAt(s, i - 1 + 1) && SeparatorAt(s, i + 1 + 1);
      assert SeparatorAt(t, i - 1) && SeparatorAt(t, i - 1 + 2);
    }
    if i :| SeparatorAt(t, i) && SeparatorAt(t, i + 2) {
      assert SeparatorAt(s, i + 1) && SeparatorAt(s, i + 2 + 1);
      assert SeparatorAt(s, i + 1 + 2);
    }
  }

  /** A qualified name identifies an element exactly if it is not empty and no separator stands at its
      start, at its end or directly behind another. */
  lemma IdentityMeaning(fqn: string)
    ensures HasQualifiedIdentity(fqn) <==>
      && fqn != "" && !SeparatorAt(fqn, 0) && !SeparatorAt(fqn, |fqn| - 2)
      && forall i :: !(SeparatorAt(fqn, i) && SeparatorAt(fqn, i + 2))
  {
    hide SeparatorAt;
    EmptySegments(fqn);
    var parts := Segments(fqn);
    assert "" in parts <==> parts[0] == "" || "" in parts[1..];
  }
}
