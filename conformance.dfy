/** Concrete cases of the repository's own test suite, stated about the model. */
module Conformance {
  import opened Base
  import opened KeyPath
  import opened Tree
  import opened HashSerializer
  import opened UrlEncoding
  import opened Scanner
  import Numbers

  lemma EncodeUnreservedText(s: string)
    requires forall i | 0 <= i < |s| :: Unreserved(s[i])
    ensures EncodeURIComponent(s) == s
    ensures FormEncode(s) == s
    decreases |s|
  {
    if s != "" {
      UnreservedIsAscii(s[0]);
      EncodeUnreservedText(s[1..]);
    }
  }

  lemma CrlfWithoutLineBreaks(s: string)
    requires forall i | 0 <= i < |s| :: s[i] != '\n'
    ensures Crlf(s) == s
    decreases |s|
  {
    if s != "" {
      CrlfWithoutLineBreaks(s[1..]);
      assert s == [s[0]] + s[1..];
    }
  }

  lemma EncodeSpace()
    ensures FormEncode(" ") == "+"
  {
  }

  /** Spaces of a value become `+`. */
  lemma SpaceInValue(word: string, digit: string)
    requires forall i | 0 <= i < |word| :: Unreserved(word[i]) && word[i] != '\n'
    requires forall i | 0 <= i < |digit| :: Unreserved(digit[i]) && digit[i] != '\n'
    ensures FormValue(word + " " + digit) == word + "+" + digit
  {
    var s := word + " " + digit;
    CrlfWithoutLineBreaks(s);
    EncodeUnreservedText(word);
    EncodeUnreservedText(digit);
    EncodeSpace();
    EncodeAppend(word, " ");
    EncodeAppend(word + " ", digit);
  }

  lemma EncodeBrackets()
    ensures EncodeChar('[') == "%5B"
    ensures EncodeChar(']') == "%5D"
  {
    assert !Unreserved('[') && !Unreserved(']');
    assert Utf8('[') == [0x5B];
    assert Utf8(']') == [0x5D];
    assert PercentBytes([0x5B]) == PercentByte(0x5B) + PercentBytes([]);
    assert PercentBytes([0x5D]) == PercentByte(0x5D) + PercentBytes([]);
  }

  /** Brackets of a key are percent-encoded: `foo[]` is sent as
      `foo%5B%5D`. */
  lemma BracketsInKey(name: string)
    requires Plain(name)
    ensures EncodeURIComponent(name + AppendMarker) == name + "%5B%5D"
  {
    EncodeUnreservedText(name);
    EncodeAppendMarker();
    EncodeAppend(name, AppendMarker);
  }

  lemma EncodeAppendMarker()
    ensures EncodeURIComponent(AppendMarker) == "%5B%5D"
  {
    EncodeBrackets();
    assert AppendMarker == "[" + "]";
    assert EncodeURIComponent("[") == "%5B";
    assert EncodeURIComponent("]") == "%5D";
    EncodeAppend("[", "]");
  }

  /** A line feed, alone or after a carriage return, is sent as CR LF. */
  lemma LineBreaksInValue()
    ensures FormValue("\n") == "%0D%0A"
    ensures FormValue("\r\n") == "%0D%0A"
  {
    assert Crlf("\n") == "\r\n" + Crlf("");
    assert Crlf("\r\n") == "\r\n" + Crlf("");
    assert Utf8('\r') == [0x0D];
    assert Utf8('\n') == [0x0A];
    assert PercentBytes([0x0D]) == PercentByte(0x0D) + PercentBytes([]);
    assert PercentBytes([0x0A]) == PercentByte(0x0A) + PercentBytes([]);
    assert FormEncode("\r") == "%0D";
    assert FormEncode("\n") == "%0A";
    EncodeAppend("\r", "\n");
    assert "\r" + "\n" == "\r\n";
  }

  function Piece(p: Pair): string {
    EncodeURIComponent(p.key) + "=" + FormValue(p.value)
  }

  lemma JoinedThree(a: Pair, b: Pair, c: Pair)
    ensures Joined([a, b, c]) == Piece(a) + "&" + Piece(b) + "&" + Piece(c)
  {
    assert [a, b, c][..2] == [a, b];
    assert [a, b][..1] == [a];
    assert [a][..0] == [];
    assert Joined([a]) == Piece(a);
    assert Joined([a, b]) == Piece(a) + "&" + Piece(b);
  }

  predicate Plain(s: string) {
    forall i | 0 <= i < |s| :: Unreserved(s[i])
  }

  lemma PlainValue(v: string)
    requires Plain(v)
    ensures FormValue(v) == v
  {
    CrlfWithoutLineBreaks(v);
    EncodeUnreservedText(v);
  }

  /** Pairs made of letters, digits and marks go out as they are, in order,
      as in the "multi inputs" test (whose values add spaces, see
      `SpaceInValue`). */
  lemma PlainPairsJoin(a: Pair, b: Pair, c: Pair)
    requires Plain(a.key) && Plain(b.key) && Plain(c.key)
    requires Plain(a.value) && Plain(b.value) && Plain(c.value)
    ensures Joined([a, b, c]) == (a.key + "=" + a.value) + "&" + (b.key + "=" + b.value) + "&" + (c.key + "=" + c.value)
  {
    JoinedThree(a, b, c);
    PlainPieceIsItself(a);
    PlainPieceIsItself(b);
    PlainPieceIsItself(c);
  }

  lemma PlainPieceIsItself(p: Pair)
    requires Plain(p.key) && Plain(p.value)
    ensures Piece(p) == p.key + "=" + p.value
  {
    EncodeUnreservedText(p.key);
    PlainValue(p.value);
  }

  /** Bad notation: `[][a]` and then `[b][c]` written into an empty result.
      The first key appends a mapping `{a: v1}` to the reserved `_values`
      array of the root; the second sets `b` to `{c: v2}` beside it. */
  lemma MisplacedAppendCollectsValues(a: string, b: string, c: string, v1: string, v2: string)
    requires Name(a) && Name(b) && Name(c) && b != ValuesKey
    ensures Fold(HashStep, Ok(map[]), [Pair(AppendMarker + Bracket(a), v1), Pair(Bracket(b) + Bracket(c), v2)])
         == Ok(map[ValuesKey := Arr([Some(Obj(map[a := Str(v1)]))], map[]), b := Obj(map[c := Str(v2)])])
  {
    var k1 := AppendMarker + Bracket(a);
    var k2 := Bracket(b) + Bracket(c);
    var m1 := map[ValuesKey := Arr([Some(Obj(map[a := Str(v1)]))], map[])];
    AppendThenName(a, v1);
    assert b !in m1;
    NameThenName(m1, b, c, v2);
    var pairs := [Pair(k1, v1), Pair(k2, v2)];
    assert pairs[..1] == [Pair(k1, v1)];
    assert pairs[..1][..0] == [];
    assert Fold(HashStep, Ok(map[]), pairs[..1]) == Ok(m1);
  }

  /** Bracket content that names a field */
  predicate Name(s: string) {
    s != "" && NoBrackets(s) && NoLineTerminators(s) && !Numbers.IsIndex(s)
  }

  lemma AppendThenName(a: string, v: string)
    requires Name(a)
    ensures HashSerialize(map[], AppendMarker + Bracket(a), v)
         == Ok(map[ValuesKey := Arr([Some(Obj(map[a := Str(v)]))], map[])])
  {
    AppendGroup(a);
    BetweenOfBracket(a);
    WriteIntoMapping(map[], Bracket(a), [], v);
    assert Assign(None, [Bracket(a)], v) == Ok(Obj(map[a := Str(v)]));
    AppendIntoMapping(map[], [Bracket(a)], v);
  }

  lemma AppendGroup(a: string)
    requires Name(a)
    ensures HasBrackets(AppendMarker + Bracket(a))
    ensures Segments(AppendMarker + Bracket(a)) == [AppendMarker, Bracket(a)]
  {
    var k := AppendMarker + Bracket(a);
    WrappedCons(["", a]);
    assert Wrapped(["", a])[1..] == Wrapped([a]);
    assert Concat(Wrapped(["", a])) == k;
    SegmentsRoundTrip("", ["", a]);
    LeadingBracketHasNoPrefix(k);
  }

  lemma NameThenName(m: map<string, Node>, b: string, c: string, v: string)
    requires Name(b) && Name(c) && b !in m
    ensures HashSerialize(m, Bracket(b) + Bracket(c), v) == Ok(m[b := Obj(map[c := Str(v)])])
  {
    TwoGroups(b, c);
    NestedName(m, b, c, v);
  }

  lemma TwoGroups(b: string, c: string)
    requires Name(b) && Name(c)
    ensures HasBrackets(Bracket(b) + Bracket(c))
    ensures Segments(Bracket(b) + Bracket(c)) == [Bracket(b), Bracket(c)]
  {
    var k := Bracket(b) + Bracket(c);
    WrappedCons([b, c]);
    assert Concat(Wrapped([b, c])) == k;
    SegmentsRoundTrip("", [b, c]);
    LeadingBracketHasNoPrefix(k);
  }

  lemma NestedName(m: map<string, Node>, b: string, c: string, v: string)
    requires Name(b) && Name(c) && b !in m
    ensures Assign(Some(Obj(m)), [Bracket(b), Bracket(c)], v) == Ok(Obj(m[b := Obj(map[c := Str(v)])]))
  {
    BetweenOfBracket(b);
    BetweenOfBracket(c);
    assert TargetField(Bracket(b)) == b;
    assert Assign(None, [Bracket(c)], v) == Ok(Obj(map[c := Str(v)]));
    assert [Bracket(b), Bracket(c)] == [Bracket(b)] + [Bracket(c)];
    WriteIntoMapping(m, Bracket(b), [Bracket(c)], v);
  }

  /** Content that starts with digits but is not all digits, such as
      `123abc`, names a field rather than an index. */
  lemma DigitPrefixIsAName()
    ensures !Numbers.IsIndex("123abc")
    ensures TargetField(Bracket("123abc")) == "123abc"
  {
    assert !Numbers.IsDigit("123abc"[3]);
    BetweenOfBracket("123abc");
  }
}
