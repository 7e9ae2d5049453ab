/** The URL-encoded serializer (`strSerialize`): the
    `application/x-www-form-urlencoded` format of section 17.13.4 of HTML 4.01,
    built on `encodeURIComponent` (ECMA-262, section 19.2.6.5). */
module UrlEncoding {
  import opened Base

  newtype byte = x: int | 0 <= x < 256

  /** The characters `encodeURIComponent` leaves as they are: letters, digits
      and the marks `- _ . ! ~ * ' ( )` */
  predicate Unreserved(c: char) {
    ('A' <= c <= 'Z') || ('a' <= c <= 'z') || ('0' <= c <= '9') || c in "-_.!~*'()"
  }

  /** An unreserved character is ASCII, is neither `%`, `+` nor a space, and
      is encoded as itself. */
  lemma UnreservedIsAscii(c: char)
    requires Unreserved(c)
    ensures c != '+' && c != '%' && c != ' ' && c as int < 0x80
    ensures EncodeChar(c) == [c] && FormChar(c) == [c]
  {
    if c in "-_.!~*'()" {
      var i :| 0 <= i < 9 && "-_.!~*'()"[i] == c;
      assert c as int < 0x80;
    }
  }

  /** A UTF-8 continuation byte carrying six payload bits */
  function Cont(bits: int): byte
    requires 0 <= bits < 64
  {
    (0x80 + bits) as byte
  }

  /** The UTF-8 encoding of one code point (a `char` is never a surrogate) */
  function Utf8(c: char): (r: seq<byte>)
    ensures 1 <= |r| <= 4
    ensures (|r| == 1) == (c as int < 0x80)
    ensures |r| == 1 ==> r[0] as int == c as int
    ensures |r| > 1 ==> forall i | 0 <= i < |r| :: r[i] >= 0x80
  {
    var cp := c as int;
    if cp < 0x80 then [cp as byte]
    else if cp < 0x800 then [(0xC0 + cp / 64) as byte, Cont(cp % 64)]
    else if cp < 0x10000 then [(0xE0 + cp / 64 / 64) as byte, Cont(cp / 64 % 64), Cont(cp % 64)]
    else [(0xF0 + cp / 64 / 64 / 64) as byte, Cont(cp / 64 / 64 % 64), Cont(cp / 64 % 64), Cont(cp % 64)]
  }

  /** The UTF-8 encoding of a string */
  function Utf8Of(s: string): seq<byte>
    decreases |s|
  {
    if s == "" then [] else Utf8(s[0]) + Utf8Of(s[1..])
  }

  function HexDigit(d: int): (c: char)
    requires 0 <= d < 16
  {
    "0123456789ABCDEF"[d]
  }

  predicate IsHexDigit(c: char) {
    ('0' <= c <= '9') || ('A' <= c <= 'F') || ('a' <= c <= 'f')
  }

  function HexValue(c: char): (d: int)
    requires IsHexDigit(c)
    ensures 0 <= d < 16
  {
    if '0' <= c <= '9' then c as int - '0' as int
    else if 'A' <= c <= 'F' then c as int - 'A' as int + 10
    else c as int - 'a' as int + 10
  }

  lemma HexDigitValue(d: int)
    requires 0 <= d < 16
    ensures IsHexDigit(HexDigit(d)) && HexValue(HexDigit(d)) == d
    ensures HexDigit(d) != '%' && HexDigit(d) != '+'
  {
  }

  /** `%XY` with upper-case hex digits */
  function PercentByte(b: byte): string {
    ['%', HexDigit(b as int / 16), HexDigit(b as int % 16)]
  }

  function PercentBytes(bs: seq<byte>): (r: string)
    ensures |r| == 3 * |bs|
    decreases |bs|
  {
    if bs == [] then "" else PercentByte(bs[0]) + PercentBytes(bs[1..])
  }

  function EncodeChar(c: char): (r: string)
    ensures 1 <= |r| <= 12
  {
    if Unreserved(c) then [c] else PercentBytes(Utf8(c))
  }

  /** `encodeURIComponent(s)`: each character becomes itself or the
      three-character escapes of its 1 to 4 UTF-8 bytes. */
  function EncodeURIComponent(s: string): (r: string)
    ensures |s| <= |r| <= 12 * |s|
    decreases |s|
  {
    if s == "" then "" else EncodeChar(s[0]) + EncodeURIComponent(s[1..])
  }

  /** Encoding works character by character. */
  lemma {:induction false} EncodeAppend(a: string, b: string)
    ensures EncodeURIComponent(a + b) == EncodeURIComponent(a) + EncodeURIComponent(b)
    ensures FormEncode(a + b) == FormEncode(a) + FormEncode(b)
    decreases |a|
  {
    if a == "" {
      assert a + b == b;
    } else {
      var s := a + b;
      assert s[0] == a[0] && s[1..] == a[1..] + b;
      EncodeAppend(a[1..], b);
      calc {
        EncodeURIComponent(s);
        EncodeChar(a[0]) + EncodeURIComponent(a[1..] + b);
        EncodeChar(a[0]) + (EncodeURIComponent(a[1..]) + EncodeURIComponent(b));
        (EncodeChar(a[0]) + EncodeURIComponent(a[1..])) + EncodeURIComponent(b);
      }
      calc {
        FormEncode(s);
        FormChar(a[0]) + FormEncode(a[1..] + b);
        FormChar(a[0]) + (FormEncode(a[1..]) + FormEncode(b));
        (FormChar(a[0]) + FormEncode(a[1..])) + FormEncode(b);
      }
    }
  }

  /** `value.replace(/(\r)?\n/g, '\r\n')`: every line feed, with or without a
      carriage return before it, becomes CR LF; a lone carriage return stays. */
  function Crlf(s: string): (r: string)
    // only a carriage return can be added, at most one per line feed
    ensures |s| <= |r| <= 2 * |s|
    decreases |s|
  {
    if s == "" then ""
    else if s[0] == '\n' then "\r\n" + Crlf(s[1..])
    else if |s| >= 2 && s[0] == '\r' && s[1] == '\n' then "\r\n" + Crlf(s[2..])
    else [s[0]] + Crlf(s[1..])
  }

  /** `s.replace(/%20/g, '+')`, scanning left to right without overlaps */
  function ReplacePercent20(s: string): (r: string)
    // each output character stands for one input character, or for a whole `%20`
    ensures |r| <= |s| <= 3 * |r|
    decreases |s|
  {
    if s == "" then ""
    else if |s| >= 3 && s[..3] == "%20" then "+" + ReplacePercent20(s[3..])
    else [s[0]] + ReplacePercent20(s[1..])
  }

  /** `strSerialize(result, key, value)`: appends `key=value`, separated from
      what came before by `&`, with both parts percent-encoded, line breaks
      of the value normalised to CR LF and its spaces written as `+`. */
  function StrSerialize(acc: string, key: string, value: string): (r: string)
    ensures r == acc + (if acc != "" then "&" else "") + EncodeURIComponent(key) + "=" + FormValue(value)
  {
    FormEncodeRewrite(Crlf(value));
    acc + (if acc != "" then "&" else "") + EncodeURIComponent(key) + "="
        + ReplacePercent20(EncodeURIComponent(Crlf(value)))
  }

  /** Reference encoding of a form value, character by character: a space is
      `+`, every other character is encoded as `encodeURIComponent` does. */
  function FormChar(c: char): string {
    if c == ' ' then "+" else EncodeChar(c)
  }

  function FormEncode(s: string): string
    decreases |s|
  {
    if s == "" then "" else FormChar(s[0]) + FormEncode(s[1..])
  }

  function FormValue(value: string): string {
    FormEncode(Crlf(value))
  }

  lemma ReplaceSkipsChar(c: char, rest: string)
    requires c != '%'
    ensures ReplacePercent20([c] + rest) == [c] + ReplacePercent20(rest)
  {
    var s := [c] + rest;
    assert s[0] == c;
    assert !(|s| >= 3 && s[..3] == "%20") by {
      if |s| >= 3 {
        assert s[..3][0] == c;
      }
    }
    assert s[1..] == rest;
  }

  lemma ReplaceOverPercentByte(b: byte, tail: string)
    requires b != 0x20
    ensures ReplacePercent20(PercentByte(b) + tail) == PercentByte(b) + ReplacePercent20(tail)
  {
    var h1, h2 := HexDigit(b as int / 16), HexDigit(b as int % 16);
    HexDigitValue(b as int / 16);
    HexDigitValue(b as int % 16);
    ReplaceSkipsChar(h2, tail);
    ReplaceSkipsChar(h1, [h2] + tail);
    var s := PercentByte(b) + tail;
    assert s[..3] == ['%', h1, h2];
    assert HexValue('2') == 2 && HexValue('0') == 0;
    assert s[..3] != "%20";
    assert s[1..] == [h1] + ([h2] + tail);
  }

  lemma {:induction false} ReplaceOverPercentBytes(bs: seq<byte>, rest: string)
    requires forall i | 0 <= i < |bs| :: bs[i] != 0x20
    ensures ReplacePercent20(PercentBytes(bs) + rest) == PercentBytes(bs) + ReplacePercent20(rest)
    decreases |bs|
  {
    if bs != [] {
      var b, t := bs[0], PercentBytes(bs[1..]);
      calc {
        ReplacePercent20(PercentBytes(bs) + rest);
        { assert PercentBytes(bs) + rest == PercentByte(b) + (t + rest); }
        ReplacePercent20(PercentByte(b) + (t + rest));
        { ReplaceOverPercentByte(b, t + rest); }
        PercentByte(b) + ReplacePercent20(t + rest);
        { ReplaceOverPercentBytes(bs[1..], rest); }
        PercentByte(b) + (t + ReplacePercent20(rest));
        PercentBytes(bs) + ReplacePercent20(rest);
      }
    } else {
      assert PercentBytes(bs) + rest == rest;
    }
  }

  /** Replacing `%20` after encoding is the same as writing each space as `+`:
      no `%20` straddles two encoded characters, and only a space encodes to
      one. */
  lemma {:induction false} FormEncodeRewrite(t: string)
    ensures ReplacePercent20(EncodeURIComponent(t)) == FormEncode(t)
    decreases |t|
  {
    if t != "" {
      var c := t[0];
      var rest := EncodeURIComponent(t[1..]);
      FormEncodeRewrite(t[1..]);
      if c == ' ' {
        assert Utf8(c) == [0x20];
        var s := EncodeChar(c) + rest;
        assert EncodeChar(c) == "%20";
        assert s[..3] == "%20" && s[3..] == rest;
      } else if Unreserved(c) {
        ReplaceSkipsChar(c, rest);
      } else {
        ReplaceOverPercentBytes(Utf8(c), rest);
      }
    }
  }

  /** Decoding of the form encoding back to bytes: `+` is a space, `%XY`
      is the byte with that hex value, any other ASCII character is itself. */
  function FormDecode(s: string): Option<seq<byte>>
    decreases |s|
  {
    if s == "" then Some([])
    else if s[0] == '+' then
      match FormDecode(s[1..])
      case None => None
      case Some(rest) => Some([0x20 as byte] + rest)
    else if s[0] == '%' then
      if |s| >= 3 && IsHexDigit(s[1]) && IsHexDigit(s[2]) then
        match FormDecode(s[3..])
        case None => None
        case Some(rest) => Some([(HexValue(s[1]) * 16 + HexValue(s[2])) as byte] + rest)
      else None
    else if s[0] as int < 0x80 then
      match FormDecode(s[1..])
      case None => None
      case Some(rest) => Some([s[0] as int as byte] + rest)
    else None
  }

  lemma DecodePercentByte(b: byte, tail: string)
    ensures FormDecode(PercentByte(b) + tail) ==
              match FormDecode(tail)
              case None => None
              case Some(r) => Some([b] + r)
  {
    HexDigitValue(b as int / 16);
    HexDigitValue(b as int % 16);
    var s := PercentByte(b) + tail;
    assert s[3..] == tail;
    assert (HexValue(s[1]) * 16 + HexValue(s[2])) as byte == b;
  }

  lemma {:induction false} DecodePercentBytes(bs: seq<byte>, rest: string)
    ensures FormDecode(PercentBytes(bs) + rest) ==
              match FormDecode(rest)
              case None => None
              case Some(r) => Some(bs + r)
    decreases |bs|
  {
    if bs != [] {
      var b, t := bs[0], PercentBytes(bs[1..]);
      assert PercentBytes(bs) + rest == PercentByte(b) + (t + rest);
      DecodePercentByte(b, t + rest);
      DecodePercentBytes(bs[1..], rest);
      if FormDecode(rest).Some? {
        assert [b] + (bs[1..] + FormDecode(rest).value) == bs + FormDecode(rest).value;
      }
    } else {
      assert PercentBytes(bs) + rest == rest;
      if FormDecode(rest).Some? {
        assert bs + FormDecode(rest).value == FormDecode(rest).value;
      }
    }
  }

  lemma DecodeAsciiChar(c: char, rest: string)
    requires c != '+' && c != '%' && c as int < 0x80
    ensures FormDecode([c] + rest) ==
              match FormDecode(rest)
              case None => None
              case Some(r) => Some([c as int as byte] + r)
  {
    assert ([c] + rest)[1..] == rest;
  }

  /** Decoding a form-encoded value gives the UTF-8 bytes of the value with
      its line breaks normalised: nothing is lost but the line-break form. */
  lemma {:induction false} FormValueRoundTrip(t: string)
    ensures FormDecode(FormEncode(t)) == Some(Utf8Of(t))
    decreases |t|
  {
    if t != "" {
      var c := t[0];
      var rest := FormEncode(t[1..]);
      FormValueRoundTrip(t[1..]);
      if c == ' ' {
        assert (FormChar(c) + rest)[1..] == rest;
        assert Utf8(c) == [0x20 as byte];
      } else if Unreserved(c) {
        UnreservedIsAscii(c);
        DecodeAsciiChar(c, rest);
        assert Utf8(c) == [c as int as byte];
      } else {
        DecodePercentBytes(Utf8(c), rest);
      }
    }
  }

  /** Decoding an encoded key gives its UTF-8 bytes. */
  lemma {:induction false} ComponentRoundTrip(t: string)
    ensures FormDecode(EncodeURIComponent(t)) == Some(Utf8Of(t))
    decreases |t|
  {
    if t != "" {
      var c := t[0];
      var rest := EncodeURIComponent(t[1..]);
      ComponentRoundTrip(t[1..]);
      if Unreserved(c) {
        UnreservedIsAscii(c);
        DecodeAsciiChar(c, rest);
        assert Utf8(c) == [c as int as byte];
      } else {
        DecodePercentBytes(Utf8(c), rest);
      }
    }
  }

  /** Decoding UTF-8, rejecting what `Utf8` never produces as a lead byte */
  function Utf8Decode(bs: seq<byte>): Option<string>
    decreases |bs|
  {
    if bs == [] then Some("")
    else
      var b0 := bs[0] as int;
      if b0 < 0x80 then Prepend(b0, Utf8Decode(bs[1..]))
      else if 0xC0 <= b0 < 0xE0 && |bs| >= 2 && IsCont(bs[1]) then
        Prepend((b0 - 0xC0) * 64 + Payload(bs[1]), Utf8Decode(bs[2..]))
      else if 0xE0 <= b0 < 0xF0 && |bs| >= 3 && IsCont(bs[1]) && IsCont(bs[2]) then
        Prepend(((b0 - 0xE0) * 64 + Payload(bs[1])) * 64 + Payload(bs[2]), Utf8Decode(bs[3..]))
      else if 0xF0 <= b0 < 0xF8 && |bs| >= 4 && IsCont(bs[1]) && IsCont(bs[2]) && IsCont(bs[3]) then
        Prepend((((b0 - 0xF0) * 64 + Payload(bs[1])) * 64 + Payload(bs[2])) * 64 + Payload(bs[3]),
                Utf8Decode(bs[4..]))
      else None
  }

  predicate IsCont(b: byte) {
    0x80 <= b < 0xC0
  }

  function Payload(b: byte): int
    requires IsCont(b)
  {
    b as int - 0x80
  }

  predicate IsScalar(cp: int) {
    0 <= cp < 0xD800 || 0xE000 <= cp < 0x11_0000
  }

  function Prepend(cp: int, rest: Option<string>): Option<string> {
    if !IsScalar(cp) then None
    else
      match rest
      case None => None
      case Some(s) => Some([cp as char] + s)
  }

  lemma DecodeOneChar(c: char, rest: seq<byte>)
    ensures Utf8Decode(Utf8(c) + rest) == Prepend(c as int, Utf8Decode(rest))
  {
    var cp := c as int;
    var bs := Utf8(c) + rest;
    var n := |Utf8(c)|;
    assert bs[n..] == rest;
    if cp < 0x80 {
    } else if cp < 0x800 {
      assert cp == cp / 64 * 64 + cp % 64;
    } else if cp < 0x10000 {
      var q := cp / 64;
      assert cp == q * 64 + cp % 64;
      assert q == q / 64 * 64 + q % 64;
    } else {
      var q := cp / 64;
      var q2 := q / 64;
      assert cp == q * 64 + cp % 64;
      assert q == q2 * 64 + q % 64;
      assert q2 == q2 / 64 * 64 + q2 % 64;
    }
  }

  /** UTF-8 decoding undoes UTF-8 encoding. */
  lemma {:induction false} Utf8RoundTrip(s: string)
    ensures Utf8Decode(Utf8Of(s)) == Some(s)
    decreases |s|
  {
    if s != "" {
      Utf8RoundTrip(s[1..]);
      DecodeOneChar(s[0], Utf8Of(s[1..]));
      assert s == [s[0]] + s[1..];
    }
  }

  /** No encoded key or value contains `&` or `=`, so the pairs of a
      serialized form are separated unambiguously; an encoded key contains no
      `+` either, so a `+` always stands for a space of a value. */
  lemma {:induction false} ComponentAlphabet(t: string)
    ensures forall i | 0 <= i < |EncodeURIComponent(t)| :: EncodeURIComponent(t)[i] !in "&=+ "
    ensures forall i | 0 <= i < |FormEncode(t)| :: FormEncode(t)[i] !in "&= "
    decreases |t|
  {
    if t != "" {
      ComponentAlphabet(t[1..]);
      PercentBytesAlphabet(Utf8(t[0]));
    }
  }

  lemma {:induction false} PercentBytesAlphabet(bs: seq<byte>)
    ensures forall i | 0 <= i < |PercentBytes(bs)| :: PercentBytes(bs)[i] !in "&=+ "
    decreases |bs|
  {
    if bs != [] {
      PercentBytesAlphabet(bs[1..]);
      HexDigitValue(bs[0] as int / 16);
      HexDigitValue(bs[0] as int % 16);
    }
  }

  /** In a normalised value every line feed follows a carriage return. */
  predicate CrlfNormal(s: string) {
    forall i | 0 <= i < |s| ::
      (s[i] == '\n' ==> i > 0 && s[i - 1] == '\r')
  }

  /** After normalisation every line feed is preceded by a carriage return. */
  lemma {:induction false} CrlfIsNormal(s: string)
    ensures CrlfNormal(Crlf(s))
    decreases |s|
  {
    if s != "" {
      if s[0] == '\n' {
        CrlfIsNormal(s[1..]);
        PrefixKeepsNormal("\r\n", Crlf(s[1..]));
      } else if |s| >= 2 && s[0] == '\r' && s[1] == '\n' {
        CrlfIsNormal(s[2..]);
        PrefixKeepsNormal("\r\n", Crlf(s[2..]));
      } else {
        CrlfIsNormal(s[1..]);
        PrefixKeepsNormal([s[0]], Crlf(s[1..]));
      }
    }
  }

  lemma PrefixKeepsNormal(p: string, s: string)
    requires CrlfNormal(p) && CrlfNormal(s)
    ensures CrlfNormal(p + s)
  {
    var r := p + s;
    forall i | 0 <= i < |r| && r[i] == '\n'
      ensures i > 0 && r[i - 1] == '\r'
    {
      if i >= |p| {
        var j := i - |p|;
        assert s[j] == '\n';
        assert j > 0 && s[j - 1] == '\r';
        assert r[i - 1] == s[j - 1];
      } else {
        assert p[i] == '\n';
        assert i > 0 && p[i - 1] == '\r';
        assert r[i - 1] == p[i - 1];
      }
    }
  }

  /** Normalising twice is normalising once. */
  lemma {:induction false} CrlfIdempotent(s: string)
    ensures Crlf(Crlf(s)) == Crlf(s)
    decreases |s|
  {
    if s != "" {
      if s[0] == '\n' {
        CrlfIdempotent(s[1..]);
        CrlfOfCrlfPrefix(Crlf(s[1..]));
      } else if |s| >= 2 && s[0] == '\r' && s[1] == '\n' {
        CrlfIdempotent(s[2..]);
        CrlfOfCrlfPrefix(Crlf(s[2..]));
      } else {
        CrlfIdempotent(s[1..]);
        var t := Crlf(s[1..]);
        var r := [s[0]] + t;
        assert r[1..] == t;
        // `t` does not start with a line feed, so `s[0]` is copied again
        CrlfIsNormal(s[1..]);
        assert t == "" || t[0] != '\n';
      }
    }
  }

  lemma CrlfOfCrlfPrefix(t: string)
    requires Crlf(t) == t
    ensures Crlf("\r\n" + t) == "\r\n" + t
  {
    assert ("\r\n" + t)[2..] == t;
  }

  /** `key=value` pieces joined with `&` */
  function Joined(pairs: seq<Pair>): string
    decreases |pairs|
  {
    if pairs == [] then ""
    else
      var init := pairs[..|pairs| - 1];
      var last := pairs[|pairs| - 1];
      var piece := EncodeURIComponent(last.key) + "=" + FormValue(last.value);
      if init == [] then piece else Joined(init) + "&" + piece
  }

  /** Serializing a sequence of pairs from the empty string gives their
      `key=value` pieces joined with `&`, in order. */
  lemma {:induction false} StrFoldIsJoin(pairs: seq<Pair>)
    ensures Fold(StrSerialize, "", pairs) == Joined(pairs)
    decreases |pairs|
  {
    if pairs != [] {
      var init := pairs[..|pairs| - 1];
      StrFoldIsJoin(init);
      if init != [] {
        JoinedNonEmpty(init);
      }
    }
  }

  lemma JoinedNonEmpty(pairs: seq<Pair>)
    requires pairs != []
    ensures Joined(pairs) != ""
  {
    var piece := EncodeURIComponent(pairs[|pairs| - 1].key) + "=" + FormValue(pairs[|pairs| - 1].value);
    assert piece != "";
  }
}
