/** URI-component encoding as `encodeURIComponent` and `decodeURIComponent`
    perform it (ECMA-262, sections 19.2.6.5 and 19.2.6.2): every code point
    outside the unreserved set is written as the `%XY` escapes of its UTF-8
    octets (RFC 3986, section 2.1; RFC 3629, section 3), and a lone surrogate
    is a URIError. */
module UriComponent {
  import opened Wrappers
  import opened JsStrings

  type Byte = b: nat | b < 0x100

  /** A Unicode code point. */
  type CodePoint = c: nat | c <= 0x10_FFFF

  const PercentSign: CodeUnit := 0x25

  predicate IsHighSurrogate(u: CodeUnit) {
    0xD800 <= u <= 0xDBFF
  }

  predicate IsLowSurrogate(u: CodeUnit) {
    0xDC00 <= u <= 0xDFFF
  }

  /** A code point that UTF-8 can carry: anything but a surrogate. */
  predicate IsScalar(c: CodePoint) {
    c < 0xD800 || 0xDFFF < c
  }

  /** The uriUnescaped set: ASCII letters and digits and - _ . ! ~ * ' ( ) */
  predicate IsUnescaped(u: CodeUnit) {
    || 0x41 <= u <= 0x5A || 0x61 <= u <= 0x7A || 0x30 <= u <= 0x39
    || u == 0x2D || u == 0x5F || u == 0x2E || u == 0x21 || u == 0x7E
    || u == 0x2A || u == 0x27 || u == 0x28 || u == 0x29
  }

  /** Text that is safe inside a URI component: unreserved characters and
      percent signs only. */
  predicate IsUriSafe(t: JsString) {
    forall i | 0 <= i < |t| :: IsUnescaped(t[i]) || t[i] == PercentSign
  }

  /** Every high surrogate is followed by a low one and every low surrogate
      preceded by a high one: the string is valid UTF-16. */
  predicate IsWellFormed(s: JsString) {
    forall i | 0 <= i < |s| :: PairedAt(s, i)
  }

  /** The code unit at `i` is not half of a broken surrogate pair. */
  predicate PairedAt(s: JsString, i: nat)
    requires i < |s|
  {
    && (IsHighSurrogate(s[i]) ==> i + 1 < |s| && IsLowSurrogate(s[i + 1]))
    && (IsLowSurrogate(s[i]) ==> 0 < i && IsHighSurrogate(s[i - 1]))
  }

  /** The code point a surrogate pair stands for. */
  function PairCodePoint(hi: CodeUnit, lo: CodeUnit): (c: CodePoint)
    requires IsHighSurrogate(hi) && IsLowSurrogate(lo)
    ensures 0x1_0000 <= c && IsScalar(c)
  {
    0x1_0000 + (hi - 0xD800) * 0x400 + (lo - 0xDC00)
  }

  /** UTF16EncodeCodePoint: one code unit, or a surrogate pair above U+FFFF. */
  function Utf16(c: CodePoint): (r: JsString)
    requires IsScalar(c)
  {
    if c < 0x1_0000 then [c]
    else [0xD800 + (c - 0x1_0000) / 0x400, 0xDC00 + (c - 0x1_0000) % 0x400]
  }

  /** The UTF-8 octets of a scalar value. */
  function Utf8(c: CodePoint): (r: seq<Byte>)
    requires IsScalar(c)
    ensures 1 <= |r| <= 4
  {
    if c < 0x80 then [c]
    else if c < 0x800 then [0xC0 + c / 64, 0x80 + c % 64]
    else if c < 0x1_0000 then [0xE0 + c / 64 / 64, 0x80 + c / 64 % 64, 0x80 + c % 64]
    else [0xF0 + c / 64 / 64 / 64, 0x80 + c / 64 / 64 % 64, 0x80 + c / 64 % 64, 0x80 + c % 64]
  }

  /** An upper-case hexadecimal digit. */
  function HexDigit(d: nat): (u: CodeUnit)
    requires d < 16
  {
    if d < 10 then 0x30 + d else 0x41 + (d - 10)
  }

  predicate IsHexDigit(u: CodeUnit) {
    0x30 <= u <= 0x39 || 0x41 <= u <= 0x46 || 0x61 <= u <= 0x66
  }

  /** The value of a hexadecimal digit of either case. */
  function HexValue(u: CodeUnit): (d: nat)
    requires IsHexDigit(u)
    ensures d < 16
  {
    if u <= 0x39 then u - 0x30 else if u <= 0x46 then u - 0x41 + 10 else u - 0x61 + 10
  }

  /** The `%XY` escapes of a sequence of octets. */
  function Escape(octets: seq<Byte>): (r: JsString)
    ensures |r| == 3 * |octets|
    ensures IsUriSafe(r)
  {
    if octets == [] then []
    else [PercentSign, HexDigit(octets[0] / 16), HexDigit(octets[0] % 16)] + Escape(octets[1..])
  }

  function Prepend(prefix: JsString, rest: Option<JsString>): Option<JsString> {
    if rest.Some? then Some(prefix + rest.value) else None
  }

  /** `encodeURIComponent(s)`; None stands for the URIError thrown on a lone
      surrogate. What it produces is always safe inside a URI component. */
  function Encode(s: JsString): (r: Option<JsString>)
    ensures r.Some? ==> IsUriSafe(r.value)
    decreases |s|
  {
    if s == [] then Some([])
    else if IsUnescaped(s[0]) then Prepend([s[0]], Encode(s[1..]))
    else if IsLowSurrogate(s[0]) then None
    else if IsHighSurrogate(s[0]) then
      if |s| < 2 || !IsLowSurrogate(s[1]) then None
      else Prepend(Escape(Utf8(PairCodePoint(s[0], s[1]))), Encode(s[2..]))
    else Prepend(Escape(Utf8(s[0])), Encode(s[1..]))
  }

  /** The octet written as `%XY` at position `i` of `t`, if there is one. */
  function OctetAt(t: JsString, i: nat): (r: Option<Byte>)
    ensures r.Some? ==> i + 3 <= |t|
  {
    if i + 3 <= |t| && t[i] == PercentSign && IsHexDigit(t[i + 1]) && IsHexDigit(t[i + 2])
    then Some(16 * HexValue(t[i + 1]) + HexValue(t[i + 2]))
    else None
  }

  /** The octets of `n` consecutive escapes at the start of `t`. */
  function Octets(t: JsString, n: nat): (r: Option<seq<Byte>>)
    ensures r.Some? ==> |r.value| == n && 3 * n <= |t|
    decreases n
  {
    if n == 0 then Some([])
    else match OctetAt(t, 0)
      case None => None
      case Some(b) =>
        match Octets(t[3..], n - 1)
        case None => None
        case Some(rest) => Some([b] + rest)
  }

  /** How many octets a UTF-8 sequence with this first octet has; 0 when the
      octet cannot start one. */
  function SequenceLength(lead: Byte): nat {
    if lead < 0x80 then 1
    else if 0xC0 <= lead < 0xE0 then 2
    else if 0xE0 <= lead < 0xF0 then 3
    else if 0xF0 <= lead < 0xF8 then 4
    else 0
  }

  predicate IsContinuation(b: Byte) {
    0x80 <= b < 0xC0
  }

  /** The code point a UTF-8 sequence encodes; None for an invalid one: a bad
      continuation octet, an over-long form, a surrogate or a value beyond
      U+10FFFF. */
  function Utf8Decode(bs: seq<Byte>): (r: Option<CodePoint>)
    ensures r.Some? ==> IsScalar(r.value)
  {
    if |bs| == 1 && bs[0] < 0x80 then Some(bs[0])
    else if |bs| == 2 && 0xC0 <= bs[0] < 0xE0 && IsContinuation(bs[1]) then
      var c: int := (bs[0] as int - 0xC0) * 64 + (bs[1] as int - 0x80);
      if c < 0x80 then None else Some(c)
    else if |bs| == 3 && 0xE0 <= bs[0] < 0xF0 && IsContinuation(bs[1]) && IsContinuation(bs[2]) then
      var c: int := ((bs[0] as int - 0xE0) * 64 + (bs[1] as int - 0x80)) * 64 + (bs[2] as int - 0x80);
      if c < 0x800 || 0xD800 <= c <= 0xDFFF then None else Some(c)
    else if |bs| == 4 && 0xF0 <= bs[0] < 0xF8 && IsContinuation(bs[1]) && IsContinuation(bs[2])
         && IsContinuation(bs[3]) then
      var c: int := (((bs[0] as int - 0xF0) * 64 + (bs[1] as int - 0x80)) * 64 + (bs[2] as int - 0x80)) * 64 + (bs[3] as int - 0x80);
      if c < 0x1_0000 || c > 0x10_FFFF then None else Some(c)
    else None
  }

  /** `decodeURIComponent(t)`; None stands for the URIError thrown on a
      malformed escape or invalid UTF-8. */
  function Decode(t: JsString): (r: Option<JsString>)
    decreases |t|
  {
    if t == [] then Some([])
    else if t[0] != PercentSign then Prepend([t[0]], Decode(t[1..]))
    else match OctetAt(t, 0)
      case None => None
      case Some(lead) =>
        var n := SequenceLength(lead);
        if n == 0 then None
        else match Octets(t, n)
          case None => None
          case Some(bs) =>
            match Utf8Decode(bs)
            case None => None
            case Some(c) => Prepend(Utf16(c), Decode(t[3 * n..]))
  }

  // ----- the round trip -----

  lemma HexRoundTrip(b: Byte)
    ensures IsHexDigit(HexDigit(b / 16)) && IsHexDigit(HexDigit(b % 16))
    ensures 16 * HexValue(HexDigit(b / 16)) + HexValue(HexDigit(b % 16)) == b
  {
  }

  /** Reading the escapes of `octets` back gives `octets`. */
  lemma {:induction false} OctetsOfEscape(octets: seq<Byte>, rest: JsString)
    ensures Octets(Escape(octets) + rest, |octets|) == Some(octets)
    decreases |octets|
  {
    if octets != [] {
      var t := Escape(octets) + rest;
      var tail := Escape(octets[1..]) + rest;
      FirstEscape(octets, rest);
      OctetsOfEscape(octets[1..], rest);
      assert Octets(t, |octets|) == Some([octets[0]] + octets[1..]);
      assert [octets[0]] + octets[1..] == octets;
    }
  }

  /** The first escape of `octets` reads as its first octet and is followed
      by the escapes of the others. */
  lemma FirstEscape(octets: seq<Byte>, rest: JsString)
    requires octets != []
    ensures var t := Escape(octets) + rest;
      OctetAt(t, 0) == Some(octets[0]) && t[3..] == Escape(octets[1..]) + rest
  {
    var b := octets[0];
    var e := [PercentSign, HexDigit(b / 16), HexDigit(b % 16)];
    var tail := Escape(octets[1..]) + rest;
    assert Escape(octets) + rest == e + tail by {
      assert Escape(octets) == e + Escape(octets[1..]);
    }
    EscapeReads(b, tail);
  }

  /** `%XY` followed by anything reads as the octet it escapes. */
  lemma EscapeReads(b: Byte, tail: JsString)
    ensures var t := [PercentSign, HexDigit(b / 16), HexDigit(b % 16)] + tail;
      OctetAt(t, 0) == Some(b) && t[3..] == tail
  {
    HexRoundTrip(b);
  }

  /** The first UTF-8 octet announces the length of the whole sequence. */
  lemma Utf8Length(c: CodePoint)
    requires IsScalar(c)
    ensures SequenceLength(Utf8(c)[0]) == |Utf8(c)|
  {
  }

  lemma Utf8RoundTrip(c: CodePoint)
    requires IsScalar(c)
    ensures Utf8Decode(Utf8(c)) == Some(c)
  {
    var q1 := c / 64;
    var q2 := q1 / 64;
    var q3 := q2 / 64;
    assert c == 64 * q1 + c % 64;
    assert q1 == 64 * q2 + q1 % 64;
    assert q2 == 64 * q3 + q2 % 64;
  }

  lemma Utf16OfPair(hi: CodeUnit, lo: CodeUnit)
    requires IsHighSurrogate(hi) && IsLowSurrogate(lo)
    ensures Utf16(PairCodePoint(hi, lo)) == [hi, lo]
  {
    var c := PairCodePoint(hi, lo);
    assert c - 0x1_0000 == (hi - 0xD800) * 0x400 + (lo - 0xDC00);
  }

  /** Decoding the escapes of one code point gives its UTF-16 code units. */
  lemma DecodeEscaped(c: CodePoint, rest: JsString)
    requires IsScalar(c)
    ensures Decode(Escape(Utf8(c)) + rest) == Prepend(Utf16(c), Decode(rest))
  {
    var bs := Utf8(c);
    var t := Escape(bs) + rest;
    HexRoundTrip(bs[0]);
    assert OctetAt(t, 0) == Some(bs[0]);
    Utf8Length(c);
    OctetsOfEscape(bs, rest);
    Utf8RoundTrip(c);
    assert t[3 * |bs|..] == rest;
  }

  /** `decodeURIComponent(encodeURIComponent(s))` gives `s` back whenever
      the encoding succeeds. */
  lemma {:induction false} DecodeEncode(s: JsString)
    requires Encode(s).Some?
    ensures Decode(Encode(s).value) == Some(s)
    decreases |s|
  {
    if s != [] {
      if IsUnescaped(s[0]) {
        DecodeEncode(s[1..]);
        DecodeEncodeUnescaped(s);
      } else if IsHighSurrogate(s[0]) {
        DecodeEncode(s[2..]);
        DecodeEncodePair(s);
      } else {
        DecodeEncode(s[1..]);
        DecodeEncodeEscaped(s);
      }
    }
  }

  /** One step of the round trip: an unescaped first code unit. */
  lemma DecodeEncodeUnescaped(s: JsString)
    requires s != [] && IsUnescaped(s[0]) && Encode(s).Some?
    requires Decode(Encode(s[1..]).value) == Some(s[1..])
    ensures Decode(Encode(s).value) == Some(s)
  {
    var t := Encode(s).value;
    assert t == [s[0]] + Encode(s[1..]).value;
    assert t[0] != PercentSign && t[1..] == Encode(s[1..]).value;
    assert [s[0]] + s[1..] == s;
  }

  /** One step of the round trip: a surrogate pair first. */
  lemma DecodeEncodePair(s: JsString)
    requires |s| >= 2 && IsHighSurrogate(s[0]) && IsLowSurrogate(s[1]) && Encode(s[2..]).Some?
    requires Decode(Encode(s[2..]).value) == Some(s[2..])
    ensures Encode(s).Some? && Decode(Encode(s).value) == Some(s)
  {
    var c := PairCodePoint(s[0], s[1]);
    var rest := Encode(s[2..]).value;
    assert Encode(s) == Some(Escape(Utf8(c)) + rest);
    DecodeEscaped(c, rest);
    Utf16OfPair(s[0], s[1]);
    assert Decode(Escape(Utf8(c)) + rest) == Some([s[0], s[1]] + s[2..]);
    assert [s[0], s[1]] + s[2..] == s;
  }

  /** One step of the round trip: a code unit escaped on its own first. */
  lemma DecodeEncodeEscaped(s: JsString)
    requires s != [] && !IsUnescaped(s[0]) && !IsHighSurrogate(s[0]) && Encode(s).Some?
    requires Decode(Encode(s[1..]).value) == Some(s[1..])
    ensures Decode(Encode(s).value) == Some(s)
  {
    assert !IsLowSurrogate(s[0]);
    var rest := Encode(s[1..]).value;
    assert Encode(s) == Some(Escape(Utf8(s[0])) + rest);
    DecodeEscaped(s[0], rest);
    assert Decode(Escape(Utf8(s[0])) + rest) == Some([s[0]] + s[1..]);
    assert [s[0]] + s[1..] == s;
  }

  /** Dropping a complete first character (one code unit that is not a
      surrogate, or a surrogate pair) keeps a string well formed, and only a
      well-formed rest makes the whole well formed. */
  lemma WellFormedTail(s: JsString, k: nat)
    requires k == 1 || k == 2
    requires k <= |s|
    requires k == 1 ==> !IsHighSurrogate(s[0]) && !IsLowSurrogate(s[0])
    requires k == 2 ==> IsHighSurrogate(s[0]) && IsLowSurrogate(s[1])
    ensures IsWellFormed(s) <==> IsWellFormed(s[k..])
  {
    var t := s[k..];
    if IsWellFormed(s) {
      forall i | 0 <= i < |t|
        ensures PairedAt(t, i)
      {
        assert PairedAt(s, i + k);
      }
    }
    if IsWellFormed(t) {
      forall i | 0 <= i < |s|
        ensures PairedAt(s, i)
      {
        if i >= k {
          assert PairedAt(t, i - k);
        } else if i + 1 < |s| && i + 1 >= k {
          assert PairedAt(t, i + 1 - k);
        }
      }
    }
  }

  /** Joining two strings with a middle part that holds no surrogate keeps
      every pair intact: the whole is well formed exactly when both outer
      parts are. */
  lemma WellFormedJoin(a: JsString, m: JsString, b: JsString)
    requires m != []
    requires forall i | 0 <= i < |m| :: !IsHighSurrogate(m[i]) && !IsLowSurrogate(m[i])
    ensures IsWellFormed(a + m + b) <==> IsWellFormed(a) && IsWellFormed(b)
  {
    var s := a + m + b;
    var j := |a| + |m|;
    if IsWellFormed(s) {
      forall i | 0 <= i < |a|
        ensures PairedAt(a, i)
      {
        assert PairedAt(s, i);
        if i + 1 < |a| {
          assert s[i + 1] == a[i + 1];
        } else {
          assert s[i + 1] == m[0];
        }
      }
      forall i | 0 <= i < |b|
        ensures PairedAt(b, i)
      {
        assert PairedAt(s, j + i);
        if i == 0 {
          assert s[j - 1] == m[|m| - 1];
        }
      }
    }
    if IsWellFormed(a) && IsWellFormed(b) {
      forall i | 0 <= i < |s|
        ensures PairedAt(s, i)
      {
        if i < |a| {
          assert PairedAt(a, i);
          if i + 1 == |a| {
            assert s[i + 1] == m[0];
          }
        } else if i < j {
          assert s[i] == m[i - |a|];
        } else {
          assert PairedAt(b, i - j);
          if i == j {
            assert s[i - 1] == m[|m| - 1];
          }
        }
      }
    }
  }

  /** A lone surrogate at position `i` makes the string ill formed. */
  lemma IllFormedAt(s: JsString, i: nat)
    requires i < |s|
    requires || (IsHighSurrogate(s[i]) && (i + 1 == |s| || !IsLowSurrogate(s[i + 1])))
             || (IsLowSurrogate(s[i]) && (i == 0 || !IsHighSurrogate(s[i - 1])))
    ensures !IsWellFormed(s)
  {
    assert !PairedAt(s, i);
  }

  /** `encodeURIComponent` throws exactly on text that is not well-formed
      UTF-16, that is, text holding a lone surrogate. */
  lemma {:induction false} EncodeDefinedIff(s: JsString)
    ensures Encode(s).Some? <==> IsWellFormed(s)
    decreases |s|
  {
    if s != [] {
      if IsLowSurrogate(s[0]) {
        IllFormedAt(s, 0);
      } else if IsHighSurrogate(s[0]) {
        if |s| >= 2 && IsLowSurrogate(s[1]) {
          EncodeDefinedIff(s[2..]);
          WellFormedTail(s, 2);
        } else {
          IllFormedAt(s, 0);
        }
      } else {
        EncodeDefinedIff(s[1..]);
        WellFormedTail(s, 1);
      }
    }
  }

  /** Two texts with the same encoding are the same text. */
  lemma EncodeInjective(s: JsString, s': JsString)
    requires Encode(s).Some? && Encode(s) == Encode(s')
    ensures s == s'
  {
    DecodeEncode(s);
    DecodeEncode(s');
  }
}
