/** JavaScript strings as the program sees them: sequences of UTF-16 code
    units, with `String.prototype.trim` (ECMA-262, section 22.1.3.32) and the
    white-space test it relies on. */
module JsStrings {

  /** One UTF-16 code unit; a JavaScript `.length` counts these. */
  type CodeUnit = u: nat | u < 0x1_0000

  type JsString = seq<CodeUnit>

  predicate IsAscii(s: string) {
    forall i | 0 <= i < |s| :: s[i] as int < 128
  }

  /** The code units of an ASCII string literal. */
  function Ascii(s: string): (r: JsString)
    requires IsAscii(s)
  {
    seq(|s|, i requires 0 <= i < |s| => s[i] as int)
  }

  /** WhiteSpace or LineTerminator (ECMA-262, sections 12.2 and 12.3): the
      code points that `trim` removes. All of them lie in the Basic
      Multilingual Plane and none is a surrogate, so testing code units is the
      same as testing code points. */
  predicate IsJsWhitespace(u: CodeUnit) {
    || u == 0x09 || u == 0x0A || u == 0x0B || u == 0x0C || u == 0x0D
    || u == 0x20 || u == 0xA0 || u == 0x1680 || 0x2000 <= u <= 0x200A
    || u == 0x2028 || u == 0x2029 || u == 0x202F || u == 0x205F
    || u == 0x3000 || u == 0xFEFF
  }

  predicate AllWhitespace(s: JsString) {
    forall k | 0 <= k < |s| :: IsJsWhitespace(s[k])
  }

  /** How many code units of white space `s` starts with. */
  function LeadingBlanks(s: JsString): (n: nat)
    ensures n <= |s|
    ensures forall k | 0 <= k < n :: IsJsWhitespace(s[k])
    ensures n < |s| ==> !IsJsWhitespace(s[n])
    decreases |s|
  {
    if s != [] && IsJsWhitespace(s[0]) then
      var n := 1 + LeadingBlanks(s[1..]);
      assert forall k | 1 <= k < n :: s[k] == s[1..][k - 1];
      n
    else
      0
  }

  /** How many code units of white space `s` ends with. */
  function TrailingBlanks(s: JsString): (n: nat)
    ensures n <= |s|
    ensures forall k | |s| - n <= k < |s| :: IsJsWhitespace(s[k])
    ensures n < |s| ==> !IsJsWhitespace(s[|s| - n - 1])
    decreases |s|
  {
    if s != [] && IsJsWhitespace(s[|s| - 1]) then
      var n := 1 + TrailingBlanks(s[..|s| - 1]);
      assert forall k | |s| - n <= k < |s| - 1 :: s[k] == s[..|s| - 1][k];
      n
    else
      0
  }

  /** `s.trim()`: `s` without its leading white space, then without its
      trailing white space. It is empty exactly when `s` is all white space,
      and otherwise starts and ends with something else. */
  function Trim(s: JsString): (r: JsString)
    ensures |r| <= |s|
    ensures r == [] <==> AllWhitespace(s)
    ensures r != [] ==> !IsJsWhitespace(r[0]) && !IsJsWhitespace(r[|r| - 1])
  {
    var i := LeadingBlanks(s);
    var t := s[i..];
    var r := t[..|t| - TrailingBlanks(t)];
    assert r != [] ==> r[0] == s[i];
    assert i == |s| ==> AllWhitespace(s);
    assert i < |s| ==> r != [];
    r
  }

  /** The trimmed text is the slice of `s` that starts after its leading
      white space, and only white space follows it in `s`. */
  lemma TrimIsSlice(s: JsString)
    ensures var i := LeadingBlanks(s); var r := Trim(s);
      && i + |r| <= |s|
      && r == s[i..i + |r|]
      && (forall k | i + |r| <= k < |s| :: IsJsWhitespace(s[k]))
  {
    var i := LeadingBlanks(s);
    var t := s[i..];
    var m := |t| - TrailingBlanks(t);
    assert Trim(s) == t[..m];
    assert t[..m] == s[i..i + m];
    TrailingWhitespace(s, i, m);
  }

  /** What follows the trimmed text in `s` is white space. */
  lemma TrailingWhitespace(s: JsString, i: nat, m: nat)
    requires i <= |s| && m <= |s| - i
    requires forall k | m <= k < |s| - i :: IsJsWhitespace(s[i..][k])
    ensures forall k | i + m <= k < |s| :: IsJsWhitespace(s[k])
  {
    forall k | i + m <= k < |s|
      ensures IsJsWhitespace(s[k])
    {
      assert s[k] == s[i..][k - i];
    }
  }

  /** A string that neither starts nor ends with white space is its own trim. */
  lemma TrimUnchanged(s: JsString)
    requires s != [] ==> !IsJsWhitespace(s[0]) && !IsJsWhitespace(s[|s| - 1])
    ensures Trim(s) == s
  {
    assert LeadingBlanks(s) == 0;
    assert s[0..] == s;
    assert TrailingBlanks(s) == 0;
  }

  /** `!s.trim()`: the string is empty once trimmed. */
  predicate IsBlank(s: JsString) {
    Trim(s) == []
  }

  /** Trimming a second time changes nothing. */
  lemma TrimIdempotent(s: JsString)
    ensures Trim(Trim(s)) == Trim(s)
  {
    TrimUnchanged(Trim(s));
  }
}
