/** Conversions between non-negative integers and their decimal text, as
    JavaScript's `Number(s)` and `` `${n}` `` perform them on strings of
    decimal digits and on safe integers. */
module JsNumbers {
  import opened JsStrings

  /** The largest integer a JavaScript number holds exactly, 2^53 - 1. */
  const MaxSafeInteger: nat := 0x1F_FFFF_FFFF_FFFF

  predicate IsDigit(u: CodeUnit) {
    0x30 <= u <= 0x39
  }

  predicate IsDigits(s: JsString) {
    forall i | 0 <= i < |s| :: IsDigit(s[i])
  }

  /** `Number(s)` for a string of decimal digits: leading zeros do not count
      and the empty string is 0. */
  function ParseDigits(s: JsString): (n: nat)
    requires IsDigits(s)
    decreases |s|
  {
    if s == [] then 0 else 10 * ParseDigits(s[..|s| - 1]) + (s[|s| - 1] - 0x30)
  }

  /** `` `${n}` ``: the shortest decimal text of `n`, which starts with "0"
      only when it is "0". */
  function ToDecimal(n: nat): (r: JsString)
    ensures r != [] && IsDigits(r)
    ensures r[0] == 0x30 <==> n == 0
    ensures n < 10 <==> |r| == 1
    decreases n
  {
    if n < 10 then [0x30 + n] else ToDecimal(n / 10) + [0x30 + n % 10]
  }

  /** Reading back the decimal text of `n` gives `n`. */
  lemma {:induction false} ParseToDecimal(n: nat)
    ensures ParseDigits(ToDecimal(n)) == n
    decreases n
  {
    if n >= 10 {
      var r := ToDecimal(n);
      assert r[..|r| - 1] == ToDecimal(n / 10);
      ParseToDecimal(n / 10);
    }
  }

  /** Different numbers have different decimal texts. */
  lemma ToDecimalInjective(m: nat, n: nat)
    requires ToDecimal(m) == ToDecimal(n)
    ensures m == n
  {
    ParseToDecimal(m);
    ParseToDecimal(n);
  }

  /** A number and its text: the text is the canonical one exactly when it
      is the decimal text of what it reads as. */
  lemma {:induction false} ToDecimalParse(s: JsString)
    requires IsDigits(s) && s != []
    requires s[0] != 0x30 || |s| == 1
    ensures ToDecimal(ParseDigits(s)) == s
    decreases |s|
  {
    if |s| > 1 {
      var init := s[..|s| - 1];
      var n := ParseDigits(s);
      ToDecimalParse(init);
      ParseDigitsPositive(init);
      var d := s[|s| - 1] - 0x30;
      assert n == 10 * ParseDigits(init) + d;
      DivMod10(ParseDigits(init), d);
      assert ToDecimal(n) == ToDecimal(n / 10) + [0x30 + n % 10];
      assert s == init + [s[|s| - 1]];
    }
  }

  lemma DivMod10(q: nat, d: nat)
    requires d < 10
    ensures (10 * q + d) / 10 == q && (10 * q + d) % 10 == d
  {
  }

  /** A digit string that does not start with "0" reads as a positive number. */
  lemma {:induction false} ParseDigitsPositive(s: JsString)
    requires IsDigits(s) && s != [] && s[0] != 0x30
    ensures ParseDigits(s) > 0
    decreases |s|
  {
    if |s| > 1 {
      ParseDigitsPositive(s[..|s| - 1]);
    }
  }
}
