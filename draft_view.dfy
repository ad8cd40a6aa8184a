/** What both front ends derive from the draft for display: the rotating
    placeholder prompts, the character-count shown and whether the export
    control shows. */
module DraftView {
  import opened JsStrings
  import opened JsNumbers

  /** The ten prompts shown in the empty note area, in rotation order. They
      are only displayed, never encoded, so they stay Dafny strings. */
  const MotivationalQuotes: seq<string> := [
    "Start typing your tasks...",
    "Turn ideas into action...",
    "Progress begins with the first step...",
    "Small actions, big results...",
    "Make it happen, one note at a time...",
    "Productivity starts here...",
    "Get things done, write them down...",
    "Your next breakthrough is one task away...",
    "Focus on what matters most...",
    "Done is better than perfect..."]

  /** The export control is offered exactly when the draft holds something
      other than white space (`text.trim()` is truthy). */
  function HasContent(text: JsString): bool {
    !IsBlank(text)
  }

  /** The draft has content exactly when some code unit in it is not white
      space. */
  lemma HasContentIff(text: JsString)
    ensures HasContent(text) <==> exists i | 0 <= i < |text| :: !IsJsWhitespace(text[i])
  {
  }

  /** `` `${count} character${count !== 1 ? "s" : ""}` `` */
  function CountLabel(count: nat): JsString {
    ToDecimal(count) + Ascii(" character") + (if count != 1 then Ascii("s") else [])
  }

  /** The label is plural ("... characters") exactly when the count is not 1. */
  lemma CountLabelPlural(count: nat)
    ensures var text := CountLabel(count);
      |text| > 0 && (text[|text| - 1] == 0x73 <==> count != 1)
  {
    var text := CountLabel(count);
    var d := ToDecimal(count);
    if count == 1 {
      assert text == d + Ascii(" character");
      assert text[|text| - 1] == 0x72;
    }
  }

  /** Different counts give different labels: the label names the count. */
  lemma CountLabelInjective(m: nat, n: nat)
    requires CountLabel(m) == CountLabel(n)
    ensures m == n
  {
    var a, b := ToDecimal(m), ToDecimal(n);
    var text := CountLabel(m);
    assert |a| == |b|;
    assert a == text[..|a|];
    assert b == CountLabel(n)[..|b|];
    ToDecimalInjective(m, n);
  }
}
