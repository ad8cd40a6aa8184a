/** The hand-off to the note-taking application: the exported note is the
    draft with a dated footer, sent as the `content` parameter of an
    `obsidian://new` URI. */
module ObsidianExport {
  import opened Wrappers
  import opened JsStrings
  import opened UriComponent

  const UriPrefix: JsString := Ascii("obsidian://new?content=")

  /** What separates the note from its date footer: a blank line, "---" and a
      line break. */
  const FooterSeparator: JsString := Ascii("\n\n---\n")

  /** The result of pressing the export control. */
  datatype ExportOutcome =
    | Skipped             // nothing but white space: nothing happens
    | UriError            // encodeURIComponent threw; nothing after it ran
    | Opened(uri: JsString)  // this URI was handed to window.open

  /** `` `${text}\n\n---\n${today}` `` */
  function Payload(text: JsString, today: JsString): JsString {
    text + FooterSeparator + today
  }

  /** `` `obsidian://new?content=${encodeURIComponent(payload)}` ``, or the
      URIError the encoding throws. */
  function ExportUri(payload: JsString): (r: Option<JsString>)
    ensures r.Some? <==> IsWellFormed(payload)
    ensures r.Some? ==> |r.value| >= |UriPrefix| && r.value[..|UriPrefix|] == UriPrefix
    ensures r.Some? ==> IsUriSafe(r.value[|UriPrefix|..])
  {
    EncodeDefinedIff(payload);
    match Encode(payload)
    case None => None
    case Some(e) =>
      assert (UriPrefix + e)[|UriPrefix|..] == e;
      Some(UriPrefix + e)
  }

  /** The note text the receiving application reads from an export URI: the
      decoded `content` parameter. */
  function NoteContent(uri: JsString): Option<JsString> {
    if |uri| >= |UriPrefix| && uri[..|UriPrefix|] == UriPrefix then Decode(uri[|UriPrefix|..])
    else None
  }

  /** The note arrives intact: reading the content back out of the URI gives
      exactly the payload. */
  lemma ExportUriCarriesPayload(payload: JsString)
    requires ExportUri(payload).Some?
    ensures NoteContent(ExportUri(payload).value) == Some(payload)
  {
    var e := Encode(payload).value;
    assert (UriPrefix + e)[|UriPrefix|..] == e;
    DecodeEncode(payload);
  }

  /** The export fails with a URIError exactly when the draft or the date
      holds a lone surrogate: the footer never causes one. */
  lemma PayloadWellFormed(text: JsString, today: JsString)
    ensures IsWellFormed(Payload(text, today)) <==> IsWellFormed(text) && IsWellFormed(today)
  {
    WellFormedJoin(text, FooterSeparator, today);
  }

  /** With the same date, different texts give different payloads, so the
      note received tells which draft was exported. */
  lemma PayloadInjective(text: JsString, text': JsString, today: JsString)
    requires Payload(text, today) == Payload(text', today)
    ensures text == text'
  {
    var p := Payload(text, today);
    assert |text| == |text'|;
    assert text == p[..|text|];
    assert text' == p[..|text'|];
  }
}
