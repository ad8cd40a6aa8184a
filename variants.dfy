/** The web page and the extension side by side: for the same draft and the
    same date they take the same branch of the export, but the extension
    sends the trimmed draft where the web page sends it as typed. */
module Variants {
  import opened Wrappers
  import opened JsStrings
  import opened UriComponent
  import opened ObsidianExport
  import WebPage
  import ChromeExtension

  /** White space holds no surrogate halves. */
  lemma WhitespaceIsNotSurrogate(u: CodeUnit)
    requires IsJsWhitespace(u)
    ensures !IsHighSurrogate(u) && !IsLowSurrogate(u)
  {
  }

  /** Text without surrogate halves around a text does not change whether
      it holds a lone surrogate. */
  lemma WellFormedBetween(pre: JsString, r: JsString, suf: JsString)
    requires forall k | 0 <= k < |pre| :: !IsHighSurrogate(pre[k]) && !IsLowSurrogate(pre[k])
    requires forall k | 0 <= k < |suf| :: !IsHighSurrogate(suf[k]) && !IsLowSurrogate(suf[k])
    ensures IsWellFormed(pre + r + suf) <==> IsWellFormed(r)
  {
    if suf != [] {
      WellFormedJoin(r, suf, []);
      assert r + suf + [] == r + suf;
    } else {
      assert r + suf == r;
    }
    if pre != [] {
      WellFormedJoin([], pre, r + suf);
      assert [] + pre + (r + suf) == pre + r + suf;
    } else {
      assert pre + r + suf == r + suf;
    }
  }

  /** Stripping the white space around a text does not change whether it
      holds a lone surrogate. */
  lemma TrimKeepsWellFormedness(s: JsString)
    ensures IsWellFormed(Trim(s)) <==> IsWellFormed(s)
  {
    var r := Trim(s);
    var i := LeadingBlanks(s);
    TrimIsSlice(s);
    var pre, suf := s[..i], s[i + |r|..];
    assert s == pre + r + suf;
    forall k | 0 <= k < |pre|
      ensures !IsHighSurrogate(pre[k]) && !IsLowSurrogate(pre[k])
    {
      WhitespaceIsNotSurrogate(s[k]);
    }
    forall k | 0 <= k < |suf|
      ensures !IsHighSurrogate(suf[k]) && !IsLowSurrogate(suf[k])
    {
      WhitespaceIsNotSurrogate(s[i + |r| + k]);
    }
    WellFormedBetween(pre, r, suf);
  }

  /** For the same draft and date the two front ends both skip, both fail
      with a URIError, or both open a URI. When both open one, the web page's
      note holds the draft as typed and the extension's the trimmed draft,
      and the two URIs are the same exactly when the draft has no white
      space to trim. */
  lemma SameBranchDifferentPayload(p: WebPage.Page, e: ChromeExtension.Surface, today: JsString)
    requires p.text == e.value
    ensures var web := WebPage.Sent(p, today).outcome;
      var ext := ChromeExtension.Exported(e, today).outcome;
      && (web.Skipped? <==> ext.Skipped?)
      && (web.UriError? <==> ext.UriError?)
      && (web.Opened? <==> ext.Opened?)
      && (web.Opened? && ext.Opened? ==>
            && NoteContent(web.uri) == Some(Payload(p.text, today))
            && NoteContent(ext.uri) == Some(Payload(Trim(p.text), today))
            && (web.uri == ext.uri <==> Trim(p.text) == p.text))
  {
    var text := p.text;
    var trimmed := Trim(text);
    if trimmed != [] {
      TrimKeepsWellFormedness(text);
      PayloadWellFormed(text, today);
      PayloadWellFormed(trimmed, today);
      var webPayload, extPayload := Payload(text, today), Payload(trimmed, today);
      if IsWellFormed(webPayload) {
        assert IsWellFormed(extPayload);
        ExportUriCarriesPayload(webPayload);
        ExportUriCarriesPayload(extPayload);
        var webUri, extUri := ExportUri(webPayload).value, ExportUri(extPayload).value;
        if webUri == extUri {
          PayloadInjective(text, trimmed, today);
        }
      }
    }
  }
}
