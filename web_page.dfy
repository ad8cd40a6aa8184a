/** The web page: the draft lives in three React state cells (`text`,
    `charCount`, `placeholderIndex`) and is mirrored to localStorage under
    "void-notes". The class holds that state and its handlers; the functions
    over `Page` say what each handler does, and the lemmas what follows. */
module WebPage {
  import opened Wrappers
  import opened JsStrings
  import opened UriComponent
  import opened DraftView
  import opened ObsidianExport

  /** The localStorage key of the draft. */
  const DraftKey: string := "void-notes"

  /** The page's state cells together with localStorage. */
  datatype Page = Page(text: JsString, charCount: nat, placeholderIndex: nat, store: map<string, JsString>)

  /** What a handler leaves behind: the new state and what the export did. */
  datatype Step = Step(page: Page, outcome: ExportOutcome)

  /** The count is the length of the text, and the placeholder index stays
      at 0 because nothing on the page advances it. */
  predicate Valid(p: Page) {
    p.charCount == |p.text| && p.placeholderIndex == 0
  }

  /** localStorage holds the draft: its entry is the text, or there is no
      entry and the text is empty. */
  predicate Mirrored(p: Page) {
    if DraftKey in p.store then p.store[DraftKey] == p.text else p.text == []
  }

  /** The first render: the initial state-cell values beside whatever
      localStorage already holds. */
  function Initial(store: map<string, JsString>): Page {
    Page([], 0, 0, store)
  }

  /** The mount effect: a stored draft that is not empty becomes the text. */
  function Mounted(p: Page): Page {
    if DraftKey in p.store && p.store[DraftKey] != [] then
      p.(text := p.store[DraftKey], charCount := |p.store[DraftKey]|)
    else
      p
  }

  /** `handleTextChange`: the new value becomes the text and is written
      through to localStorage. */
  function TextChanged(p: Page, newText: JsString): Page {
    p.(text := newText, charCount := |newText|, store := p.store[DraftKey := newText])
  }

  /** `sendToObsidian` on the date `today`: nothing for a blank draft; the
      URIError leaves everything as it was; otherwise the untrimmed text with
      its footer is opened and the draft cleared. */
  function Sent(p: Page, today: JsString): Step {
    if IsBlank(p.text) then Step(p, Skipped)
    else match ExportUri(Payload(p.text, today))
      case None => Step(p, UriError)
      case Some(uri) => Step(p.(text := [], charCount := 0, store := p.store - {DraftKey}), Opened(uri))
  }

  /** The textarea's placeholder: the prompt the index names. */
  function Placeholder(p: Page): string
    requires p.placeholderIndex < |MotivationalQuotes|
  {
    MotivationalQuotes[p.placeholderIndex]
  }

  /** The character-count label. */
  function CountText(p: Page): JsString {
    CountLabel(p.charCount)
  }

  class VoidPage {
    var text: JsString
    var charCount: nat
    var placeholderIndex: nat
    var store: map<string, JsString>

    function State(): Page
      reads this
    {
      Page(text, charCount, placeholderIndex, store)
    }

    /** The first render, with the browser's localStorage. */
    constructor (browserStore: map<string, JsString>)
      ensures State() == Initial(browserStore)
    {
      text := [];
      charCount := 0;
      placeholderIndex := 0;
      store := browserStore;
    }

    /** The mount effect; the focus request is not modelled. */
    method Mount()
      modifies this
      ensures State() == Mounted(old(State()))
    {
      var savedText := if DraftKey in store then Some(store[DraftKey]) else None;
      if savedText.Some? && savedText.value != [] {
        text := savedText.value;
        charCount := |savedText.value|;
      }
    }

    method HandleTextChange(newText: JsString)
      modifies this
      ensures State() == TextChanged(old(State()), newText)
    {
      text := newText;
      charCount := |newText|;
      store := store[DraftKey := newText];
    }

    /** Returns what was handed to `window.open`, if anything. */
    method SendToObsidian(today: JsString) returns (outcome: ExportOutcome)
      modifies this
      ensures Step(State(), outcome) == Sent(old(State()), today)
    {
      if IsBlank(text) {
        return Skipped;
      }
      var contentWithDate := Payload(text, today);
      var encoded := Encode(contentWithDate);
      if encoded.None? {
        return UriError;
      }
      var obsidianUri := UriPrefix + encoded.value;
      outcome := Opened(obsidianUri);
      text := [];
      charCount := 0;
      store := store - {DraftKey};
    }
  }

  // ----- properties of the handlers -----

  /** Mounting restores a stored non-empty draft with its length as the
      count; an absent or empty entry leaves the page empty. Either way the
      page is consistent and mirrors localStorage afterwards. */
  lemma MountRestoresDraft(store: map<string, JsString>)
    ensures Valid(Initial(store))
    ensures var p := Mounted(Initial(store));
      && Valid(p) && Mirrored(p) && p.store == store
      && (DraftKey in store && store[DraftKey] != [] ==> p.text == store[DraftKey] && p.charCount == |p.text|)
      && (DraftKey !in store || store[DraftKey] == [] ==> p.text == [] && p.charCount == 0)
  {
  }

  /** A text change makes the text and the stored entry equal to the new
      value, its length the count, and touches no other key. */
  lemma TextChangeWritesThrough(p: Page, newText: JsString)
    requires Valid(p)
    ensures var q := TextChanged(p, newText);
      && Valid(q) && Mirrored(q)
      && q.text == newText && q.charCount == |newText|
      && DraftKey in q.store && q.store[DraftKey] == newText
      && q.store - {DraftKey} == p.store - {DraftKey}
  {
    var q := TextChanged(p, newText);
    assert q.store - {DraftKey} == p.store - {DraftKey};
  }

  /** The same change twice leaves exactly what one leaves. */
  lemma TextChangeIdempotent(p: Page, newText: JsString)
    ensures TextChanged(TextChanged(p, newText), newText) == TextChanged(p, newText)
  {
  }

  /** Reloading the page after a change shows the changed text again, the
      empty text included. */
  lemma ReloadRestoresText(p: Page, newText: JsString)
    ensures Mounted(Initial(TextChanged(p, newText).store)).text == newText
  {
  }

  /** The export acts exactly when the button is shown. A blank draft is left
      alone; a draft or date with a lone surrogate makes the encoding throw,
      which also leaves everything alone. Otherwise the URI carries the
      untrimmed text with its footer, and the page is emptied, the entry
      removed, the button hidden and every other key kept. */
  lemma SendExportsDraft(p: Page, today: JsString)
    requires Valid(p)
    ensures var st := Sent(p, today);
      && (st.outcome == Skipped <==> !HasContent(p.text))
      && (st.outcome == UriError <==> HasContent(p.text) && !(IsWellFormed(p.text) && IsWellFormed(today)))
      && (!st.outcome.Opened? ==> st.page == p)
      && (st.outcome.Opened? ==>
            && NoteContent(st.outcome.uri) == Some(Payload(p.text, today))
            && st.page.text == [] && st.page.charCount == 0
            && DraftKey !in st.page.store && st.page.store == p.store - {DraftKey}
            && Valid(st.page) && Mirrored(st.page) && !HasContent(st.page.text))
  {
    var payload := Payload(p.text, today);
    PayloadWellFormed(p.text, today);
    if IsBlank(p.text) {
      assert Sent(p, today) == Step(p, Skipped);
    } else if !IsWellFormed(payload) {
      assert ExportUri(payload).None?;
      assert Sent(p, today) == Step(p, UriError);
    } else {
      var uri := ExportUri(payload).value;
      ExportUriCarriesPayload(payload);
      var q := p.(text := [], charCount := 0, store := p.store - {DraftKey});
      assert Sent(p, today) == Step(q, Opened(uri));
      assert IsBlank(q.text);
    }
  }

  /** Every handler keeps the count equal to the length of the text, and,
      once mounted, keeps localStorage mirroring the text. */
  lemma HandlersPreserveInvariants(p: Page, newText: JsString, today: JsString)
    requires Valid(p)
    ensures Valid(Mounted(p)) && Valid(TextChanged(p, newText)) && Valid(Sent(p, today).page)
    ensures Mirrored(p) ==> Mirrored(Mounted(p)) && Mirrored(Sent(p, today).page)
    ensures Mirrored(Mounted(Initial(p.store))) && Mirrored(TextChanged(p, newText))
  {
    var st := Sent(p, today);
    assert st.page == p || st.page == p.(text := [], charCount := 0, store := p.store - {DraftKey});
  }

  /** Nothing on the page moves the index, so every handler leaves the
      first prompt as the placeholder. */
  lemma PlaceholderStaysFirst(p: Page, newText: JsString, today: JsString)
    requires Valid(p)
    ensures Placeholder(p) == MotivationalQuotes[0] == "Start typing your tasks..."
    ensures Placeholder(Mounted(p)) == Placeholder(TextChanged(p, newText)) == Placeholder(Sent(p, today).page) == Placeholder(p)
  {
    HandlersPreserveInvariants(p, newText, today);
  }

  /** The label counts the characters of the text and is plural unless there
      is exactly one. */
  lemma CountTextNamesLength(p: Page)
    requires Valid(p)
    ensures CountText(p) == CountLabel(|p.text|)
    ensures var t := CountText(p); t[|t| - 1] == 0x73 <==> |p.text| != 1
  {
    CountLabelPlural(|p.text|);
  }

  // ----- several pages over one localStorage -----

  /** Every page of the origin reads and writes the same localStorage. A
      change typed in one page overwrites the entry another page mirrors,
      so that page no longer mirrors storage. */
  lemma TypingElsewhereBreaksMirror(a: Page, b: Page, newText: JsString)
    requires a.store == b.store && Mirrored(b) && newText != b.text
    ensures var shared := TextChanged(a, newText).store;
      DraftKey in shared && shared[DraftKey] == newText && !Mirrored(b.(store := shared))
  {
  }

  /** An export in one page removes the shared entry, so another page that
      still shows a draft no longer has it saved. */
  lemma ExportElsewhereDropsDraft(a: Page, b: Page, today: JsString)
    requires a.store == b.store && b.text != []
    requires Sent(a, today).outcome.Opened?
    ensures var shared := Sent(a, today).page.store;
      DraftKey !in shared && !Mirrored(b.(store := shared))
  {
  }
}
