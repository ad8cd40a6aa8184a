/** The browser-extension variant: class `VoidExtension`, whose fields are
    the note area's value and placeholder, the count label's text, the export
    button's display style and the prompt index, beside the extension's local
    storage with the draft under "voidNotes". The functions over `Surface` say
    what each method does; the lemmas what follows. */
module ChromeExtension {
  import opened Wrappers
  import opened JsStrings
  import opened UriComponent
  import opened DraftView
  import opened ObsidianExport

  /** The storage key of the draft. */
  const NotesKey: string := "voidNotes"

  /** `exportBtn.style.display`: not yet set by the script (the page's own
      markup decides), "flex" or "none". */
  datatype Display = Unstyled | Flex | Hidden

  /** The extension's state. `placeholder` and `countText` are None while
      they still hold what the page's markup gave them. */
  datatype Surface = Surface(
    value: JsString,
    placeholder: Option<string>,
    countText: Option<JsString>,
    exportDisplay: Display,
    quoteIndex: nat,
    store: map<string, JsString>)

  datatype Step = Step(surface: Surface, outcome: ExportOutcome)

  /** The prompt index is in range and the displayed prompt is the one it
      names; once the script has written the count label and the button
      style, they describe the current value; before that the value is
      still empty. */
  predicate Valid(e: Surface) {
    && PromptValid(e)
    && (if e.countText.Some? then e.countText.value == CountLabel(|e.value|) else e.value == [])
    && (if e.exportDisplay == Unstyled then e.value == [] else e.exportDisplay == DisplayFor(e.value))
  }

  /** The prompt index is in range and the displayed prompt is the one it
      names. */
  predicate PromptValid(e: Surface) {
    && e.quoteIndex < |MotivationalQuotes|
    && (e.placeholder.Some? ==> e.placeholder.value == MotivationalQuotes[e.quoteIndex])
  }

  /** Storage holds the draft: its entry is the value, or there is no entry
      and the value is empty. */
  predicate Mirrored(e: Surface) {
    if NotesKey in e.store then e.store[NotesKey] == e.value else e.value == []
  }

  /** "flex" when the value holds more than white space, "none" otherwise. */
  function DisplayFor(value: JsString): Display {
    if HasContent(value) then Flex else Hidden
  }

  /** The storage entry of the draft as `chrome.storage.local.get` delivers it. */
  function Lookup(store: map<string, JsString>): Option<JsString> {
    if NotesKey in store then Some(store[NotesKey]) else None
  }

  /** The state right after the constructor: the note area as the markup has
      it (empty), prompt 0, and storage as found. The storage read that
      `loadNotes` starts completes later, in `Loaded`. */
  function Initial(store: map<string, JsString>): Surface {
    Surface([], None, None, Unstyled, 0, store)
  }

  /** `updateCharCount` */
  function CountUpdated(e: Surface): Surface {
    e.(countText := Some(CountLabel(|e.value|)))
  }

  /** `toggleExportButton` */
  function ButtonToggled(e: Surface): Surface {
    e.(exportDisplay := DisplayFor(e.value))
  }

  /** The `loadNotes` callback receiving `result`: a non-empty stored draft
      becomes the value, and the label and button follow it. */
  function Loaded(e: Surface, result: Option<JsString>): Surface {
    if result.Some? && result.value != [] then ButtonToggled(CountUpdated(e.(value := result.value)))
    else e
  }

  /** `saveNotes` */
  function Saved(e: Surface): Surface {
    ButtonToggled(CountUpdated(e.(store := e.store[NotesKey := e.value])))
  }

  /** An input event: the note area takes the typed value, then the listener
      saves. */
  function Typed(e: Surface, newValue: JsString): Surface {
    Saved(e.(value := newValue))
  }

  /** One run of the rotation timer's callback. */
  function Ticked(e: Surface): Surface {
    var i := (e.quoteIndex + 1) % |MotivationalQuotes|;
    e.(quoteIndex := i, placeholder := Some(MotivationalQuotes[i]))
  }

  /** `k` runs of the rotation timer's callback. */
  function Ticks(e: Surface, k: nat): Surface {
    if k == 0 then e else Ticked(Ticks(e, k - 1))
  }

  /** `exportToObsidian` on the date `today`: the TRIMMED value is exported;
      nothing happens when it is empty; the URIError leaves everything as it
      was; otherwise the value is cleared, the entry removed, and the label
      and button updated. */
  function Exported(e: Surface, today: JsString): Step {
    var text := Trim(e.value);
    if text == [] then Step(e, Skipped)
    else match ExportUri(Payload(text, today))
      case None => Step(e, UriError)
      case Some(uri) => Step(ButtonToggled(CountUpdated(e.(value := [], store := e.store - {NotesKey}))), Opened(uri))
  }

  class VoidExtension {
    var value: JsString
    var placeholder: Option<string>
    var countText: Option<JsString>
    var exportDisplay: Display
    var currentQuoteIndex: nat
    var store: map<string, JsString>

    function State(): Surface
      reads this
    {
      Surface(value, placeholder, countText, exportDisplay, currentQuoteIndex, store)
    }

    /** The constructor and `init`; the storage read completes later, through
        `LoadNotes`, and the timer ticks through `Tick`. */
    constructor (browserStore: map<string, JsString>)
      ensures State() == Initial(browserStore)
    {
      value := [];
      placeholder := None;
      countText := None;
      exportDisplay := Unstyled;
      currentQuoteIndex := 0;
      store := browserStore;
    }

    /** The callback of the storage read in `loadNotes`, receiving `result`. */
    method LoadNotes(result: Option<JsString>)
      modifies this
      ensures State() == Loaded(old(State()), result)
    {
      if result.Some? && result.value != [] {
        value := result.value;
        UpdateCharCount();
        ToggleExportButton();
      }
    }

    method SaveNotes()
      modifies this
      ensures State() == Saved(old(State()))
    {
      var text := value;
      store := store[NotesKey := text];
      UpdateCharCount();
      ToggleExportButton();
    }

    /** The "input" listener, after the note area took `newValue`. */
    method Input(newValue: JsString)
      modifies this
      ensures State() == Typed(old(State()), newValue)
    {
      value := newValue;
      SaveNotes();
    }

    method UpdateCharCount()
      modifies this
      ensures State() == CountUpdated(old(State()))
    {
      var count := |value|;
      countText := Some(CountLabel(count));
    }

    method ToggleExportButton()
      modifies this
      ensures State() == ButtonToggled(old(State()))
    {
      var hasText := |Trim(value)| > 0;
      exportDisplay := if hasText then Flex else Hidden;
    }

    /** The body of the rotation timer's callback. */
    method Tick()
      modifies this
      ensures State() == Ticked(old(State()))
    {
      currentQuoteIndex := (currentQuoteIndex + 1) % |MotivationalQuotes|;
      placeholder := Some(MotivationalQuotes[currentQuoteIndex]);
    }

    /** Returns what was handed to `window.open`, if anything; the focus
        request is not modelled. */
    method ExportToObsidian(today: JsString) returns (outcome: ExportOutcome)
      modifies this
      ensures Step(State(), outcome) == Exported(old(State()), today)
    {
      var text := Trim(value);
      if text == [] {
        return Skipped;
      }
      var contentWithDate := Payload(text, today);
      var encoded := Encode(contentWithDate);
      if encoded.None? {
        return UriError;
      }
      var obsidianUri := UriPrefix + encoded.value;
      outcome := Opened(obsidianUri);
      assert ExportUri(contentWithDate) == Some(obsidianUri);
      ghost var cleared := old(State()).(value := [], store := old(State()).store - {NotesKey});
      value := [];
      store := store - {NotesKey};
      assert State() == cleared;
      UpdateCharCount();
      ToggleExportButton();
      assert State() == ButtonToggled(CountUpdated(cleared));
    }
  }

  // ----- properties of the methods -----

  /** Saving stores the current, untrimmed value under "voidNotes", changes
      no other key and brings the label and button up to date. */
  lemma SaveWritesThrough(e: Surface)
    requires PromptValid(e)
    ensures var f := Saved(e);
      && f.value == e.value && NotesKey in f.store && f.store[NotesKey] == e.value
      && f.store - {NotesKey} == e.store - {NotesKey}
      && Valid(f) && Mirrored(f)
  {
    var f := Saved(e);
    assert f.store - {NotesKey} == e.store - {NotesKey};
  }

  /** Typing the same value twice leaves exactly what typing it once leaves. */
  lemma TypedIdempotent(e: Surface, newValue: JsString)
    ensures Typed(Typed(e, newValue), newValue) == Typed(e, newValue)
  {
  }

  /** The first load restores a stored non-empty draft and leaves the note
      area empty for an absent or empty one; the extension then mirrors its
      storage. */
  lemma LoadRestoresDraft(store: map<string, JsString>)
    ensures Valid(Initial(store))
    ensures var e := Loaded(Initial(store), Lookup(store));
      && Valid(e) && Mirrored(e) && e.store == store
      && (NotesKey in store && store[NotesKey] != [] ==>
            e.value == store[NotesKey] && e.countText == Some(CountLabel(|e.value|)))
      && (NotesKey !in store || store[NotesKey] == [] ==> e == Initial(store))
  {
  }

  /** A fresh extension loading what an input event stored shows the typed
      value again, the empty value included. */
  lemma ReloadRestoresValue(e: Surface, newValue: JsString)
    ensures var s := Typed(e, newValue).store;
      Loaded(Initial(s), Lookup(s)).value == newValue
  {
  }

  /** A load whose result is not the current entry breaks the mirror: a
      draft typed before the storage read completed is replaced on screen by
      the older stored text while storage keeps the typed one. */
  lemma StaleLoadBreaksMirror(store: map<string, JsString>, typed: JsString, older: JsString)
    requires older != [] && typed != older
    ensures var e := Typed(Initial(store), typed);
      Mirrored(e) && !Mirrored(Loaded(e, Some(older)))
  {
  }

  /** `k` ticks move the prompt index `k` places round the ten prompts,
      keep the displayed prompt the one the index names, and change
      nothing else. */
  lemma TicksRotate(e: Surface, k: nat)
    requires PromptValid(e)
    ensures var f := Ticks(e, k);
      && PromptValid(f)
      && f.quoteIndex == (e.quoteIndex + k) % 10
      && f.value == e.value && f.countText == e.countText
      && f.exportDisplay == e.exportDisplay && f.store == e.store
      && (k > 0 ==> f.placeholder == Some(MotivationalQuotes[f.quoteIndex]))
  {
    TicksMoveIndex(e, k);
    TicksKeepDraft(e, k);
    if k == 0 {
      assert Ticks(e, k) == e;
    } else {
      var g := Ticks(e, k - 1);
      assert Ticks(e, k) == Ticked(g);
    }
  }

  /** The index part of `TicksRotate`, by induction on `k`. */
  lemma {:induction false} TicksMoveIndex(e: Surface, k: nat)
    requires e.quoteIndex < 10
    ensures Ticks(e, k).quoteIndex == (e.quoteIndex + k) % 10
  {
    if k > 0 {
      var g := Ticks(e, k - 1);
      TicksMoveIndex(e, k - 1);
      assert Ticks(e, k) == Ticked(g);
      assert Ticked(g).quoteIndex == (e.quoteIndex + k) % 10 by {
        assert |MotivationalQuotes| == 10;
        ModTenStep(e.quoteIndex + k - 1);
      }
    }
  }

  /** Ticks leave the draft, the label, the button and storage alone. */
  lemma {:induction false} TicksKeepDraft(e: Surface, k: nat)
    ensures var f := Ticks(e, k);
      && f.value == e.value && f.countText == e.countText
      && f.exportDisplay == e.exportDisplay && f.store == e.store
  {
    if k > 0 {
      TicksKeepDraft(e, k - 1);
    }
  }

  /** Moving one place on from `x mod 10` is `(x + 1) mod 10`. */
  lemma ModTenStep(x: nat)
    ensures (x % 10 + 1) % 10 == (x + 1) % 10
  {
    var q, r := x / 10, x % 10;
    assert x == 10 * q + r;
    if r < 9 {
      assert x + 1 == 10 * q + (r + 1);
    } else {
      assert x + 1 == 10 * (q + 1);
    }
  }

  /** Ten ticks come back to the starting prompt. */
  lemma TenTicksReturn(e: Surface)
    requires PromptValid(e)
    ensures Ticks(e, 10).quoteIndex == e.quoteIndex
  {
    TicksRotate(e, 10);
  }

  /** Ten consecutive ticks display every one of the ten prompts. */
  lemma TicksShowEveryPrompt(e: Surface, j: nat)
    requires PromptValid(e) && j < 10
    ensures exists k | 1 <= k <= 10 :: Ticks(e, k).placeholder == Some(MotivationalQuotes[j])
  {
    var k: nat := if j > e.quoteIndex then j - e.quoteIndex else j + 10 - e.quoteIndex;
    assert (e.quoteIndex + k) % 10 == j;
    TicksRotate(e, k);
  }

  /** The export acts exactly when the trimmed value is not empty, which is
      when the button shows; when it does not act, or fails, nothing
      changes. */
  lemma ExportSkipsBlank(e: Surface, today: JsString)
    ensures var st := Exported(e, today);
      && (st.outcome == Skipped <==> DisplayFor(e.value) == Hidden)
      && (!st.outcome.Opened? ==> st.surface == e)
  {
  }

  /** The URIError comes from a lone surrogate in the trimmed value or in
      the date. */
  lemma ExportFailsOnLoneSurrogate(e: Surface, today: JsString)
    ensures Exported(e, today).outcome == UriError <==>
      DisplayFor(e.value) == Flex && !(IsWellFormed(Trim(e.value)) && IsWellFormed(today))
  {
    var text := Trim(e.value);
    PayloadWellFormed(text, today);
    if text != [] {
      assert ExportUri(Payload(text, today)).None? <==> !IsWellFormed(Payload(text, today));
    }
  }

  /** A successful export hands over a URI carrying the trimmed value with
      its footer; afterwards the value is empty, the entry removed, the
      button hidden and the label reads "0 characters". */
  lemma ExportClearsDraft(e: Surface, today: JsString)
    requires PromptValid(e)
    ensures var st := Exported(e, today);
      st.outcome.Opened? ==>
        && NoteContent(st.outcome.uri) == Some(Payload(Trim(e.value), today))
        && st.surface.value == [] && NotesKey !in st.surface.store
        && st.surface.store == e.store - {NotesKey}
        && st.surface.exportDisplay == Hidden
        && st.surface.countText == Some(CountLabel(0))
        && Valid(st.surface) && Mirrored(st.surface)
  {
    var text := Trim(e.value);
    var payload := Payload(text, today);
    if text != [] && ExportUri(payload).Some? {
      ExportUriCarriesPayload(payload);
      assert IsBlank([]);
    }
  }

  /** Every method keeps the state consistent, and once the draft has been
      loaded, keeps storage mirroring the value. */
  lemma MethodsPreserveInvariants(e: Surface, result: Option<JsString>, newValue: JsString, today: JsString)
    requires Valid(e)
    ensures Valid(Loaded(e, result)) && Valid(Typed(e, newValue)) && Valid(Ticked(e))
    ensures Valid(Exported(e, today).surface)
    ensures Mirrored(Typed(e, newValue))
    ensures Mirrored(e) ==>
      && Mirrored(Ticked(e)) && Mirrored(Exported(e, today).surface)
      && (result == Lookup(e.store) ==> Mirrored(Loaded(e, result)))
  {
    LoadKeepsInvariants(e, result);
    SaveWritesThrough(e.(value := newValue));
    TicksRotate(e, 1);
    assert Ticks(e, 1) == Ticked(e);
    ExportSkipsBlank(e, today);
    ExportClearsDraft(e, today);
  }

  /** The load callback keeps the state consistent, and keeps the mirror
      when it delivers the current entry. */
  lemma LoadKeepsInvariants(e: Surface, result: Option<JsString>)
    requires Valid(e)
    ensures Valid(Loaded(e, result))
    ensures Mirrored(e) && result == Lookup(e.store) ==> Mirrored(Loaded(e, result))
  {
    if result.Some? && result.value != [] {
      var f := Loaded(e, result);
      assert f.value == result.value && f.countText == Some(CountLabel(|f.value|));
      assert f.exportDisplay == DisplayFor(f.value) && f.store == e.store;
    }
  }

  // ----- several tabs over one chrome.storage.local -----

  /** Every new-tab page builds its own `VoidExtension` over the same
      storage. Typing in one tab overwrites the entry another tab mirrors. */
  lemma TypingElsewhereBreaksMirror(a: Surface, b: Surface, newValue: JsString)
    requires a.store == b.store && Mirrored(b) && newValue != b.value
    ensures var shared := Typed(a, newValue).store;
      NotesKey in shared && shared[NotesKey] == newValue && !Mirrored(b.(store := shared))
  {
  }

  /** An export in one tab removes the shared entry, so another tab that
      still shows a draft no longer has it saved. */
  lemma ExportElsewhereDropsDraft(a: Surface, b: Surface, today: JsString)
    requires a.store == b.store && b.value != []
    requires Exported(a, today).outcome.Opened?
    ensures var shared := Exported(a, today).surface.store;
      NotesKey !in shared && !Mirrored(b.(store := shared))
  {
  }
}
