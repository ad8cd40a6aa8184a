# Void — a Dafny model of the draft manager and its build script

Void is a minimal notepad with two front ends. The first is a web page, a
React component. The second is a browser extension, a `VoidExtension` class
driving a textarea. Each keeps one draft mirrored in browser storage:

- the web page keeps it in `localStorage` under `"void-notes"`;
- the extension keeps it in `chrome.storage.local` under `"voidNotes"`.

Each shows a character-count label ("1 character", "12 characters"). Each
shows an export button while the draft holds more than white space. The
export hands the draft to Obsidian:

- the draft gets a dated footer ("\n\n---\n" and the date);
- the result is percent-encoded into an `obsidian://new?content=` URI;
- that URI is passed to `window.open`;
- the draft is then cleared, on screen and in storage.

The two front ends differ in what they export. The web page exports the draft as
typed. The extension exports it trimmed of surrounding white space. The
extension also rotates ten motivational prompts through the textarea's
placeholder on a timer. A Node build script edits the extension's
`manifest.json` in two ways: it bumps the minor version ("1.3" becomes
"1.4"), and it strips a leading `public/` from every icon path.

The model is in these modules:

- `JsStrings` — JavaScript strings as UTF-16 code units; `String.prototype.trim`.
- `JsNumbers` — `Number()` on digit strings and the decimal rendering of a number.
- `UriComponent` — `encodeURIComponent` as ECMA-262 defines it, with its
  URIError on a lone surrogate, and the matching `decodeURIComponent`.
- `DraftView` — what both front ends show: the prompts, button visibility and the count label.
- `ObsidianExport` — the footer, the export URI, and the note Obsidian reads back from it.
- `WebPage` — the React state cells and handlers, as class `VoidPage`.
- `ChromeExtension` — class `VoidExtension` with its fields and methods.
- `Variants` — the two export handlers compared.
- `BuildScript` — the version bump and the icon-path rewrite, as class `Manifest`.

Each stateful class has a value datatype holding the same state, and one
function per operation over that datatype. Each method's postcondition ties
the new state to that function applied to the old state. The lemmas about the
functions state what the source promises: write-through to storage,
restoring on reload, the export round trip, the invariants kept, and the
prompt rotation.

## Model

| member | source | states |
|---|---|---|
| JsStrings.Trim | app/page.tsx:45 | the trimmed text is empty exactly when the text is all white space; otherwise it starts and ends with a non-white-space unit and is no longer than the text |
| JsStrings.TrimIsSlice | chrome-extension-build/script.js:88 | the trimmed text is the slice of the text left after its leading white space, and only white space follows it |
| JsStrings.TrimUnchanged | chrome-extension-build/script.js:88 | a text with no white space at either end is its own trim |
| JsStrings.TrimIdempotent | chrome-extension-build/script.js:88 | trimming twice gives what trimming once gives |
| JsNumbers.ToDecimal | app/page.tsx:112 | the decimal rendering is a non-empty digit string with no leading zero except for 0, and is one digit long exactly for numbers below ten |
| JsNumbers.ParseToDecimal | scripts/build-extension.js:14-19 | `Number()` of a rendered number gives the number back |
| JsNumbers.ToDecimalParse | scripts/build-extension.js:14 | rendering the value of a digit string without leading zeros gives the string back |
| JsNumbers.ToDecimalInjective | app/page.tsx:112 | distinct numbers render differently |
| JsNumbers.ParseDigitsPositive | scripts/build-extension.js:14 | a digit string with a non-zero lead has a positive value |
| UriComponent.Encode | app/page.tsx:54 | a defined encoding contains only URI-safe units: unescaped characters, "%" and hex digits |
| UriComponent.Escape | app/page.tsx:54 | each octet becomes three URI-safe units |
| UriComponent.EncodeDefinedIff | chrome-extension-build/script.js:98 | `encodeURIComponent` throws exactly when the text holds a lone surrogate |
| UriComponent.DecodeEncode | app/page.tsx:54 | decoding the encoding of a text gives the text back |
| UriComponent.DecodeEncodeUnescaped | app/page.tsx:54 | an unescaped leading character survives the round trip |
| UriComponent.DecodeEncodePair | app/page.tsx:54 | a leading surrogate pair survives the round trip as one four-octet escape |
| UriComponent.DecodeEncodeEscaped | app/page.tsx:54 | a leading escaped character survives the round trip |
| UriComponent.EncodeInjective | chrome-extension-build/script.js:98 | distinct texts encode to distinct URIs |
| UriComponent.Utf8RoundTrip | app/page.tsx:54 | the UTF-8 octets of a scalar value decode back to it |
| UriComponent.Utf8Length | app/page.tsx:54 | the lead octet announces the length of its UTF-8 sequence |
| UriComponent.Utf16OfPair | app/page.tsx:54 | the code point of a surrogate pair is written in UTF-16 as that pair |
| UriComponent.HexRoundTrip | app/page.tsx:54 | the two hex digits of an octet read back as that octet |
| UriComponent.OctetsOfEscape | app/page.tsx:54 | reading octets out of escaped text gives the octets that were escaped |
| UriComponent.WellFormedJoin | chrome-extension-build/script.js:97-98 | text without surrogate halves between two texts neither creates nor heals a lone surrogate |
| UriComponent.WellFormedTail | app/page.tsx:54 | dropping a leading non-surrogate or a leading pair keeps well-formedness as it was |
| UriComponent.IllFormedAt | app/page.tsx:54 | an unpaired high or low surrogate anywhere makes the text ill-formed |
| DraftView.HasContentIff | app/page.tsx:78 | the export button shows exactly when the draft holds a unit that is not white space |
| DraftView.CountLabelPlural | app/page.tsx:112 | the label is non-empty and ends in "s" exactly when the count is not 1 |
| DraftView.CountLabelInjective | chrome-extension-build/script.js:61-64 | different counts give different labels |
| ObsidianExport.ExportUri | app/page.tsx:52-54 | the export URI exists exactly when the payload is well-formed; it starts with `obsidian://new?content=` and the rest is URI-safe |
| ObsidianExport.ExportUriCarriesPayload | app/page.tsx:54 | the note content decoded from the export URI is exactly the payload |
| ObsidianExport.PayloadWellFormed | chrome-extension-build/script.js:97 | the payload is well-formed exactly when the draft and the date both are |
| ObsidianExport.PayloadInjective | app/page.tsx:52 | different drafts with the same date give different payloads |
| WebPage.VoidPage.constructor | app/page.tsx:8-10 | the first render has empty text, count 0, placeholder index 0 and the browser's storage |
| WebPage.VoidPage.Mount | app/page.tsx:26-35 | the mount effect leaves the state `Mounted` describes |
| WebPage.VoidPage.HandleTextChange | app/page.tsx:37-42 | a text change leaves the state `TextChanged` describes |
| WebPage.VoidPage.SendToObsidian | app/page.tsx:44-65 | the export returns the outcome and leaves the state `Sent` describes |
| WebPage.MountRestoresDraft | app/page.tsx:26-31 | the first render is consistent; mounting restores a stored non-empty draft and its length, leaves an absent or empty one empty, and then mirrors storage |
| WebPage.TextChangeWritesThrough | app/page.tsx:37-42 | after a change the text, the count and the stored entry follow the new value, and no other key changes |
| WebPage.TextChangeIdempotent | app/page.tsx:37-42 | the same change twice equals it once |
| WebPage.ReloadRestoresText | app/page.tsx:26-42 | a reload after a change shows the changed text |
| WebPage.SendExportsDraft | app/page.tsx:44-65 | skips exactly when the button is hidden; fails exactly on a lone surrogate; on success the URI carries the untrimmed draft with its footer, the page is emptied and the entry removed; otherwise nothing changes |
| WebPage.HandlersPreserveInvariants | app/page.tsx:26-65 | every handler keeps the count equal to the text length and the placeholder index 0, and keeps storage mirroring the text |
| WebPage.PlaceholderStaysFirst | app/page.tsx:101 | the placeholder is the first prompt, "Start typing your tasks...", and no handler changes it |
| WebPage.CountTextNamesLength | app/page.tsx:112 | the label counts the characters of the text and is plural unless there is exactly one |
| WebPage.TypingElsewhereBreaksMirror | app/page.tsx:41 | a change typed in one page overwrites the shared entry, so another page over the same localStorage no longer mirrors it |
| WebPage.ExportElsewhereDropsDraft | app/page.tsx:60 | an export in one page removes the shared entry, so another page still showing a draft no longer has it saved |
| ChromeExtension.VoidExtension.constructor | chrome-extension-build/script.js:2-24 | the new extension has an empty value, prompt index 0, and storage as found |
| ChromeExtension.VoidExtension.LoadNotes | chrome-extension-build/script.js:34-42 | the load callback leaves the state `Loaded` describes |
| ChromeExtension.VoidExtension.SaveNotes | chrome-extension-build/script.js:44-49 | saving leaves the state `Saved` describes |
| ChromeExtension.VoidExtension.Input | chrome-extension-build/script.js:52-54 | an input event leaves the state `Typed` describes |
| ChromeExtension.VoidExtension.UpdateCharCount | chrome-extension-build/script.js:61-64 | the label is set to the count label of the value |
| ChromeExtension.VoidExtension.ToggleExportButton | chrome-extension-build/script.js:66-69 | the button shows as "flex" exactly when the trimmed value is non-empty, else "none" |
| ChromeExtension.VoidExtension.Tick | chrome-extension-build/script.js:81-84 | one timer run leaves the state `Ticked` describes |
| ChromeExtension.VoidExtension.ExportToObsidian | chrome-extension-build/script.js:87-108 | the export returns the outcome and leaves the state `Exported` describes |
| ChromeExtension.SaveWritesThrough | chrome-extension-build/script.js:44-49 | saving stores the untrimmed value, changes no other key, and updates the label and button |
| ChromeExtension.TypedIdempotent | chrome-extension-build/script.js:52-54 | the same input twice equals it once |
| ChromeExtension.LoadRestoresDraft | chrome-extension-build/script.js:34-42 | the new extension is consistent; the first load restores a stored non-empty draft with its label, leaves an absent or empty one as it was, and then mirrors storage |
| ChromeExtension.ReloadRestoresValue | chrome-extension-build/script.js:34-54 | a fresh load of what an input stored shows the typed value |
| ChromeExtension.StaleLoadBreaksMirror | chrome-extension-build/script.js:34-42 | a load delivering older text after typing replaces the screen while storage keeps the typed draft |
| ChromeExtension.TypingElsewhereBreaksMirror | chrome-extension-build/script.js:44-54 | input in one tab overwrites the shared entry, so another tab over the same storage no longer mirrors it |
| ChromeExtension.ExportElsewhereDropsDraft | chrome-extension-build/script.js:103-104 | an export in one tab removes the shared entry, so another tab still showing a draft no longer has it saved |
| ChromeExtension.TicksRotate | chrome-extension-build/script.js:80-85 | k ticks move the prompt index k places modulo ten, show the prompt it names, and change nothing else |
| ChromeExtension.TicksMoveIndex | chrome-extension-build/script.js:82 | k ticks add k to the index modulo ten |
| ChromeExtension.TicksKeepDraft | chrome-extension-build/script.js:81-84 | ticks leave the value, label, button and storage unchanged |
| ChromeExtension.TenTicksReturn | chrome-extension-build/script.js:82 | ten ticks return to the starting prompt |
| ChromeExtension.TicksShowEveryPrompt | chrome-extension-build/script.js:8-19 | within ten ticks each of the ten prompts is displayed |
| ChromeExtension.ExportSkipsBlank | chrome-extension-build/script.js:88-89 | the export does nothing exactly when the button is hidden; when it does not open a URI nothing changes |
| ChromeExtension.ExportFailsOnLoneSurrogate | chrome-extension-build/script.js:97-98 | the export fails exactly when the button shows and the trimmed value or the date holds a lone surrogate |
| ChromeExtension.ExportClearsDraft | chrome-extension-build/script.js:97-106 | a successful export carries the trimmed value with its footer, then empties the value, removes the entry, hides the button and shows "0 characters" |
| ChromeExtension.MethodsPreserveInvariants | chrome-extension-build/script.js:34-108 | every method keeps the label, button and prompt consistent with the value and, once loaded, storage mirroring it |
| ChromeExtension.LoadKeepsInvariants | chrome-extension-build/script.js:34-42 | the load keeps the state consistent, and keeps the mirror when it delivers the current entry |
| Variants.TrimKeepsWellFormedness | chrome-extension-build/script.js:88 | trimming neither adds nor removes a lone surrogate |
| Variants.WellFormedBetween | chrome-extension-build/script.js:88 | surrogate-free text around a text does not change its well-formedness |
| Variants.SameBranchDifferentPayload | chrome-extension-build/script.js:88-97 | for the same draft and date both front ends take the same branch; the web note holds the draft as typed, the extension's the trimmed draft; the URIs agree exactly when trimming changes nothing |
| BuildScript.Split | scripts/build-extension.js:14 | `split` gives at least one part and no part contains the separator |
| BuildScript.JoinSplit | scripts/build-extension.js:14 | joining the parts with the separator gives the string back |
| BuildScript.SplitJoin | scripts/build-extension.js:14 | splitting a join of separator-free parts gives the parts back |
| BuildScript.NextVersionPieces | scripts/build-extension.js:14-19 | the new version splits at "." into the major and the incremented minor |
| BuildScript.NextVersionBumpsMinor | scripts/build-extension.js:14-19 | the new version is again a version, with the same major and the minor plus one, and has exactly two parts |
| BuildScript.NextVersionWithoutMinor | scripts/build-extension.js:15-19 | a version with no minor part becomes "major.NaN", which is not a version |
| BuildScript.BumpTwice | scripts/build-extension.js:14-22 | two builds raise the minor by two and keep the major |
| BuildScript.BumpKeepsOtherEntries | scripts/build-extension.js:22 | for every readable version, a minor part or not, the bump keeps every other manifest key and entry and sets `version` to the bumped text |
| BuildScript.BumpChangesOnlyVersion | scripts/build-extension.js:14-22 | for a version with a minor part, the bumped manifest keeps every other key and entry and holds a version with the same major and the next minor |
| BuildScript.StripPublicOnce | scripts/build-extension.js:91 | the rewrite drops one leading "public/" and leaves other paths alone |
| BuildScript.FixedManifestRewritesOnlyIcons | scripts/build-extension.js:89-93 | only the icon paths change; each loses a leading "public/" and keeps the same sizes |
| BuildScript.FixedManifestIdempotent | scripts/build-extension.js:89-93 | with no path starting "public/public/", a second rewrite changes nothing |
| BuildScript.Manifest.constructor | scripts/build-extension.js:11 | the manifest holds the parsed entries |
| BuildScript.Manifest.BumpVersion | scripts/build-extension.js:14-22 | returns the new version and leaves the manifest `BumpedManifest` describes |
| BuildScript.Manifest.FixIconPaths | scripts/build-extension.js:89-93 | the loop over icon sizes leaves the manifest `FixedManifest` describes |

## Left out

- Browser storage is modelled as a map that is written at once. `chrome.storage.local` is asynchronous: `ChromeExtension.VoidExtension.LoadNotes` takes the delivered result as a parameter, and the race that allows is stated in `ChromeExtension.StaleLoadBreaksMirror`.
- Each instance holds its own copy of the store, and the invariant lemmas (`WebPage.HandlersPreserveInvariants`, `ChromeExtension.MethodsPreserveInvariants`) assume no one else writes it. Every tab of the web page's origin shares one localStorage, and every new-tab page of the extension shares one `chrome.storage.local`. Writes from other instances are therefore not modelled as interleavings; the two-instance lemmas `TypingElsewhereBreaksMirror` and `ExportElsewhereDropsDraft` in both modules state what they do to the mirror.
- Storage calls are modelled as always succeeding. `localStorage.setItem` can throw (for instance on a full quota) after the text and count have changed, which would leave the page showing a draft the store does not hold. That failure path is not modelled.
- `window.open` is not modelled as a side effect. The opened URI is returned as the `Opened` outcome.
- Whether the browser opens the URI, and what Obsidian does beyond decoding the `content` parameter, is not modelled.
- Focus requests, the JSX markup, styling and other DOM details are not modelled.
- The date is a parameter. `toLocaleDateString` and the clock are not modelled.
- The extension's `updateDate` only writes a date label. It is not modelled.
- The web page's `getWeather` is not modelled.
- The timer is modelled as calls to `Tick`. The three-second interval and its scheduling are not modelled.
- JsNumbers.ToDecimal: renders the count without the thousands separators that `toLocaleString` inserts from 1,000 on.
- The web page's `placeholderIndex` is never advanced by the source. The model keeps it at 0 as an invariant, so the placeholder is always the first prompt (`WebPage.PlaceholderStaysFirst`).
- The extension's label and button state before the script first writes them comes from its markup. It is modelled as `None` and `Unstyled`.
- The build script's file reads and writes, `JSON.parse`/`JSON.stringify`, the copying of files and its console output are not modelled. The manifest is a map from keys to JSON values, and JSON numbers are integers.
- BuildScript.Manifest.BumpVersion: requires a major and an optional minor that are digit strings up to 2^53 - 1. `Number()` of other text (NaN, fractions, signs, white space) and float rounding above 2^53 are not modelled.
- BuildScript.Manifest.FixIconPaths: requires `icons` to be absent, falsy, or an object whose values are all strings. Other shapes make `replace` throw or iterate differently, and are not modelled.
- Surrogate code points are kept as UTF-16 units. Unicode normalisation does not arise.
