# Corporate success fantasy generator: a Dafny model of its front-end logic

This project models the decision logic of a small React front end. The user
uploads a portrait and asks Google's Gemini image API for a stylised picture
of it. The model covers five pieces:

- **The single-image generator** (`src/App.jsx`). It holds six pieces of
  component state: `apiKey`, `file`, `previewUrl`, `error`, `isGenerating` and
  `generatedUrl`. Session storage keeps the API key. The model is the class
  `App.Generator`, whose `session` field is a map that stands for the browser's
  session storage. Its methods are the handlers `onSaveKey`, `onFileSelect`,
  `onGenerate` and `onGenerateAgain`. `onGenerate` is asynchronous, so it is
  split in two:
  - `StartGenerate` is the synchronous part up to the first `await`.
  - `FinishGenerate` is the continuation. It runs for the file captured when
    the handler started.

  `OnGenerate` runs both parts with nothing in between. The class invariant
  `Valid` says three things:
  - the key on screen is the stored key;
  - a preview shows exactly when a file is chosen;
  - a generated URL is always an image `data:` URL.
- **The API exchange** (module `Gemini`, also from `src/App.jsx`):
  - the base64 payload cut out of the FileReader result with `split(',')[1]`;
  - the request body;
  - the nested loop that finds the first reply part with truthy
    `inline_data.data` (method `FindImagePart`). It is proved against the
    reference scan `ScanParts` over all parts in visiting order;
  - the `data:` URL of section 3 of RFC 2397 built from that part, with the
    media type defaulting to `image/png`.

  The file read and the network call are not executed. The caller hands
  their outcomes in as values: `ReadOutcome`, `FetchOutcome`, and `Reply` for
  the parsed JSON.
- **Scene selection** (`src/components/ScenesSelector.jsx`): `toggle`,
  `toggleAll`, `allSelected`, the captions of the select-all and generate
  buttons, and when the generate button is enabled.
- **The results grid** (`src/components/ResultsGrid.jsx`): whether anything is
  shown, which scene cards appear and in which order, and what each card
  offers (spinner, error text, image or placeholder, regenerate, download).
- **The upload gate** (`src/components/UploadSection.jsx`): the three-way
  decision on the chosen file's MIME type.

In JavaScript, a string field that is missing or falsy is modelled as `""`.
An object that may be missing or `null` is modelled as `Option`. A `null`
element of `parts` is kept as `NullPart`, because reading `p.inline_data` on
it throws. The scan then ends in `Crashed`, and the handler shows its generic
failure message.

The multi-scene orchestration lives outside the modelled files: the results
map, progress counting and regenerating one scene. `ScenesSelector` and
`ResultsGrid` receive that state only as props (`results`, `progress`,
`onRegenerate`), and the model takes those props as inputs.

`onGenerate` checks only the key and the file (src/App.jsx:59-66); it does not
look at `isGenerating`. Only the disabled generate button keeps a second run
out. `StartGenerate` states exactly this.

## Model

| member | source | states |
|---|---|---|
| `Gemini.Base64Field` | src/App.jsx:48 | `split(',')[1]` is undefined exactly when the reader result has no comma; otherwise it is the text after the first comma up to the second comma or the end, so it never holds a comma |
| `Gemini.PayloadOfDataUrl` | src/App.jsx:45-49 | cutting `split(',')[1]` out of a data URL (RFC 2397 section 3) gives back its payload when the media type and payload hold no comma |
| `Gemini.DataUrl` | src/App.jsx:123-124 | definition of `data:${mime};base64,${data}` with the image/png default; `PayloadOfDataUrl` states that its payload can be cut back out |
| `Gemini.MediaTypeOr` | src/App.jsx:123 | `x \|\| 'image/png'`: a declared type is kept, an empty one becomes image/png, so the result is never empty |
| `Gemini.BuildBody` | src/App.jsx:76-91 | exactly one content entry, role "user", prompt text part first, then the inline image part carrying the payload and the file's type, or image/png when the type is empty |
| `Gemini.RequestCarriesUpload` | src/App.jsx:72-91 | the file reader's data URL of a typed file, cut and posted, puts exactly that file's type and payload into the request |
| `Gemini.AllParts` | src/App.jsx:106-110 | definition: the parts of all candidates in visiting order, `c?.content?.parts \|\| []` for each; `ScanResumesAt` and `ScanPassesCandidate` relate it to the loop's position |
| `Gemini.ScanParts` | src/App.jsx:110-115 | reference definition of the scan the loop performs; `ScanFindsFirstImage` and `ScanFindsNothing` state what it returns |
| `Gemini.FindImagePart` | src/App.jsx:107-117 | the nested candidates/parts loop with its early breaks returns what the reference scan over all parts in visiting order returns; missing content or parts count as empty and a null part throws (missing `candidates` are mapped to [] by the caller, line 106) |
| `Gemini.ScanFindsFirstImage` | src/App.jsx:107-117 | the scan returns an image exactly when it is the `inline_data` of the first part with truthy data, and every part before it is an object without image data |
| `Gemini.ScanFindsNothing` | src/App.jsx:106-120 | the scan finds nothing exactly when every part is an object without truthy `inline_data.data` |
| `Gemini.ScanAppend` | src/App.jsx:108-117 | scanning a concatenation reaches the second half only when the first finds nothing (candidate order, then part order) |
| `Gemini.Attempt` | src/App.jsx:71-128 | definition of the outcome of the `try` block from the read and fetch outcomes; `AttemptYieldsFirstImage` and `AttemptFindsNoImage` characterise it |
| `Gemini.AttemptYieldsFirstImage` | src/App.jsx:99-125 | an attempt succeeds exactly when the file was read and the reply is ok JSON with an image part; the URL is then `"data:" + (mime_type or image/png) + ";base64," + data` of the first image part, an image data URL |
| `Gemini.AttemptFindsNoImage` | src/App.jsx:106-121 | an ok JSON reply fails with "no image" exactly when every part is a non-null object without image data, including missing or empty `candidates` (a null part with no image before it throws instead) |
| `App.Generator.constructor` | src/App.jsx:8-18 | initial state: no file, no preview, no error, not generating, no result; the key is the stored key (an empty stored key counts as none) |
| `App.Generator.OnSaveKey` | src/App.jsx:20-24 | sets the key; stores it under "gemini_api_key" when non-empty, removes the stored key otherwise; nothing else changes |
| `App.Generator.OnFileSelect` | src/App.jsx:26-37 | always clears the generated URL and sets the error to `err` or ""; a null file clears file and preview, a file is taken with its object URL as preview |
| `App.Generator.CanGenerate` | src/App.jsx:39-41 | definition of `canGenerate`; `StartGenerate` states that whenever it holds a start succeeds |
| `App.Generator.ChooseFiles` | src/components/UploadSection.jsx:2-11 | the upload handler wired to `onFileSelect`: no file leaves the state alone; a rejected type clears file and preview and shows the rejection; an accepted first file becomes the file with no error |
| `App.Generator.StartGenerate` | src/App.jsx:39-70 | a request starts exactly when the key is non-empty and a file is present (so whenever `canGenerate` holds); the key is checked first; on start the error is cleared, `isGenerating` set and the old result dropped |
| `App.Generator.FinishGenerate` | src/App.jsx:71-131 | the request is the built body for the captured file (nothing is sent when the read fails); success shows the attempt's data URL; every failure leaves the URL alone and shows the one generic message whatever was thrown; `isGenerating` ends false |
| `App.Generator.OnGenerate` | src/App.jsx:58-132 | empty key: key message, no request, nothing else changes, even without a file; no file: file message; otherwise `isGenerating` ends false, with the first image's data URL and no error, or no URL and the generic message |
| `App.Generator.OnGenerateAgain` | src/App.jsx:134-137 | drops the result and clears `isGenerating`, nothing else changes |
| `App.AcceptedUploadIsPosted` | src/App.jsx:76-91 | a file that passes the upload gate, read back as its data URL, is posted with exactly its own type and payload |
| `ScenesSelector.Without` | src/components/ScenesSelector.jsx:9 | the filter never keeps the key and never lengthens the list; `WithoutConcat`, `WithoutMembers` and `WithoutCounts` state the rest |
| `ScenesSelector.WithoutConcat` | src/components/ScenesSelector.jsx:9 | the filter distributes over concatenation, so the remaining keys keep their order |
| `ScenesSelector.WithoutMembers` | src/components/ScenesSelector.jsx:9 | the filter keeps exactly the keys other than the toggled one |
| `ScenesSelector.WithoutCounts` | src/components/ScenesSelector.jsx:9 | the filter removes every copy of the key and keeps the count of every other key |
| `ScenesSelector.Toggle` | src/components/ScenesSelector.jsx:7-13 | the key ends up selected exactly when it was not, and the length always changes, so a toggle is never a no-op |
| `ScenesSelector.ToggleFlipsMembership` | src/components/ScenesSelector.jsx:7-13 | toggling flips the toggled key's membership and no other key's |
| `ScenesSelector.TogglePresent` | src/components/ScenesSelector.jsx:8-9 | toggling a selected key removes all its occurrences and keeps the keys before and after it in their original order |
| `ScenesSelector.TogglePresentCounts` | src/components/ScenesSelector.jsx:8-9 | toggling a selected key gives a permutation of the selection with every copy of that key removed |
| `ScenesSelector.ToggleAbsent` | src/components/ScenesSelector.jsx:10-11 | toggling an absent key appends it at the end and leaves the rest unchanged |
| `ScenesSelector.ToggleAbsentTwice` | src/components/ScenesSelector.jsx:8-11 | toggling an absent key twice returns the original list |
| `ScenesSelector.ToggleKeepsDistinct` | src/components/ScenesSelector.jsx:8-11 | a selection without duplicates has none after a toggle |
| `ScenesSelector.ToggleKeepsWellFormed` | src/components/ScenesSelector.jsx:7-13 | toggling a catalogue key keeps a selection duplicate-free and within the catalogue |
| `ScenesSelector.AllSelected` | src/components/ScenesSelector.jsx:5 | definition of `allSelected` as a length test; `AllSelectedCountsOnly` and `AllSelectedMeansEveryScene` state what it does and does not mean |
| `ScenesSelector.ToggleAll` | src/components/ScenesSelector.jsx:15-18 | only catalogue keys are ever selected, and when not all were selected afterwards `allSelected` holds |
| `ScenesSelector.ToggleAllResult` | src/components/ScenesSelector.jsx:15-18 | `toggleAll` yields [] when `allSelected` holds, else every scene key in catalogue order, after which `allSelected` holds and a second `toggleAll` clears |
| `ScenesSelector.ToggleAllKeepsWellFormed` | src/components/ScenesSelector.jsx:15-18 | with distinct catalogue keys, `toggleAll` yields a duplicate-free selection within the catalogue |
| `ScenesSelector.SelectAllCaption` | src/components/ScenesSelector.jsx:28 | the caption is always "Clear all" or "Select all"; "Clear all" shows only when the button will clear the selection, "Select all" only when it will select the whole catalogue |
| `ScenesSelector.AllSelectedCountsOnly` | src/components/ScenesSelector.jsx:5 | `allSelected` is a length comparison: two copies of "a" pass for scenes "a" and "b" |
| `ScenesSelector.AllSelectedMeansEveryScene` | src/components/ScenesSelector.jsx:5 | on a duplicate-free selection within a catalogue of distinct keys, the length test holds exactly when every scene is selected |
| `ScenesSelector.GenerateCaption` | src/components/ScenesSelector.jsx:72-81 | definition of the button caption; `CaptionShowsProgress` states that while generating it determines the progress exactly |
| `ScenesSelector.GenerateButton` | src/components/ScenesSelector.jsx:63-82 | the generate button is enabled exactly when `canGenerate` holds |
| `ScenesSelector.DecimalRoundTrip` | src/components/ScenesSelector.jsx:75 | the decimal rendering of a progress count reads back as that count |
| `ScenesSelector.CaptionShowsProgress` | src/components/ScenesSelector.jsx:72-76 | while generating, the caption "Generating done/total" determines `done` and `total` exactly |
| `ResultsGrid.NothingShownWhenIdle` | src/components/ResultsGrid.jsx:4-6 | nothing is rendered exactly when no entry has a truthy `dataUrl`, `loading` or `error` |
| `ResultsGrid.HasResultsOverValues` | src/components/ResultsGrid.jsx:4 | `hasResults` read over the map's keys agrees with `Object.values(results).some(...)` over its values |
| `ResultsGrid.HasResults` | src/components/ResultsGrid.jsx:4 | definition of `hasResults`; `NothingShownWhenIdle` and `HasResultsOverValues` state it |
| `ResultsGrid.Grid` | src/components/ResultsGrid.jsx:6-25 | definition: nothing without results, else the cards; `NothingShownWhenIdle` states when it is empty |
| `ResultsGrid.Cards` | src/components/ResultsGrid.jsx:23-25 | definition of the card list; `CardsAreCatalogueEntries`, `CardsConcat` and `CardsCoverCatalogue` state which cards appear and in which order |
| `ResultsGrid.CardFor` | src/components/ResultsGrid.jsx:26-67 | definition of one card; `EveryCardPresentsItsEntry` states what it shows for its entry |
| `ResultsGrid.CardsConcat` | src/components/ResultsGrid.jsx:23-25 | the cards of a concatenated catalogue are the concatenated cards, so they follow catalogue order |
| `ResultsGrid.CardsOfOne` | src/components/ResultsGrid.jsx:23-26 | one scene yields its card when its key has an entry, and nothing otherwise |
| `ResultsGrid.CardsAreCatalogueEntries` | src/components/ResultsGrid.jsx:23-26 | a card is shown exactly for each catalogue scene whose key has an entry |
| `ResultsGrid.OnlyCatalogueKeysShow` | src/components/ResultsGrid.jsx:23-25 | every card's key is a catalogue key with an entry; entries under other keys never show |
| `ResultsGrid.CardsCoverCatalogue` | src/components/ResultsGrid.jsx:23-26 | when every scene has an entry there is one card per scene, card i for scene i |
| `ResultsGrid.EveryCardPresentsItsEntry` | src/components/ResultsGrid.jsx:26-67 | each card regenerates exactly its own key; the spinner shows exactly while loading; error text shows exactly when `error` is truthy; there is an image and a download named `<key>.jpg` exactly when `dataUrl` is truthy, and otherwise a placeholder reading "Brewing luxury..." while loading and "No image yet" when not |
| `UploadSection.HandleChange` | src/components/UploadSection.jsx:2-11 | no file means no callback; otherwise exactly one callback: the first file with no error when its type is accepted, and no file with "Please upload a JPG or PNG image." when it is not |
| `UploadSection.OnlyFirstFileCounts` | src/components/UploadSection.jsx:3 | files after the first never influence the decision |
| `UploadSection.AcceptedTypesAreJpegAndPng` | src/components/UploadSection.jsx:5-6 | the accepted types are exactly image/jpeg, image/png and image/jpg |
| `UploadSection.AcceptedFileHasType` | src/components/UploadSection.jsx:5-10 | a file that passes the gate declares a non-empty type without commas |

## Left out

- Network I/O: `fetch`, `res.ok`, `res.text()` and `res.json()` are replaced by a `FetchOutcome` value handed to `FinishGenerate`. The value does not depend on the request that is returned.
- Asynchronous file reading with `FileReader` is replaced by a `ReadOutcome` value. A non-string result and `onerror` are both `ReadFailed`.
- The endpoint URL and `encodeURIComponent(apiKey)` are foreign calls and are not modelled.
- The prompt text is an opaque string, given to the `App.Generator` constructor.
- `URL.createObjectURL` is not modelled. Its result is a parameter, `objectUrl`, assumed non-empty as a blob URL is.
- Base64 decoding is not modelled: the source never decodes, so payloads are opaque strings.
- Session storage is a map from keys to strings. The effect that reads it on mount is folded into the constructor.
- `console.error` logging is left out.
- The messages thrown inside `onGenerate` are kept only as `Failure` values, because the handler discards them.
- JSON values of the wrong type are not modelled, for example a number where `parts` expects an array. A falsy field is modelled as absent.
- Interleavings are not modelled as a scheduler. `StartGenerate` and `FinishGenerate` let a caller place other handler calls between them, but the model proves no property of such interleavings.
- Downloads through the DOM are not modelled (src/components/ResultsGrid.jsx:8-13, src/components/ResultsSection.jsx:4-11).
- JSX markup, icons and styling are not modelled. This includes the per-scene highlight of the selector, which is membership of the key, as `ToggleFlipsMembership` shows.
- src/components/Header.jsx is not part of this model. It is an input box with a timed "Saved" flash; it trims the key before calling `onSaveKey`.
- src/components/GenerateSection.jsx and src/components/ResultsSection.jsx are not part of this model. They are markup guarded by `disabled || isGenerating` and `!generatedUrl`.
- The multi-scene batch orchestration is not in any modelled file: results-map writes, progress counting, regenerating one scene and clearing results. Its state enters only as the `results` and `progress` props.
- `ScenesSelector.GenerateButton`: `progress.done` and `progress.total` are taken to be whole numbers; JavaScript's rendering of other numbers is not modelled.
