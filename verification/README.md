# Translation app: route handlers and translator component in Dafny

This project models the logic of a small translation web application. The
application has three HTTP route handlers, each of which calls a chat
completion endpoint, and one client component that drives two of them:

- `POST /api/detect-language` checks that `text` is not blank. It then asks
  the endpoint for the ISO code of the text's language and normalises the
  free-form reply: trim it, lower-case it, keep what precedes the first
  ASCII space, and drop every character outside `a`..`z`.
- `POST /api/translate` checks that `text`, `sourceLanguage` and
  `targetLanguage` are all present and non-empty. It picks one of two
  instruction templates, depending on whether the source is the sentinel
  `"auto"`. It answers with the trimmed reply and a random list key in
  `[0, 1000)`.
- `GET /api/dictionary` is a read-through cache keyed by (word, language)
  over an append-only store:
  - a hit is answered from the store, with no outbound call;
  - on a miss, the handler asks for a JSON definition, normalises its
    fields and appends exactly one new entry.
- `src/lib/languages.ts` holds the table of selectable languages and
  `getLanguageName`.
- The `Translator` component holds the selected languages, the two text
  boxes and the detected language:
  - the swap button exchanges the languages, and the texts when there is a
    translation;
  - detection runs only when the text is not blank and the source is `"auto"`;
  - the translate button sends the effective source language, which is the
    selection, else the detected code, else `"en"`.

Files:

- `wrappers.dfy` has `Option`.
- `text.dfy` has the JavaScript string operations:
  - `trim`, with its whitespace set;
  - ASCII `toLowerCase`;
  - `split` on one character;
  - `Array.prototype.join`.
- `json.dfy` has JavaScript values as `JSON.parse` produces them:
  - truthiness;
  - `String(v)`;
  - property access, where the last duplicate key wins and access on
    `null`/`undefined` throws.
- `http.dfy` has request bodies, responses, and the record of the outbound
  call.
- One module per core source file:
  - `languages.dfy`;
  - `detect_language.dfy`;
  - `translate.dfy`;
  - `dictionary.dfy`, where the store is the class `Dictionary.Store`;
  - `translator.dfy`, where the component is the class
    `TranslatorComponent.Translator`.

How the outside world is represented:

- **The outbound call.** Each handler returns an `Exchange`: the call it
  made, if any, and the response (status and payload). What the endpoint
  answers is a parameter (`reply`).
- **The credential.** Whether `OPENAI_API_KEY` is set and non-empty is the
  parameter `configured`.
- **Randomness.** `Math.random()` is a parameter `draw` in `[0, 1)`.
- **Dictionary clock.** The creation time the store records is a parameter
  `now`.

Two behaviours of the code are easy to miss:

- Only the ASCII space splits the detection reply. Other whitespace, such as
  a newline, is deleted, not treated as a separator
  (`DetectLanguage.NewlineDoesNotSplit`).
- The translate route does not reject whitespace-only text; only the
  detect route does (`Translate.BlankTextIsTranslated`).

## Model

| member | source | states |
|---|---|---|
| Text.Trim | src/app/api/detect-language/route.ts:46-47 | `String.prototype.trim`: drops leading, then trailing, whitespace; what that leaves is stated by `TrimShape`, `TrimChars`, `TrimEmptyIffBlank` and `TrimKeepsUnpadded` |
| Text.TrimShape | src/app/api/detect-language/route.ts:46-47 | `trim` removes whitespace only at the two ends: the input is whitespace, then the result, then whitespace, and the result neither starts nor ends with whitespace |
| Text.TrimStartShape | src/app/api/detect-language/route.ts:46-47 | what is dropped from the front is all whitespace; what remains is a suffix that does not start with whitespace |
| Text.TrimEndShape | src/app/api/detect-language/route.ts:46-47 | what is dropped from the back is all whitespace; what remains is a prefix that does not end with whitespace |
| Text.TrimChars | src/app/api/translate/route.ts:60 | the trimmed text is no longer than the input and every character of it occurs in the input |
| Text.TrimEmptyIffBlank | src/app/api/detect-language/route.ts:8 | `text.trim() === ""` exactly when every character is whitespace |
| Text.TrimKeepsUnpadded | src/app/api/detect-language/route.ts:46-47 | a string with no whitespace at either end is unchanged by `trim` |
| Text.ToLower | src/app/api/detect-language/route.ts:48 | same length; each character is lowered as `LowerChar` says (ASCII `A`..`Z` only) |
| Text.Split | src/app/api/detect-language/route.ts:51 | at least one piece; the pieces joined with the separator give back the input; no piece contains the separator |
| Text.Join | src/app/api/dictionary/route.ts:81 | `Array.prototype.join`: no parts give "", one part is itself, otherwise parts separated by the separator |
| Text.JoinSnoc | src/app/api/dictionary/route.ts:81 | joining one more part appends the separator and that part |
| Json.Truthy | src/app/api/translate/route.ts:15 | JavaScript truthiness as the negation and the or-default test it: `undefined`, `null`, `false`, the number `0` and "" are falsy; every other number and string, `true`, arrays and objects are truthy |
| Json.ToString | src/app/api/dictionary/route.ts:83 | `String(v)`, also the template interpolation of the translate instruction: none (a TypeError) for an object with its own `toString` member, since no parsed value is callable and the inherited `valueOf` returns the object; an array is its elements joined with "," and throws when an element does |
| Json.ElementStrings | src/app/api/dictionary/route.ts:81 | `join` renders `null` and `undefined` elements as "" and every other element by `String`, one string per element; none exactly when some element throws |
| Json.ElementStringsAppend | src/app/api/dictionary/route.ts:81 | element rendering distributes over concatenation, and throws on the whole exactly when it throws on one of the parts |
| Json.Property | src/app/api/translate/route.ts:13 | reading a member of `null`/`undefined` throws; on a boolean, number, string or array every key the handlers read gives `undefined` |
| Json.LastValue | src/app/api/translate/route.ts:13 | the value of the last member with the key, or `undefined`; `LastValueIsLast` states this |
| Json.LastValueIsLast | src/app/api/translate/route.ts:13 | an object's member value is that of the last member with the key, and `undefined` when there is none; a defined result is the value of some member with that key |
| Json.LastValueSnoc | src/app/api/translate/route.ts:13 | a member added last wins for its key and leaves the other keys' values unchanged |
| Languages.FindCode | src/lib/languages.ts:9 | `find` by code: the index of the first entry with that code, or none when no entry has it |
| Languages.GetLanguageName | src/lib/languages.ts:8-11 | total; the name of the first entry with the code, and the code itself when the table has none |
| Languages.TableCodesDistinct | src/lib/languages.ts:1-6 | no two entries share a code |
| Languages.TableHasAuto | src/lib/languages.ts:1-6 | the table offers the sentinel `"auto"`, as its first entry |
| DetectLanguage.FirstToken | src/app/api/detect-language/route.ts:50-52 | a prefix of the input without an ASCII space, followed in the input by a space unless it is all of it |
| DetectLanguage.FirstTokenIsSplitHead | src/app/api/detect-language/route.ts:50-52 | the first token equals `s.includes(" ") ? s.split(" ")[0] : s` |
| DetectLanguage.FirstTokenUnique | src/app/api/detect-language/route.ts:50-52 | the three facts of the first token determine it |
| DetectLanguage.KeepLetters | src/app/api/detect-language/route.ts:54 | the result has only `a`..`z`, is a subsequence of the input, is no longer, and equals the input when the input is already a code |
| DetectLanguage.NormalizeCode | src/app/api/detect-language/route.ts:46-54 | the normalised reply contains only `a`..`z` (possibly empty) |
| DetectLanguage.NormalizeIsSubsequence | src/app/api/detect-language/route.ts:46-54 | the code is a subsequence of the trimmed, lower-cased reply up to its first ASCII space |
| DetectLanguage.CodeIsFixedPoint | src/app/api/detect-language/route.ts:46-54 | an already normalised code normalises to itself |
| DetectLanguage.NormalizeIdempotent | src/app/api/detect-language/route.ts:46-54 | normalising twice is normalising once |
| DetectLanguage.KeepLettersOfLower | src/app/api/detect-language/route.ts:48-54 | keeping `a`..`z` after lower-casing is `FoldLetters`: letters `A`..`Z` survive as their lower-case forms |
| DetectLanguage.FirstTokenOfLower | src/app/api/detect-language/route.ts:48-52 | lower-casing commutes with taking the first token |
| DetectLanguage.NormalizeFoldsCase | src/app/api/detect-language/route.ts:46-54 | the code is the case-folded letters of the trimmed reply's first token |
| DetectLanguage.NoSpaceKeepsAllLetters | src/app/api/detect-language/route.ts:50-54 | a reply without an ASCII space keeps all its letters, whatever other whitespace it holds |
| DetectLanguage.NewlineDoesNotSplit | src/app/api/detect-language/route.ts:50-54 | `"en\nfr"` normalises to `"enfr"` |
| DetectLanguage.ChattyReply | src/app/api/detect-language/route.ts:46-54 | `"Es, Spanish"` normalises to `"es"` |
| DetectLanguage.TextField | src/app/api/detect-language/route.ts:6 | `const { text } = await request.json()`: none when the body cannot be read or destructured, else the `text` member |
| DetectLanguage.Respond | src/app/api/detect-language/route.ts:8-59 | falsy or blank text gives 400 before the credential is checked and with no call; a truthy non-string gives 500; with no credential 500 and no call; otherwise exactly one call with the fixed instruction and the text, then 503 on failure or 200 with the normalised code |
| DetectLanguage.Handle | src/app/api/detect-language/route.ts:4-66 | a body that cannot be read gives 500 and no call; otherwise as `Respond`: the call happens iff the text is a non-blank string and the credential is set, 400 iff the text is missing, falsy or blank, 503 iff the call fails, success iff it answers, with a code of `a`..`z` |
| DetectLanguage.NonBlankTextAccepted | src/components/Translator.tsx:22-30 | the body the component sends for non-blank text passes validation and is never answered with 400 |
| DetectLanguage.NonBlankStringAccepted | src/app/api/detect-language/route.ts:8 | a string that does not trim to "" never gets 400 |
| DetectLanguage.SentTextHandled | src/components/Translator.tsx:26-30 | the route answers the body `{ text }` as `Respond` answers that string |
| Translate.SystemPrompt | src/app/api/translate/route.ts:31-34 | strict equality with `"auto"` selects the detecting template, anything else the explicit one; the languages are interpolated with `String`, and the prompt exists exactly when the target converts and, for the explicit template, the source converts too |
| Translate.Fields | src/app/api/translate/route.ts:13 | none when the body cannot be read or is `null`/`undefined` (destructuring throws), else the values of `text`, `sourceLanguage` and `targetLanguage` |
| Translate.PromptsDiffer | src/app/api/translate/route.ts:31-34 | the detecting template and the explicit one never coincide |
| Translate.PromptEmbedsTarget | src/app/api/translate/route.ts:31-34 | a prompt that can be built contains the target language under both templates |
| Translate.ExplicitPromptEmbedsSource | src/app/api/translate/route.ts:34 | for a source other than `"auto"`, a prompt that can be built contains the source language |
| Translate.OwnToStringTargetUnavailable | src/app/api/translate/route.ts:31-34 | a target language `{"toString": 1}` makes the interpolation throw: 503 and no call |
| Translate.ListKey | src/app/api/translate/route.ts:64 | `Math.floor(Math.random() * 1000)` is an integer in `[0, 1000)` |
| Translate.Respond | src/app/api/translate/route.ts:15-73 | 400 iff a field is falsy, before the credential is checked and with no call; with no credential 500 and no call; a language that cannot be interpolated gives 503 and no call; otherwise one call whose instruction is chosen on `"auto"`, then 503 on failure or 200 with the trimmed reply and an id in `[0, 1000)` |
| Translate.Handle | src/app/api/translate/route.ts:11-81 | a body that cannot be destructured gives 500 and no call; otherwise as `Respond`: the call happens iff the fields are truthy, the credential is set and the prompt can be built; the error statuses are 400, 500 and 503 |
| Translate.RequestBodyFields | src/components/Translator.tsx:66-70 | the body the component sends destructures to its three strings |
| Translate.SentBodyHandled | src/components/Translator.tsx:63-71 | the route answers the component's body as `Respond` answers its three strings |
| Translate.NonEmptyStringsAccepted | src/app/api/translate/route.ts:15 | three non-empty strings pass the check: the answer is never 400 |
| Translate.BlankTextIsTranslated | src/app/api/translate/route.ts:15-20 | non-empty whitespace-only text passes validation and is sent to the endpoint, although it trims to "" |
| Translate.NonEmptyFieldsAccepted | src/app/api/translate/route.ts:15-20 | three non-empty strings are never answered with 400 |
| Dictionary.Given | src/app/api/dictionary/route.ts:17 | a query parameter passes `!word` exactly when present and non-empty |
| Dictionary.Instruction | src/app/api/dictionary/route.ts:52 | the system instruction with the word and the language interpolated |
| Dictionary.InstructionEmbedsWord | src/app/api/dictionary/route.ts:52 | the instruction names the word being looked up |
| Dictionary.Examples | src/app/api/dictionary/route.ts:78-85 | falsy or absent gives "", an array is joined with `". "`, any other value is converted with `String`; none (a TypeError) exactly when `String` of the value would throw; `ExamplesOfStrings`, `ExamplesSnoc` and `ExamplesOfString` state the joins |
| Dictionary.TextColumn | src/app/api/dictionary/route.ts:91-92 | the empty-string default of lines 91-92: a falsy value is stored as "", a string as itself, any other value is refused |
| Dictionary.Interpret | src/app/api/dictionary/route.ts:78-95 | the parsed reply yields a definition exactly when it is neither `null` nor `undefined`, its examples convert, and both text columns accept their values; the stored definition and part of speech are the members with the empty-string default, the examples the normalised `examples` member |
| Dictionary.ExamplesOfStrings | src/app/api/dictionary/route.ts:80-81 | an array of strings is joined with `". "` |
| Dictionary.ExamplesSnoc | src/app/api/dictionary/route.ts:81 | one more string example appends `". "` and that example, and the join throws exactly when it threw before |
| Dictionary.SentenceExamples | src/app/api/dictionary/route.ts:81 | sentences that end in a full stop keep it: `["Go.", "Run."]` is stored as `"Go.. Run."` |
| Dictionary.ExamplesOfString | src/app/api/dictionary/route.ts:83 | a string value is stored as it is |
| Dictionary.OwnToStringExamplesUnavailable | src/app/api/dictionary/route.ts:78-104 | on a miss, a reply whose `examples` is `{"toString": "x"}` is answered 503 after the call and nothing is written |
| Dictionary.Find | src/app/api/dictionary/route.ts:25-30 | the first entry whose word and language both equal the request's, or none when no entry matches |
| Dictionary.FindAppended | src/app/api/dictionary/route.ts:87-95 | after appending an entry for a pair the store lacked, looking up that pair finds that entry |
| Dictionary.FindUnaffected | src/app/api/dictionary/route.ts:87-95 | appending an entry for another pair leaves a lookup unchanged |
| Dictionary.Handle | src/app/api/dictionary/route.ts:12-105 | a missing or empty parameter gives 400 with no read, call or write. A hit returns the stored entry with no call or write, credential or not. The endpoint is called exactly on a miss with the credential set; with no credential 500. A failed call gives 503, an unparsable reply 500, neither writing. A write happens only on a successful miss, with the request's pair verbatim, the next id and the normalised fields |
| Dictionary.LookupThenHit | src/app/api/dictionary/route.ts:25-34 | once a lookup succeeds, the next lookup of the same pair returns the same entry, with no call and no write, whatever the credential and reply are then |
| Dictionary.OtherPairsUnaffected | src/app/api/dictionary/route.ts:87-95 | a request leaves the lookup of every other pair as it was |
| Dictionary.Store.Create | src/app/api/dictionary/route.ts:87-95 | appends exactly one entry with the next id and the given fields, keeping ids increasing and pairs unique |
| Dictionary.Store.Lookup | src/app/api/dictionary/route.ts:12-105 | answers as `Handle` does on the current entries, appends the entry `Handle` creates and nothing else, and keeps the store's invariant |
| Dictionary.LookupTwice | src/app/api/dictionary/route.ts:25-34 | two lookups of one pair on one store: once the first succeeds, the second returns the same entry without a call |
| TranslatorComponent.WithoutAuto | src/components/Translator.tsx:158-160 | filtering out the sentinel removes exactly the code `"auto"` from the codes offered |
| TranslatorComponent.TargetOptions | src/components/Translator.tsx:158-160 | the target selector offers every table code except `"auto"` |
| TranslatorComponent.TableCodesNonEmpty | src/lib/languages.ts:1-6 | every selectable code is non-empty |
| TranslatorComponent.Swapped | src/components/Translator.tsx:88-101 | the state after `handleSwap`: unchanged on `"auto"`, else languages exchanged and, with a translation, the pre-swap texts exchanged |
| TranslatorComponent.ShouldDetect | src/components/Translator.tsx:22 | detection runs exactly when the trimmed text is non-empty and the source is `"auto"` |
| TranslatorComponent.SwapExchangesLanguages | src/components/Translator.tsx:88-101 | a swap exchanges the two languages, neither of which is `"auto"` afterwards, and leaves the detected language alone |
| TranslatorComponent.SwapTwiceRestores | src/components/Translator.tsx:88-101 | with the source not `"auto"`, and either a non-empty source text or an empty translation, swapping twice restores the state |
| TranslatorComponent.SwapTwiceKeepsMovedText | src/components/Translator.tsx:97-100 | with an empty source text and a translation, the second swap does not move the text back |
| TranslatorComponent.EffectiveSource | src/components/Translator.tsx:59-60 | the selected language unless it is `"auto"`, else the detected language, else `"en"`; never empty when the selection is not |
| TranslatorComponent.SentTranslationAccepted | src/components/Translator.tsx:53-71 | non-blank text with the effective source and a selected target never gets 400 from the route |
| TranslatorComponent.Translator.constructor | src/components/Translator.tsx:11-18 | starts with source `"auto"`, target `"vi"` and empty texts, detected language and error |
| TranslatorComponent.Translator.SelectSource | src/components/Translator.tsx:130-137 | the source selector sets any table code and changes nothing else |
| TranslatorComponent.Translator.SelectTarget | src/components/Translator.tsx:154-160 | the target selector sets a code other than `"auto"` and changes nothing else |
| TranslatorComponent.Translator.EditSource | src/components/Translator.tsx:168-170 | typing replaces the source text and changes nothing else |
| TranslatorComponent.Translator.HandleSwap | src/components/Translator.tsx:88-101 | the new state is `Swapped` of the old one: unchanged on `"auto"`; otherwise languages exchanged and, when there is a translation, the pre-swap texts exchanged |
| TranslatorComponent.Translator.RunDetection | src/components/Translator.tsx:20-51 | runs iff the trimmed text is non-empty and the source is `"auto"`; sends the source text, never gets 400, records the code on success and changes nothing on failure |
| TranslatorComponent.Translator.HandleTranslate | src/components/Translator.tsx:53-86 | nothing happens for blank text; otherwise sends the text, the effective source and the target, never gets 400, shows the translation and clears the error on success, or shows the failure message |

## Left out

- The HTTP calls to the completion endpoint are not modelled. What the endpoint answers is a parameter: for detection and translation, failure or the message content; for the dictionary, failure, unparsable content, or the parsed value.
- The model name and the temperature are not modelled; of `response_format`, only whether it asks for a JSON object is kept. The record of the call keeps the instruction, the user message and that flag.
- `JSON.parse` is not modelled. A request body that `request.json()` rejects is `Malformed`. On the dictionary miss path, content that is missing or not JSON is `Unparsable`.
- Numbers in JSON values are carried as the text JavaScript renders for them. Number formatting is not modelled.
- Property access on JSON values does not look up inherited members. A key such as `"constructor"` reads as `undefined` here, not as an inherited function. The own members of a string or an array, such as `length` or an index, also read as `undefined`; no handler reads such a key.
- Unicode case mapping beyond ASCII `A`..`Z` is not modelled. `toLowerCase` also maps a few non-ASCII characters to ASCII letters, for example U+212A KELVIN SIGN to `k`; `LowerChar` leaves every non-ASCII character unchanged.
- Prisma is not modelled; it is replaced by the class `Dictionary.Store`. Some behaviour of the real store is therefore assumed:
  - the `where: { word, language }` filter is assumed to be an exact, case-sensitive comparison, as on PostgreSQL or SQLite; the provider and its collation are not part of this model;
  - `findFirst` is assumed to return the first matching entry in insertion order;
  - identifiers are assumed to come from a counter that starts at 1;
  - the text columns are assumed to refuse a truthy non-string value, which the handler then reports as 503 because the refusal happens inside the inner `try`.

  The schema is not part of this model.
- Store failures are not modelled: `findFirst` raising gives 500 "Failed to lookup word" at lines 106-112.
- The duplicate row that two concurrent misses for the same pair can create is not modelled. This is concurrency; `Dictionary.Store.Valid` states uniqueness for requests that run one after another.
- `src/app/api/dictionary/history/route.ts` (a `findMany` query) and `src/lib/services/request.service.ts` (axios wrappers that these routes do not use) are not modelled.
- React rendering is not modelled. This covers `getSourceLanguageDisplay`, the loading flags `isLoading` and `isDetecting`, the disabled state of the buttons, `src/components/Dictionary.tsx` and `src/app/page.tsx`.
- The 500 ms debounce of detection and the interleaving of asynchronous handlers are not modelled. `TranslatorComponent.Translator.RunDetection` is one detection that has fired and runs to completion; each handler runs without interruption.
- Logging to the console is not modelled.
- TranslatorComponent.Translator.RunDetection and TranslatorComponent.Translator.HandleTranslate state the exchange against the route's `Respond` on the strings sent. `DetectLanguage.SentTextHandled` and `Translate.SentBodyHandled` then prove that the route's `Handle` answers the serialised body the same way. These are separate lemmas, not part of the methods' postconditions.
