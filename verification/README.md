# StyleDecomp outfit analyzer — Dafny model

StyleDecomp lets a user upload an outfit photo. A hosted multimodal model itemizes the
outfit and draws a "decomposition" illustration. Each analysis is kept in a wardrobe
history. The wardrobe is stored in one browser storage slot, and old records are evicted
when the slot is full. A separate trends screen fetches a generated trend summary and
an illustration.

This project models the two pieces of sequential logic in the application.

- **The wardrobe store and the analyzer screen (App.tsx).**
  - The image resize rule used before storage.
  - Building the stored form of a record.
  - The save loop that evicts the oldest record on every quota failure.
  - The quota-error classification.
  - Deletion by id.
  - The analyzer's state transitions.
- **The remote-model client (services/geminiService.ts).**
  - Stripping the data-URL prefix.
  - Building a data URL from an inline image part.
  - Picking the first inline image of a reply.
  - The error policy of the three operations.
  - The response schemas.

The hosted model, the JSON parser, the browser image pipeline and `localStorage` are
opaque. They enter as function parameters, so each contract holds whatever they do.

Modules and files:

| module | file | models |
|---|---|---|
| `Wrappers` | wrappers.dfy | `Option` (a `T \| null`) and `Completion` (returned or thrown) |
| `Strings` | strings.dfy | `split`, `join`, `includes` and `toLowerCase` of the JavaScript runtime |
| `Types` | types.dfy | types.ts: the eight categories and their labels, the records |
| `GeminiService` | gemini_service.dfy | services/geminiService.ts |
| `Compression` | compression.dfy | `compressBase64Image` in App.tsx |
| `HistoryStore` | history_store.dfy | `saveToHistory`, the quota predicate, `deleteHistoryItem` |
| `Analyzer` | analyzer.dfy | `handleImageSelected`, `handleReset`, `handleSelectHistory`, `isContentActive` |

Modelling choices:

- **Storage slot.** It is the list last written successfully. A write is a function from
  the list to `Written` or `WriteThrew(error)`, standing for `JSON.stringify` followed by
  `localStorage.setItem`.
- **Async handlers.** An asynchronous handler is modelled by the state it leaves once
  every awaited call has settled. `BeginImageSelection` is the state while the two
  remote calls are outstanding.
- **Rounding.** `Math.round(h * m / w)` is computed as `(2hm + w) div 2w`. This is exact
  for non-negative integers of image size. The difference between the quotient and a
  half-integer is at least 1/(2w), which is far above the error of double division.
- **Lower-casing.** `toLowerCase` is modelled on ASCII letters only. For the keywords
  "quota" and "exceeded" this decides `includes` exactly. The only non-ASCII characters
  that lower-case into ASCII letters are U+212A (to `k`) and U+0130 (to `i` followed by a
  combining dot), and neither letter occurs in the keywords.
- **Missing fields in templates.** `${x}` of a missing field renders `"undefined"`
  (`Interpolate`). `InlineData` therefore keeps both of its fields optional.
- **Trend records.** `TrendResult` keeps `title`, `description` and `keyElements` optional.
  The record is built by spreading the parsed reply, and types.ts does not enforce its
  declared shape at run time. With an empty reply text the code parses `"{}"`. Reading
  the missing `keyElements` for the image prompt then throws inside the image phase.
  That error is swallowed, so the result carries no text fields and no image.

## Behaviour of the code worth noting

- **End of the eviction loop.** The loop never empties the list: it stops once the list
  holds only the new record (App.tsx:141-144). At that point the new record is dropped and memory and the
  slot are left unchanged.
- **Non-quota write failures.** They are not retried. The code rethrows them, but the enclosing `try` of `saveToHistory` catches and logs them (App.tsx:147-155).
  Saving therefore never fails towards its caller.
- **Deletion.** The code replaces the in-memory list before writing it to the slot
  (App.tsx:162-163). A throwing write
  therefore leaves the two different, and the error escapes the handler.
- **Loading flag.** `isAnalyzing` is only set and cleared when analysis runs. Selecting an
  image that cannot be analyzed leaves the flag as it was.
- **Selecting a history record.** `handleSelectHistory` does not clear `error`. An error
  left by an earlier failed analysis stays on screen above the selected record.

## Model

| member | source | states |
|---|---|---|
| `Types.LabelRoundTrip` | types.ts:1-10 | A string reads back as a category exactly when it is that category's label, so labels and categories correspond one to one |
| `Strings.ToLower` | App.tsx:137-138 | The lower-cased message has no upper-case ASCII letter left, and a message that already had none comes back unchanged, so the keyword test sees `QUOTA` and `quota` alike |
| `Strings.Contains` | App.tsx:137-138 | `includes` is true exactly when the keyword occurs at some index of the string |
| `Strings.Split` | services/geminiService.ts:77 | `split(',')` yields at least one segment and no segment contains the separator. `JoinSplit` and `SplitJoin` prove that joining undoes splitting and splitting undoes joining of separator-free segments |
| `GeminiService.StripDataUrlPrefix` | services/geminiService.ts:77 | With no comma the whole input is returned. Otherwise the result is the text between the first comma and the next comma (or the end) when that text is non-empty, and the whole input when it is empty. The result contains no comma unless it is the input |
| `GeminiService.DataUrl` | services/geminiService.ts:137 | The URL is `data:`, then the media type, then `;base64,`, then the payload, with a missing field rendered as `undefined`; its length is the sum of the pieces |
| `GeminiService.DataUrlRoundTrip` | services/geminiService.ts:137 | Stripping (line 77) a URL built as `data:` + media type + `;base64,` + payload gives back the payload, when the media type and payload have no comma and the payload is non-empty |
| `GeminiService.EmptyPayloadKeepsUrl` | services/geminiService.ts:116 | When the payload is empty, the `\|\| base64Image` fallback sends the whole data URL instead of the payload |
| `GeminiService.PartsOf` | services/geminiService.ts:135 | The parts are those of the first candidate's content, or empty when any link of the chain is missing. `PartsOfReadsFirstCandidateOnly` proves that the reply text and every candidate after the first never change the result |
| `GeminiService.FirstInlineImage` | services/geminiService.ts:135-141 | There is no result exactly when no part carries inline data. Otherwise the result is the data URL of the first part that does |
| `GeminiService.OnlyFirstCandidateCounts` | services/geminiService.ts:135 | Only the first candidate is read: if it has no inline part, a later candidate's image is ignored |
| `GeminiService.AnalyzeOutfit` | services/geminiService.ts:75-112 | The model receives the media type and the stripped payload. A thrown call is rethrown unchanged. A missing or empty reply text throws the "no data" error. Otherwise the result is the parse of the text, a parse error included |
| `GeminiService.GenerateDecompositionImage` | services/geminiService.ts:114-147 | Never throws. A thrown call gives null. Otherwise the result is the first inline image of the first candidate, and any image returned is a `data:` URL |
| `GeminiService.FirstInlineImageLoop` | services/geminiService.ts:183-188 | The loop that breaks at the first inline part selects the same image as the decomposition selection |
| `GeminiService.TrendImage` | services/geminiService.ts:173-191 | With `keyElements` missing there is no image. Otherwise a thrown image call gives no image, and a returned reply gives the data URL of its first inline part (none if it has no inline part) |
| `GeminiService.GetFashionTrends` | services/geminiService.ts:149-202 | A thrown text call or parse error propagates. An empty reply text is parsed as `"{}"`. Otherwise the result always returns with the parsed text fields, and an image-phase failure only leaves `imageUrl` null |
| `GeminiService.CategoryEnumComplete` | services/geminiService.ts:20-31 | The schema's category enum holds every category label, with no repeats, and every entry reads back as a category |
| `GeminiService.SchemasRequireEveryField` | services/geminiService.ts:55-72 | In the item schema, the analysis schema and the trend schema, the required list is exactly the declared properties |
| `Compression.RoundDiv` | App.tsx:23 | `Math.round(num/den)` for non-negative operands is the nearest integer, with halves rounded up |
| `Compression.Resize` | App.tsx:19-25 | The output width never exceeds the maximum. A wider image gets exactly the maximum width and the nearest-integer scaled height. Any other image is unchanged |
| `Compression.ResizeShrinks` | App.tsx:22-25 | Resizing never increases width or height |
| `Compression.ResizeIdempotent` | App.tsx:22-25 | Resizing an already resized image changes nothing |
| `Compression.CompressImage` | App.tsx:13-42 | On a decode error or with no drawing context the input is returned unchanged. Otherwise the output is the encoding at exactly the resized size `Resize(dims, 600)`, which is no wider than 600 and no larger than the source |
| `HistoryStore.IsQuotaError` | App.tsx:133-139 | A failure is a quota failure exactly when its name is `QuotaExceededError`, its code is 22 or 1014, or its lower-cased message contains `quota` or `exceeded` |
| `HistoryStore.QuotaIgnoresCase` | App.tsx:137-138 | Two messages equal up to letter case are classified alike |
| `HistoryStore.NoSignatureNoQuota` | App.tsx:147-150 | An error with another name, another code and a message with no letter q or x in either case (so neither keyword can occur) is not treated as a quota failure, so it is not retried |
| `HistoryStore.OptimizeItem` | App.tsx:103-119 | The stored record keeps the id, timestamp, result and file. Its preview equals its compressed source, and each image is the compression of the original, or null when the original was absent or empty |
| `HistoryStore.SaveToHistory` | App.tsx:100-156 | Write attempts are made at lengths n, n-1, …, down to the last attempt. Every attempt but the last failed with a quota error. A write that succeeds makes memory and the slot equal to that prefix, which starts with the new record followed by the newest old records in order. A quota failure at length 1 or a non-quota failure leaves both unchanged. Memory and slot stay in agreement, and most-recent-first order is kept |
| `HistoryStore.WithoutId` | App.tsx:161 | A record is kept exactly when it was in the history and its id differs from the deleted id |
| `HistoryStore.WithoutIdAppend` | App.tsx:161 | The filter distributes over concatenation, so kept records stay in their original order |
| `HistoryStore.WithoutAbsentId` | App.tsx:161 | Deleting an id no record carries changes nothing |
| `HistoryStore.DeleteRemovesExactlyOne` | App.tsx:161 | With unique ids, deleting a record's id removes exactly that record and keeps all others in order |
| `HistoryStore.DeletePreservesRecency` | App.tsx:161 | Deletion keeps the list most-recent-first |
| `HistoryStore.DeleteHistoryItem` | App.tsx:158-165 | Without confirmation nothing changes. With it, memory holds the filtered list `WithoutId(history, id)`: exactly the records with another id, in their original order. The slot gets the same list when the write succeeds, and keeps its old contents (with the error reported) when the write throws |
| `Analyzer.Mounted` | App.tsx:44-70 | After mounting, the image is the empty state (no file, preview or encoding) and there is no decomposition image, so no content is active and the upload section is shown (line 232). The in-memory wardrobe is what the slot holds, and no analysis, result or error is present |
| `Analyzer.BeginImageSelection` | App.tsx:167-175 | While the remote calls are outstanding the new image is shown on the analyzer view. Result, decomposition image and error are cleared. The loading flag is raised exactly when the image can be analyzed (it is otherwise left as it was) |
| `Analyzer.JoinBoth` | App.tsx:178-181 | The joint call fails exactly when either call fails, with the error of a failed call. Otherwise it carries both values. When the decomposition call returns, the joint call fails exactly when the analysis does |
| `Analyzer.JointFailureIsAnalysisFailure` | App.tsx:178-181 | With the service client plugged in, the joint call fails exactly when `analyzeOutfit` does, whatever the image model does |
| `Analyzer.HandleImageSelected` | App.tsx:167-203 | Analysis runs only when a non-empty encoding and a file are present. A failed joint call sets the failure message and saves no record. A successful one shows result and image with no error, and either keeps the wardrobe or prepends the stored record to a prefix of it. The loading flag ends false, memory and slot stay in agreement, and a coherent screen stays coherent |
| `Analyzer.HandleReset` | App.tsx:205-210 | The image becomes the empty state (no file, preview or encoding), and result, decomposition image and error are cleared, so no content is active. View, loading flag and wardrobe are unchanged |
| `Analyzer.HandleSelectHistory` | App.tsx:212-218 | The record's image, result and decomposition image are shown on the analyzer view. Error, loading flag and wardrobe are unchanged |
| `Analyzer.TransitionsKeepCoherence` | App.tsx:44-210 | Mounting (lines 44-70), starting a selection (lines 167-175) and resetting (lines 205-210) keep the screen coherent: the wardrobe agrees with its slot, and an error is the failure message shown without a result |
| `Analyzer.SelectHistoryCoherence` | App.tsx:212-218 | From a coherent screen, selecting a record keeps it coherent exactly when no error is shown. Otherwise the old error stays next to the record's result |
| `Analyzer.IsContentActive` | App.tsx:220-221 | An image that passes the analysis guard (a non-empty encoding and a file, line 174) is always active content, so the upload section (line 232) stays hidden while it is analyzed. The empty image state is never active |
| `Analyzer.StoredRecordIsActive` | App.tsx:221 | A stored record shows as active content exactly when its source image was present and compressed to a non-empty string |

## Left out

- The Gemini requests themselves are not modelled: prompts, model names, temperature and
  response-schema configuration (services/geminiService.ts:79-99, 118-133, 152-181). The
  hosted model is a function parameter returning a reply or throwing.
- `JSON.parse` is a parameter that returns a value or throws. A reply that parses to
  JSON of another shape (for example `null`, which the code would then read fields
  from) is not modelled, because the `as AnalysisResult` cast checks nothing and the
  outcome depends on the parser.
- Image decoding, canvas drawing, the white background fill and JPEG encoding at quality
  0.7 are not modelled: they are browser graphics and lossy float encoding. Decoding is an
  abstract `ImageLoad` and encoding an abstract function. Only the dimension rule and
  the fallback are kept.
- `localStorage` and `JSON.stringify` are not modelled: a write is an abstract function
  of the list, and the storage key is not modelled. The slot is taken to hold exactly
  the list last written. A real JSON round trip does not preserve `imageState.file`: a
  `File` is written as `{}`, so after a reload the records' `file` differs from what was
  saved, which `Mounted` (wardrobe equals slot) does not reflect. Loading on mount is reduced to
  `Mounted`; a failed parse at load time is not modelled.
- `Promise.all` scheduling is reduced to one joint outcome. When both calls reject, the
  code reports whichever rejects first; `JoinBoth` keeps the analysis error. The
  handler replaces either error by the same message, and the decomposition call never
  rejects, so this does not change any state. A handler that runs while
  another is still awaiting is not modelled, including a save that uses a stale
  wardrobe list.
- The `Date.now()` id and timestamp are parameters. The `confirm` dialog is a boolean.
  `stopPropagation` and the CSS animation injection are not modelled: they are
  environment effects.
- The React components (AnalysisView, WardrobeView, TrendsView, UploadSection, Header,
  Icons) are not modelled: they render and plumb FileReader and object URLs.
- A thrown `null` or `undefined`, or a `message` that is neither a string nor
  null/undefined, is not modelled: reading `e.name`, or calling `toLowerCase` on such
  a message, makes the quota test itself throw, and the outer `catch` logs it. Any
  other thrown primitive reads as `JsError(None, None, None)`: it is not a quota error
  and is rethrown.
- HandleImageSelected: states the wardrobe after a successful analysis only as unchanged,
  or as the stored record followed by a prefix of the old list. Which of the two happens
  is SaveToHistory's contract, given the same write function.
