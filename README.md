# AI code reviewer: the `POST /review` text handling

The backend's `POST /review` handler (index.js:28-98) takes a JSON body with a
`code` field and does three things this project models:

- It rejects a falsy `code` with status 400 and `"No code provided!"` before any
  prompt is built.
- It builds a fixed prompt with the submitted code between two triple-backtick
  fences.
- It splits the language model's free-text reply on the heading
  `### 🔹 **Optimized Code:**`. The text before the first heading, trimmed, is
  the review. The text between the first and a second heading (or to the end of
  the reply) gives the optimized code, which is:
  - the placeholder `"No optimized code provided."` when that text is
    `undefined` or `""`;
  - otherwise that text with every non-overlapping fence removed, left to
    right, and trimmed.

The model has three files, all pure functions and lemmas:

- `wrappers.dfy` holds `Option`. It stands for values JavaScript may leave
  `undefined`: the request's `code`, and the second element of the destructured
  split result.
- `js_string.dfy` (module `JsString`) holds the ECMAScript string operations
  the handler uses:
  - `trim`, over the full WhiteSpace and LineTerminator set;
  - `split` with a non-empty separator, cutting at leftmost non-overlapping
    matches and always returning at least one piece;
  - `replace` with a global pattern, modelled as `RemoveAll`.
  Each has a reference characterisation and lemmas linking the two.
  `IndexOf` is the leftmost-match search from a position. In `split` it is
  ECMAScript's StringIndexOf. For the literal global regular expression in
  `replace`, the scan of RegExpBuiltinExec from `lastIndex` finds the same
  match. The handler does not call `IndexOf` directly.
- `review.dfy` (module `ReviewEndpoint`) holds the guard, the prompt, the
  splitter and the handler.

The handler's two collaborators are parameters of `HandleReview`:

- `complete` gives the model's reply to a prompt. `None` stands for any failure
  of the call or of reading its result.
- `save` tells whether the store accepted the record.

Strings are sequences of Unicode scalar values rather than UTF-16 code units.
The marker and the fence start and end with ASCII characters, so for
well-formed text, matching, splitting and trimming give the same pieces under
either view.

The handler does no check of its own on the review. An empty review goes to
the store, whose `required` rule refuses it, and the refusal (`save` returning
false) becomes the generic 500.

## Model

| member | source | states |
|---|---|---|
| JsString.IsWS | index.js:86-87 | the code points `trim` removes: tab, VT, FF, space, NBSP, U+FEFF, U+1680, U+2000-U+200A, U+202F, U+205F, U+3000, LF, CR, U+2028, U+2029 |
| JsString.WhiteSpaceRunEnd | index.js:86 | the index where the run of white space starting at a position ends: everything before it from that position is white space and the character at it, if any, is not |
| JsString.WhiteSpaceRunStart | index.js:86 | the index where the run of white space ending at a position starts: everything from it up to that position is white space and the character before it, if any, is not |
| JsString.TrimStart | index.js:86 | the input after its leading white-space run: the result is a suffix of the input; everything cut off is white space; the result is empty or starts with a non-white-space character |
| JsString.TrimEnd | index.js:86 | the input before its trailing white-space run: the result is a prefix of the input; everything cut off is white space; the result is empty or ends with a non-white-space character |
| JsString.Trim | index.js:86 | the result neither starts nor ends with white space |
| JsString.TrimTakesOffWhiteSpace | index.js:86-87 | the trimmed text is a contiguous piece of the input framed only by white space on both sides; it is empty exactly when the input is all white space |
| JsString.TrimIdempotent | index.js:86 | trimming twice equals trimming once |
| JsString.TrimFree | index.js:86-87 | trimming cannot introduce a pattern the text did not contain |
| JsString.IndexOf | index.js:84 | the leftmost-match search from a position (StringIndexOf in `split`; for the literal fence, the same match RegExpBuiltinExec finds in `replace`): a found index is an occurrence at or after the start with no earlier one from the start; `None` means no occurrence from the start on |
| JsString.IndexOfFindsFirst | index.js:84 | the search from 0 finds exactly the first occurrence |
| JsString.Split | index.js:84 | at least one piece, and joining the pieces with the separator gives back the input |
| JsString.SplitCutsAtFirstMatches | index.js:84 | every piece but the last ends where the leftmost remaining separator starts, and the last piece holds no separator |
| JsString.SplitUnique | index.js:84 | any list of pieces that joins back to the input and is cut at leftmost matches is the result of `Split`, so `Split` matches its reference characterisation |
| JsString.SplitAtFirst | index.js:84 | splitting at the first occurrence gives the text before it, followed by the split of the rest |
| JsString.SplitWithoutSeparator | index.js:84 | a text without the separator splits into itself alone |
| JsString.SplitAfterFreeText | index.js:84 | for a separator that cannot overlap itself, splitting separator-free text, a separator and a rest gives that text, then the split of the rest |
| JsString.FirstAfterFreeText | index.js:84 | for a separator that cannot overlap itself, the first occurrence after separator-free text is the one placed there |
| JsString.SplitPartFree | index.js:84 | no piece of a split contains the separator |
| JsString.FirstOccurrenceUnique | index.js:84 | a text has at most one first occurrence of a pattern |
| JsString.RemoveAll | index.js:87 | the result is never longer than the input |
| JsString.RemoveAllIsSplitJoin | index.js:87 | global removal equals splitting on the pattern and joining the pieces with nothing |
| JsString.RemoveAllUnchangedIff | index.js:87 | removal leaves the text unchanged exactly when the pattern does not occur in it |
| JsString.RemoveAllLeading | index.js:87 | the pattern at the very start of the text is removed, and removal goes on after it |
| JsString.RemoveAllCons | index.js:87 | a first character that cannot start the pattern is kept, and removal goes on after it |
| JsString.RemoveAllUniformFree | index.js:87 | for a pattern of one repeated character, such as a fence, the result holds no occurrence of it, so removal cannot form a new fence across a cut |
| JsString.Unwrap | index.js:34-60 | a found middle, placed between the head and the tail, gives back the input |
| JsString.UnwrapWrapped | index.js:34-60 | unwrapping head + middle + tail gives back the middle |
| ReviewEndpoint.Truthy | index.js:31 | `undefined` and `""` are falsy, every other string is truthy; the same test guards `code` and chooses between the placeholder and the cleaned part at line 87 |
| ReviewEndpoint.Prompt | index.js:34-60 | the prompt is the template's head, a fence, the code verbatim, a fence and the template's tail; fence + code + fence occurs in it contiguously |
| ReviewEndpoint.EmbeddedCode | index.js:34-60 | code read back out of a prompt rebuilds that same prompt |
| ReviewEndpoint.PromptRoundTrip | index.js:44 | the code is embedded verbatim: reading it back out of the prompt gives exactly the submitted code |
| ReviewEndpoint.Admit | index.js:31-60 | rejected with 400 and `"No code provided!"` exactly when `code` is `undefined` or `""`; otherwise the prompt to send contains the code between fences and gives it back |
| ReviewEndpoint.PlaceholderHasNoFence | index.js:87 | the placeholder holds no fence |
| ReviewEndpoint.CleanOptimizedCode | index.js:87 | the optimized code never holds a fence and never starts or ends with white space, for the placeholder and for a cleaned part alike |
| ReviewEndpoint.FromParts | index.js:84-87 | the optimized code taken from the destructured pieces holds no fence and is trimmed |
| ReviewEndpoint.SplitResponse | index.js:83-87 | the review never holds the marker and is trimmed; the optimized code never holds a fence and is trimmed |
| ReviewEndpoint.MarkerUnbordered | index.js:84 | two occurrences of the marker never overlap |
| ReviewEndpoint.MarkerHashes | index.js:84 | `#` appears in the marker only in its first three places |
| ReviewEndpoint.NoMatchInWhiteSpace | index.js:84-87 | all-white-space text holds no pattern that starts with a non-white-space character |
| ReviewEndpoint.MissingMarker | index.js:84-87 | with no marker, the review is the whole reply trimmed and the optimized code is the placeholder |
| ReviewEndpoint.ReviewIsTextBeforeFirstMarker | index.js:84-86 | the review is the text before the first marker, trimmed |
| ReviewEndpoint.OptimizedCodeBetweenMarkers | index.js:84-87 | with two markers, the optimized code comes from the text strictly between them: the placeholder when it is empty, else that text without fences, trimmed |
| ReviewEndpoint.OptimizedCodeAfterOnlyMarker | index.js:84-87 | with one marker, the optimized code comes from all the text after it: the placeholder when the marker ends the reply, else that text without fences, trimmed |
| ReviewEndpoint.TwoMarkers | index.js:84-87 | for marker-free `a` and `b`, the reply `a`, marker, `b`, marker, `x` gives review `trim(a)` and optimized code from `b` |
| ReviewEndpoint.TextAfterSecondMarkerIgnored | index.js:84 | whatever follows a second marker has no effect on the result |
| ReviewEndpoint.MarkerAtEnd | index.js:84-87 | a marker that ends the reply gives the placeholder, since `""` is falsy |
| ReviewEndpoint.AdjacentMarkers | index.js:84-87 | two markers in a row give the placeholder |
| ReviewEndpoint.WhiteSpaceAfterMarker | index.js:84-87 | a non-empty all-white-space segment is truthy and gives `""`, not the placeholder |
| ReviewEndpoint.FenceAfterMarker | index.js:84-87 | a segment that is a single fence gives `""`, not the placeholder |
| ReviewEndpoint.FencesAndWhiteSpaceChars | index.js:87 | a text built from fences and white space holds only backticks and white-space characters |
| ReviewEndpoint.NoMatchInFencesAndWhiteSpace | index.js:84-87 | such a text holds no pattern that starts with anything else, so it holds no marker |
| ReviewEndpoint.RemoveFencesLeavesWhiteSpace | index.js:87 | removing every fence from such a text leaves only white space |
| ReviewEndpoint.FencesAndWhiteSpaceCleanToNothing | index.js:87 | such a text cleans to `""`, and when it is not `""` itself it is truthy, so the optimized code is `""` and not the placeholder |
| ReviewEndpoint.FencesAndWhiteSpaceBetweenMarkers | index.js:84-87 | a non-empty segment of fences and white space between two markers gives optimized code `""` |
| ReviewEndpoint.FencesAndWhiteSpaceAfterOnlyMarker | index.js:84-87 | a non-empty segment of fences and white space after the only marker gives optimized code `""` |
| ReviewEndpoint.SplitResponseIdempotent | index.js:84-87 | splitting a produced review again gives the same review and the placeholder |
| ReviewEndpoint.HandleReview | index.js:28-97 | the status is 200, 400 or 500; 400 with `"No code provided!"` exactly for a falsy `code`; 200 exactly when the model answers the prompt and the store accepts the record of code, review and optimized code; the 200 body is the split of the reply; every other failure is 500 with `"Error processing AI request"` |
| ReviewEndpoint.RejectionCallsNoCollaborator | index.js:31 | a rejected request gets the same 400 answer whatever the model and the store would do, so neither is consulted |
| ReviewEndpoint.OnlyThePromptIsSent | index.js:63-84 | the answer depends on the model only through its reply to the built prompt |

## Left out

- Express setup, CORS, JSON body parsing, the liveness route, `GET /reviews` and `DELETE /review/:id` (index.js:10-16, 100-119): framework routing and store queries with no logic of their own.
- The mongoose connection, the `Review` schema and `save` (index.js:21-25, 89-91; models/Review.js:3-9): modelled only as the `save` oracle. The schema's `required` check, which refuses an empty review, and its lack of an `optimizedCode` field, which makes the store drop that value, are inside the store and not modelled.
- The axios call to the chat-completion API and the `response.data.choices[0].message.content` lookup (index.js:63-83): network I/O, modelled only as the `complete` oracle. A failed call and a malformed response are both `None`, answered with 500.
- github.js (`fetchPRDiff`, `postPRComment`): thin API wrappers with no logic of their own, not reachable from the handler.
- Environment variables, the port default, console logging and the interleaving of concurrent asynchronous requests (index.js:18-19, 95, 122): configuration and I/O.
- A `code` that is a truthy non-string, such as a number or an object: `code` is modelled as an optional string, so the template's string conversion of other values is not modelled.
- JsString.Split: modelled for a non-empty separator only; the handler always splits on the non-empty marker, so `split` with an empty separator or a limit is not modelled.
- JsString.RemoveAll: modelled for a non-empty literal pattern only; the handler's global regular expression is the literal fence, so general regular expressions are not modelled.
- Strings are sequences of Unicode scalar values, not UTF-16 code units, so text holding lone surrogates is not modelled.
