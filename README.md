# ArtCritique reply normalisation, in Dafny

ArtCritique's backend takes an uploaded picture and asks a generative model
for a critique in JSON form. It then turns the model's reply text into the
body of its HTTP response. This project models the pure parts of that
handler, `POST /analyze` in `Backend/server.js`:

- **Staged upload name** (`upload_name.dfy`). The multer filename callback
  names an upload `Date.now() + "-" + originalname`. `UploadName.StagedName`
  builds that name from a clock reading, which is a `nat` parameter, and the
  original name. `UploadName.Decimal` is the decimal rendering JavaScript
  gives a non-negative integer. `UploadName.SplitStagedName` reads a name
  back, and the round-trip lemmas show that the naming is injective.
- **Cleaning the reply** (`whitespace.dfy`, `fences.dfy`). The reply text
  goes through `.replace(/```json\s*/gi, "").replace(/```/g, "").trim()`.
  Each global replace is a recursive left-to-right scan:
  `Fences.StripJsonFences` for the first pattern, `Fences.StripFences` for
  the second, and `Whitespace.Trim` for `trim`. `Fences.Clean` is the whole
  chain. `Whitespace.IsWs` is the ECMAScript WhiteSpace plus LineTerminator
  set, which both regex `\s` and `String.prototype.trim` use.
- **Parse or fall back** (`analyze.dfy`). `Analyze.HandleReply` hands the
  cleaned text to `JSON.parse`. That call is a parameter
  `parse: string -> Option<JsonValue>`, where `None` stands for a throw. The
  result is `Parsed(v)` or `Raw(cleanedText)`, always next to the message
  "Image analyzed successfully". `Analyze.ReplyJson` is the value handed to
  `res.json`.
- `json.dfy` holds a `JsonValue` datatype for the value grammar of section 2
  of RFC 8259, plus member lookup where the last duplicate wins.
  `wrappers.dfy` holds `Option`. `subsequence.dfy` defines "obtained by
  deleting characters", which the removal-only properties use.

Three points about the code that the model keeps as they are:

- The code deletes every "```" anywhere in the text, not only a fence at
  either end, and so does the model.
- The code passes on whatever JSON value `JSON.parse` returns, even a bare
  number or array, not only an object with the requested fields, and so does
  the model.
- The code does not check that a file was uploaded (`req.file.path`,
  Backend/server.js:44), and the model adds no such check.

## Model

| member | source | states |
|---|---|---|
| Whitespace.IsWs | Backend/server.js:60-62 | the white space of regex `\s` and of `trim()`: never a backtick, digit or ASCII letter, and it includes the four JSON white-space characters |
| Whitespace.TrimStart | Backend/server.js:60 | the greedy `\s*` after "```json" consumes white space only up to the first non-white-space character and never lengthens the text |
| Whitespace.TrimStartParts | Backend/server.js:60 | what `\s*` consumes is a white-space prefix, and what follows it is kept verbatim |
| Whitespace.TrimEnd | Backend/server.js:62 | trailing trimming leaves text that is empty or ends in non-white-space, and is never longer |
| Whitespace.TrimEndParts | Backend/server.js:62 | trailing trimming removes a white-space suffix only and keeps the rest verbatim |
| Whitespace.Trim | Backend/server.js:62 | `trim()` returns text with no white space at either end, never longer than its input |
| Whitespace.TrimSlice | Backend/server.js:62 | `trim()` returns one contiguous slice of its input, with nothing but white space cut on each side |
| Whitespace.TrimUnique | Backend/server.js:62 | trimming white space + r + white space, where r has no white space at its ends, gives exactly r |
| Whitespace.TrimFixpoint | Backend/server.js:62 | `trim()` leaves a text unchanged exactly when the text has no white space at either end (both directions) |
| Whitespace.TrimIdempotent | Backend/server.js:62 | trimming twice is the same as trimming once |
| Fences.StripJsonFences | Backend/server.js:60 | `.replace(/```json\s*/gi, "")` as a left-to-right scan that resumes after each deleted match; its own contract says it never lengthens the text, and StripJsonFencesDeletesOnly, StripJsonFencesNoFence and CleanFencedReply carry the rest |
| Fences.StripFences | Backend/server.js:61 | `.replace(/```/g, "")` as a left-to-right scan of non-overlapping matches; its own contract says it never lengthens the text, and StripFencesDeletesOnly, StripFencesKeepsNonTicks, StripFencesRun and StripFencesNoFence carry the rest |
| Fences.Clean | Backend/server.js:59-62 | the `cleanedText` chain; its own contract says the result is trimmed and never longer than the reply, and CleanResult, CleanFixpoint and CleanIdempotent carry the rest |
| Fences.StripJsonFencesDeletesOnly | Backend/server.js:60 | the first replace only deletes characters: its output is a subsequence of its input |
| Fences.StripFencesDeletesOnly | Backend/server.js:61 | the second replace only deletes characters |
| Fences.StripFencesKeepsNonTicks | Backend/server.js:61 | the second replace removes backticks only: every other character survives, in order |
| Fences.StripFencesRun | Backend/server.js:61 | a maximal run of n backticks comes out of the second replace as n mod 3 backticks, with the rest processed independently |
| Fences.StripFencesNoFence | Backend/server.js:61 | no "```" is left after the second replace, whatever its input |
| Fences.StripJsonFencesNoFence | Backend/server.js:60 | text without "```" goes through the first replace unchanged |
| Fences.StripFencesNoFenceIdentity | Backend/server.js:61 | text without "```" goes through the second replace unchanged |
| Fences.CleanDeletesOnly | Backend/server.js:59-62 | the cleaned text is a subsequence of the reply: nothing is added or reordered |
| Fences.CleanHasNoFence | Backend/server.js:59-62 | the cleaned text never contains three consecutive backticks |
| Fences.CleanResult | Backend/server.js:59-62 | the cleaned text is a subsequence of the reply, has no "```" and no white space at either end |
| Fences.CleanFixpoint | Backend/server.js:59-62 | cleaning leaves a text unchanged exactly when it has no "```" and no surrounding white space (both directions) |
| Fences.CleanIdempotent | Backend/server.js:59-62 | cleaning twice is the same as cleaning once |
| Fences.CleanFencedReply | Backend/server.js:58-62 | white space, "```" + "json" in any letter case, white space, a body without backticks, "```", white space: cleaned to exactly the trimmed body |
| Fences.CleanOtherFence | Backend/server.js:59-62 | a fence whose tag is not "json" in any case, such as "```js" or a tag shorter than four letters, loses only its backticks: the tag stays and the rest is trimmed |
| Analyze.HandleReply | Backend/server.js:64-78 | the message is always "Image analyzed successfully"; `feedbackDetails` is exactly the parsed value when parsing the cleaned text succeeds, and otherwise the cleaned text (not the raw text) that the parser rejected |
| Analyze.FeedbackJson | Backend/server.js:67-77 | the `feedbackDetails` value handed to `res.json`: on success exactly the value `JSON.parse` returned, whatever kind of JSON value it is; on the fallback path an object whose only member is `raw`, holding the cleaned text |
| Analyze.ReplyJson | Backend/server.js:75-78 | the value handed to `res.json`: an object with exactly two members, a `message` member that is the reply's message and a `feedbackDetails` member that is the feedback value |
| Analyze.ReplyBodyShape | Backend/server.js:75-78 | for every reply text and every parser, the body is an object with exactly two members, whose `message` is the success message and whose `feedbackDetails` member is exactly the parsed value when parsing the cleaned text succeeds and `{ raw: cleanedText }` when it fails |
| Analyze.FallbackTextIsCleaned | Backend/server.js:69-72 | the fallback text is the reply with deletions only, holds no "```" and is trimmed |
| Analyze.FallbackIsStable | Backend/server.js:64-73 | sending the fallback text through the handler again gives the same reply |
| Analyze.CleanJsonPassesThrough | Backend/server.js:59-67 | a reply that is already clean reaches `JSON.parse` unchanged and its value becomes `feedbackDetails` |
| Analyze.FencedReplyParsesBody | Backend/server.js:58-73 | for a "```json" fenced reply, `feedbackDetails` is what parsing the trimmed body gives, or `Raw(trimmed body)` |
| Analyze.ProseReplyFallsBack | Backend/server.js:66-73 | prose without backticks or surrounding white space that the parser rejects comes back verbatim under `raw` |
| Analyze.FallbackIsAmbiguous | Backend/server.js:72-78 | the fallback body for text t equals the body for a model reply that parses to the object `{ "raw": t }` |
| UploadName.Decimal | Backend/server.js:30 | the rendering of a timestamp is a non-empty digit string with no superfluous leading zero, so it holds no "-" |
| UploadName.DecimalRoundTrip | Backend/server.js:30 | the digits of `Date.now()` denote the number itself |
| UploadName.DecimalOfValue | Backend/server.js:30 | every canonical digit string is the rendering of the number it denotes |
| UploadName.DecimalInjective | Backend/server.js:30 | distinct timestamps have distinct renderings |
| UploadName.StagedName | Backend/server.js:29-31 | the staged name ends with the original name, preceded by "-", and everything before that "-" is a canonical decimal that denotes the timestamp |
| UploadName.SplitStagedNameRoundTrip | Backend/server.js:29-31 | a staged name splits back at its first "-" into its timestamp and original name, whatever that name contains |
| UploadName.SplitStagedNameSound | Backend/server.js:29-31 | every name that splits was built by the naming rule from the parts it splits into |
| UploadName.StagedNameInjective | Backend/server.js:29-31 | two staged names are equal only when both the timestamps and the original names are equal |
| UploadName.DistinctTimestampsDistinctNames | Backend/server.js:29-31 | uploads staged at different milliseconds never get the same name, whatever their original names |

## Left out

- Express app setup, CORS, `app.listen` and the dotenv/`process.env` reads (Backend/server.js:12-22, 83-85): transport and configuration.
- Multer disk storage, the `uploads/` destination and the staging write (Backend/server.js:25-27, 34): file-system I/O. Only the name rule is modelled.
- `ai.files.upload` and `ai.models.generateContent` (Backend/server.js:43-54): network calls into the Gemini SDK. `response.text` is the handler's input string. The case where it is `undefined` and `.replace` throws is not modelled.
- StagedName: a clock reading before 1970 (a negative `Date.now()`, which JavaScript would render with a leading "-") is excluded by the `nat` parameter, so names of that form are not modelled.
- `Date.now()` is a parameter. Its value is at most 8.64e15, so the exponent form that JavaScript uses for numbers of 1e21 and above never arises and is not modelled.
- The internals of `JSON.parse`: it is the parameter `parse`, not a parser. What `res.json` does when it serialises a parsed value is not modelled either: `ReplyJson` is the value it serialises.
- `console.log` and `console.error` (Backend/server.js:55, 69): logging only.
- Characters are Unicode scalar values. JavaScript strings are UTF-16 code units, so lone surrogates cannot be represented.
- The `i` flag is modelled without the `u` flag, as the source uses it: only the ASCII letters j/J, s/S, o/O, n/N match the tag.
- The prompt text at Backend/server.js:52 asks for a `Strength` key, while clients expect `Strengths`. That is prompt wording, not logic, and it is not modelled.
- async/await sequencing and concurrent requests. Two uploads of the same name in the same millisecond get the same staged name; `StagedNameInjective` states exactly when names coincide.
- An upload request without a file: the code reads `req.file.path` without checking it (Backend/server.js:44), so such a request fails before the modelled part runs, and the model has no error path for it.
- Frontend/src/App.jsx: React UI and display defaults.
