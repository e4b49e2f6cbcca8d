# Smartstudy-AI response extraction, modelled in Dafny

This project models the part of the Smartstudy-AI backend (`Backend/main.py`)
that turns a generative model's reply into structured study material:

- `parse_gemini_response` walks the SDK response. It takes the first
  candidate and concatenates the text of its parts, which may be objects with
  a `.text` attribute, dicts with a `"text"` key, or bare strings. Every
  failure becomes an error dict.
- `extract_json` cleans the text:
  - it removes the "```json" and "```" fences and every remaining backtick;
  - it strips whitespace;
  - it cuts out the greedy `{ ... }` span.
  The span then goes through three tiers in order: `json.loads`, then
  `json5.loads`, then the fallback `{"raw_output": span}`.
- The upload and flashcard routes re-parse a `raw_output` string once with
  `json.loads`. The model lifts that glue into one function.
- `convert_to_english` renders the `flashcards` and `mcqs` lists as numbered
  Q/A text joined by newlines. The model covers dict payloads whose lists,
  where present, hold formattable items; the other inputs are listed under
  "Left out".

The two JSON loaders are parameters of type `Parser = string -> Option<Json>`.
`None` stands for "the loader raised". Every property holds for all loaders;
the properties that depend on a loader's behaviour say so in their `requires`.

Modules:

- `JsonValue` (`json.dfy`): the decoded JSON values. Key lookup returns the
  last binding, as `json.loads` does with duplicate keys.
- `Text` (`text.dfy`): Python's `str.isspace`, `strip`, `replace`, `str(int)`
  and `join`.
- `Extract` and `ExtractProperties` (`extract.dfy`, `extract_properties.dfy`):
  `extract_json` and the re-parse, and what they guarantee.
- `GeminiResponse` (`gemini.dfy`): `parse_gemini_response`.
- `Render` (`render.dfy`): `convert_to_english`.

Notes on what `main.py` does:

- The code has no classification into summary, flashcard set or MCQ set. The
  decoded value is returned as it is.
- A `raw_output` fallback holds the brace span when there is one, and
  otherwise the whole cleaned text.
- The catch-all error is `{"error": "parse_failed", ...}`.
- In the source it is raised, among other cases, by a candidate without a
  `.content` attribute, by a dict part whose `"text"` is not a string, and by
  an object part whose `.text` is not a string. The model raises it in the
  first two cases; the third is listed under "Left out".
- A candidate whose `content` is `None` yields the "No text returned" error,
  because `getattr(None, "parts", None)` is `None`.
- Backticks inside JSON string values are removed too.
- `convert_to_english` raises on items it cannot index, rather than
  rendering an empty string.

## Model

| member | source | states |
|---|---|---|
| JsonValue.KeyIndex | Backend/main.py:131-138 | the position found holds the key and no later field has it, so a lookup reads the last binding; -1 means the key is absent |
| JsonValue.HasKey | Backend/main.py:131-138 | `k in d` for a decoded dict |
| JsonValue.Get | Backend/main.py:131-138 | `d[k]`: the value of the last binding of `k` |
| JsonValue.RawOutput | Backend/main.py:93 | the fallback dict `{"raw_output": s}` |
| JsonValue.ErrorObject | Backend/main.py:104-107 | an error dict `{"error": message}` |
| Text.IsSpace | Backend/main.py:76 | the characters `str.isspace` accepts |
| Text.TrimStart | Backend/main.py:76 | the result is a suffix of the input, everything dropped is whitespace, and it does not start with whitespace |
| Text.TrimEnd | Backend/main.py:76 | the result is a prefix of the input, everything dropped is whitespace, and it does not end with whitespace |
| Text.Strip | Backend/main.py:76 | the result is an infix of the input with only whitespace around it, and neither of its ends is whitespace |
| Text.TrimmedInfix | Backend/main.py:76 | stripping the front and then the back leaves an infix with blanks on both sides |
| Text.ReplaceAll | Backend/main.py:76 | text without the pattern's first character is unchanged; deleting a pattern adds no character; deleting a one-character pattern leaves none of it (its exact value is given by `ReplaceCharIsDrop`) |
| Text.NatToDecimal | Backend/main.py:133 | `str(i)` of an entry number is a nonempty run of digits without a leading zero |
| Text.IntToDecimal | Backend/main.py:133 | `str(n)` of an int starts with `-` exactly when `n` is negative, and the digits after the optional sign have no leading zero and denote the absolute value of `n` |
| Text.DecimalRoundTrip | Backend/main.py:133 | reading back the digits printed for `n` gives `n` |
| Text.Join | Backend/main.py:140 | joining no entries gives "" and joining one entry gives that entry |
| Text.JoinAppend | Backend/main.py:140 | joining one more entry appends the separator and then that entry |
| Text.DropCharAppend | Backend/main.py:76 | dropping a character from a concatenation drops it from each piece |
| Text.ReplaceCharIsDrop | Backend/main.py:76 | `replace(c, "")` of a one-character pattern deletes exactly the occurrences of `c` and keeps everything else in order |
| Text.FencesThenBackticks | Backend/main.py:76 | removing "```" and then every "`" removes exactly the backticks of the input |
| Extract.Clean | Backend/main.py:76 | the cleaned text has no backtick, adds no character, and has no whitespace at either end |
| Extract.HasBraceSpan | Backend/main.py:78-79 | the pattern `\{[\s\S]*\}` matches: some `{` has a `}` after it |
| Extract.FirstIndex | Backend/main.py:78-80 | the position of the first occurrence, or the length when there is none |
| Extract.LastIndex | Backend/main.py:78-80 | the position of the last occurrence, or -1 when there is none |
| Extract.Locate | Backend/main.py:78-80 | with no `{` followed later by a `}`, the text is kept; otherwise the span runs from the first `{` to the last `}`, with no `{` before it and no `}` after it |
| Extract.Candidate | Backend/main.py:76-80 | the span is `Locate` of the cleaned text |
| Extract.EmptyTextHasEmptyCandidate | Backend/main.py:73-80 | empty text leaves an empty span |
| Extract.TieredParse | Backend/main.py:82-93 | the strict value if `json.loads` succeeds; else the lenient value if `json5.loads` succeeds; else `{"raw_output": span}` |
| Extract.ExtractJson | Backend/main.py:73-74 | empty text gives `{"raw_output": ""}` without consulting the loaders |
| Extract.ReparseRawOutput | Backend/main.py:273-279 | a value without a `raw_output` key is kept; a `raw_output` string that `json.loads` accepts is replaced by the decoded value; any other change is impossible |
| ExtractProperties.StripKeepsStripped | Backend/main.py:76 | `strip` leaves already stripped text alone |
| ExtractProperties.ReplaceSkipsPrefix | Backend/main.py:76 | `replace` copies a front part that cannot start the pattern and then works on the rest |
| ExtractProperties.CleanIdempotent | Backend/main.py:76 | cleaning cleaned text changes nothing |
| ExtractProperties.CleanDropsEveryBacktick | Backend/main.py:76 | the cleaned text is the input with "```json" removed, then every backtick removed, then stripped |
| ExtractProperties.BlankInputGivesEmptyRawOutput | Backend/main.py:73-93 | text made only of whitespace and backticks ends as `{"raw_output": ""}` when both loaders reject "" |
| ExtractProperties.EmptyCandidateFallsBack | Backend/main.py:82-93 | an empty cleaned text falls through both loaders to `{"raw_output": ""}` |
| ExtractProperties.CleanOfBlankIsEmpty | Backend/main.py:76 | whitespace and backticks clean to the empty string |
| ExtractProperties.StripOfAllSpace | Backend/main.py:76 | stripping all-whitespace text gives "" |
| ExtractProperties.LocateFindsEnclosedObject | Backend/main.py:78-80 | an object whose surroundings hold no `{` before it and no `}` after it is exactly the span found |
| ExtractProperties.FencedObjectCandidate | Backend/main.py:76-80 | the span of a "```json" fenced object is the stripped body |
| ExtractProperties.CleanOfFencedBody | Backend/main.py:76 | cleaning a fenced backtick-free body gives the stripped body |
| ExtractProperties.LocateOfObject | Backend/main.py:78-80 | text that is one brace-delimited object is its own span |
| ExtractProperties.TaggedFenceDropped | Backend/main.py:76 | the first `replace` removes the opening "```json" tag and nothing else |
| ExtractProperties.ClosingFenceDropped | Backend/main.py:76 | the second `replace` removes the closing fence |
| ExtractProperties.FencedObjectParsesStrictly | Backend/main.py:73-83 | a fenced object that `json.loads` accepts comes back as the decoded value |
| ExtractProperties.ProseAroundObjectIsDropped | Backend/main.py:76-80 | backtick-free prose around an object, with no `{` before and no `}` after it, is cut away |
| ExtractProperties.StrippedProseKeepsObject | Backend/main.py:76-80 | stripping cannot cut into an object whose ends are braces |
| ExtractProperties.StripAcrossObject | Backend/main.py:76 | `strip` of prose, object and prose, where the object's ends are not whitespace, strips only the front of the first prose and the back of the last |
| ExtractProperties.LstripAcrossObject | Backend/main.py:76 | leading whitespace is removed up to the first non-whitespace character and no further |
| ExtractProperties.RstripAcrossObject | Backend/main.py:76 | trailing whitespace is removed back to the last non-whitespace character and no further |
| ExtractProperties.CleanOfBacktickFree | Backend/main.py:76 | on text without backticks, cleaning is only `strip` |
| ExtractProperties.ExtractJsonComesFromATier | Backend/main.py:66-93 | for every text and every pair of loaders, the result is the span wrapped as `raw_output` or a value one of the loaders decoded from the span |
| ExtractProperties.LenientIgnoredAfterStrictSuccess | Backend/main.py:82-89 | for non-empty text, once `json.loads` accepts the span, `json5.loads` has no influence and the strict value is returned |
| ExtractProperties.ReparseOfFallbackIsNoop | Backend/main.py:357-361 | re-parsing a fallback that `extract_json` built itself never changes it |
| ExtractProperties.ReparseOfUnparsableRawOutput | Backend/main.py:273-279 | a `raw_output` that `json.loads` rejects is kept as it is |
| ExtractProperties.ReparseIsOneLevel | Backend/main.py:273-279 | the re-parse unwraps one level only; a decoded value that is itself a `raw_output` dict is returned as it is |
| GeminiResponse.ParseFailed | Backend/main.py:126 | the catch-all `{"error": "parse_failed"}` result |
| GeminiResponse.NoTextError | Backend/main.py:112 | the "No text returned" error with the candidate's `finish_reason` |
| GeminiResponse.PartText | Backend/main.py:116-121 | what one part adds: its `.text`, a dict's string `"text"`, a bare string, or nothing; a dict `"text"` that is not a string makes `+=` raise |
| GeminiResponse.CollectText | Backend/main.py:113-121 | the parts' texts appended in loop order, or the failure of the first part that raises |
| GeminiResponse.CollectTextAppend | Backend/main.py:113-121 | collecting two part lists in a row joins their texts, and a failure in either is a failure of the whole |
| GeminiResponse.CollectTextInOrder | Backend/main.py:113-121 | the collected text is the parts' texts concatenated front to back with no separator |
| GeminiResponse.SkippedPartContributesNothing | Backend/main.py:114-121 | a part of an unknown shape, or a dict without `"text"`, leaves the text unchanged |
| GeminiResponse.NoTextPartsCollectEmpty | Backend/main.py:113-121 | when no part carries text, the collected text is "" |
| GeminiResponse.FailureIsFinal | Backend/main.py:117-126 | once a part makes `+=` raise, later parts cannot undo the failure |
| GeminiResponse.GatherText | Backend/main.py:113-121 | the loop returns exactly the collected text, or the failure |
| GeminiResponse.ParseGeminiResponse | Backend/main.py:97-126 | each early error is checked in the source's order; missing content or a bad dict part gives `parse_failed`; otherwise the result is `extract_json` of the collected text |
| Render.IsItem | Backend/main.py:133-138 | an item the f-string can format: a dict with scalar `q` and answer values |
| Render.Renderable | Backend/main.py:131-138 | a dict whose `flashcards` and `mcqs`, where present, are lists of formattable items |
| Render.Show | Backend/main.py:133 | `str()` of a scalar as an f-string interpolates it |
| Render.Entry | Backend/main.py:133 | one formatted entry, `Q{i}: {q}` then the answer line with its `A: ` or `Answer: ` label |
| Render.Enumerate | Backend/main.py:132-137 | the loop body applied to each item with numbers counting up from the start |
| Render.EnumerateAt | Backend/main.py:132-137 | `enumerate` keeps the order: the k-th output comes from the k-th item and the number start + k |
| Render.ListOf | Backend/main.py:131-137 | every item of an accepted payload's list can be formatted |
| Render.AllEntries | Backend/main.py:127-138 | the flashcard entries followed by the MCQ entries |
| Render.AllEntriesLayout | Backend/main.py:127-140 | the entries are one per flashcard, then one per MCQ, each in input order and each list numbered from 1 |
| Render.BothLoopsLayout | Backend/main.py:131-137 | the two loops lay out any two item lists in that order and with that numbering |
| Render.ErrorObjectRendersNothing | Backend/main.py:127-140 | an error dict has neither list and renders as no entries |
| Render.SingleFlashcardScenario | Backend/main.py:132-133 | one flashcard `{"q": "2+2?", "a": "4"}` renders as "Q1: 2+2?\nA: 4\n" |
| Render.AppendEntries | Backend/main.py:132-137 | one loop appends each item's entry, numbered from 1, after the entries already in `final` |
| Render.ConvertToEnglish | Backend/main.py:127-140 | the text is the entries of `AllEntries` joined with "\n", and "" for a payload with neither list |

## Left out

- FastAPI routes, the Gemini client, Firestore, Cloud Storage, PDF reading and logging are not modelled. They are I/O around the core.
- The internals of `json.loads` and `json5.loads` are not modelled. They are the `strict` and `lenient` parameters, and a missing `json5` package is a `lenient` that always fails.
- JSON numbers are integers only. Floating point is not modelled.
- GeminiResponse.ParseFailed: the `"traceback"` key is dropped, so the model's error dict has the single key `"error"` where the source's has `"error"` and `"traceback"`. The traceback text depends on the interpreter's stack.
- The Python truthiness of an arbitrary response object is not modelled. A missing response is `None`, and a present one counts as truthy.
- A part's `.text` attribute is assumed to hold a string. An object part whose `.text` is not a string, for which `+=` raises and the source returns `parse_failed`, is not modelled.
- Python strings may hold lone surrogates, for example a `q` value decoded by `json.loads('"\\ud800"')`. Dafny's `char` cannot hold one, so such strings are not modelled.
- Render.ConvertToEnglish: its precondition accepts only dict payloads whose `flashcards` and `mcqs`, where present, are lists of formattable items. It therefore leaves out:
  - inputs that make the source raise;
  - payloads whose `q` or answer values are lists or dicts, because `str()` of those is not modelled;
  - non-dict payloads, such as a list or a string, which the source renders as "" when neither key is found in them;
  - `flashcards` or `mcqs` values that are "" or `{}`, for which `enumerate` yields nothing and the source renders no entries.
- Render.Entry: gives "" for an item the f-string cannot format. `Renderable` keeps such items out of every accepted payload, so that value never reaches a result.
- The route-local parts loop at `Backend/main.py:263-267` reads only `.text` attributes. It is a simplified copy of `GatherText` and is not modelled separately.
