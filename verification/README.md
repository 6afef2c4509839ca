# Document-text extraction handler, modelled in Dafny

This project models the text-extraction path of a serverless request handler
(`handler.py`). The handler reads `source_type` and `file_content` from a
request. It gets the document bytes, either by fetching a URL or by decoding
base64, and sends them to a managed OCR service. It keeps the text of the
reply's `LINE` blocks and cleans that text line by line. It answers 200 with
the list of cleaned lines, 400 for a client mistake, or 500 for any exception.

Modules:

- `Wrappers` (`wrappers.dfy`): `Option` and `Result`.
- `Strings` (`strings.dfy`): Python's argument-less `str.strip()`,
  `str.startswith`, `str.split("\n")` and `"\n".join`, with their round trips.
- `Subsequences` (`subsequences.dfy`): `IndicesWhere`. It names the positions
  an order-preserving filter keeps, so that a filter's output can be stated
  element by element.
- `Cleaner` (`cleaner.dfy`): `clean_extracted_text`. This covers the per-line
  filter `CleanLines`, the text-level `Clean`, and the loop as a method.
- `Textract` (`textract.dfy`): the OCR reply (`Block`, `OcrReply`), the
  handler's exceptions (`Fault`), and the `LINE`-block loop `LineTexts`.
- `Handler` (`handler.dfy`): the request-outcome decision
  `TextractHandler`.

The URL test (handler.py:28) and the length test (handler.py:30) read the
untrimmed line; only the line that survives is stripped (handler.py:31). So
`"  http://x.com"` survives as `"http://x.com"` and is dropped by a second
pass, and a line of five or more blanks survives as `""`: cleaning is not
idempotent. `IndentedUrlSurvivesOnce`, `PaddedShortLineSurvivesOnce` and
`BlankLineKeptEmpty` state these cases. `CleanTwice` states exactly when two
passes agree with one.

`strip()` removes every character for which Python's `str.isspace()` holds.
That is the ASCII controls 9-13 and 28-31, the space, U+0085, U+00A0, U+1680,
U+2000-U+200A, U+2028, U+2029, U+202F, U+205F and U+3000. Strings are
sequences of Unicode scalar values, so `|line|` is Python's `len(line)`.

## Model

| member | source | states |
|---|---|---|
| `Strings.IsSpace` | handler.py:31 | holds exactly for the characters Python's `str.isspace()` accepts, which are the ones `strip()` removes: code points 9-13 and 28-32, U+0085, U+00A0, U+1680, U+2000-U+200A, U+2028, U+2029, U+202F, U+205F, U+3000 |
| `Strings.StartsWith` | handler.py:28 | `s.startswith(p)`: `p` is no longer than `s` and equals its first `len(p)` characters |
| `Strings.TrimStart` | handler.py:31 | the result is the longest suffix not starting with whitespace; everything cut is whitespace |
| `Strings.TrimEnd` | handler.py:31 | the result is the longest prefix not ending with whitespace; everything cut is whitespace |
| `Strings.Strip` | handler.py:31 | `line.strip()`: leading whitespace is cut, then trailing whitespace; `StripCuts` states the slice it returns |
| `Strings.StripCuts` | handler.py:31 | `strip()` returns a contiguous slice of the line, cuts only whitespace on either side, and neither starts nor ends with whitespace |
| `Strings.StripKeepsChars` | handler.py:31 | stripping introduces no character absent from the line (so it never introduces a newline) |
| `Strings.StripIdempotent` | handler.py:31 | stripping a stripped line changes nothing |
| `Strings.StripAllSpace` | handler.py:31 | a line made only of whitespace strips to the empty string |
| `Strings.StripPadded` | handler.py:31 | whitespace padding around a word is removed and the word is returned unchanged |
| `Strings.Split` | handler.py:23 | `split("\n")` gives one more piece than there are newlines (so never an empty list), and no piece contains a newline |
| `Strings.Join` | handler.py:33 | `"\n".join(xs)`: the pieces in order with one newline between neighbours, `""` for no pieces; `JoinSplit` and `SplitJoin` tie it to `Split` |
| `Strings.JoinSplit` | handler.py:23-33 | re-joining the pieces of a split with `"\n"` gives the original text back |
| `Strings.SplitJoin` | handler.py:71-80 | splitting the `"\n"`-join of a non-empty list of newline-free lines gives the list back |
| `Strings.SplitJoinEmpty` | handler.py:80 | joining no lines and splitting again gives `[""]`, not `[]` |
| `Cleaner.IsUrlLine` | handler.py:28 | a line is a URL line when its untrimmed form starts with `http://` or `https://`, case-sensitively |
| `Cleaner.Keep` | handler.py:28-30 | a line survives when it is not a URL line and its untrimmed length is more than 4 |
| `Cleaner.OrBlank` | handler.py:80 | an empty list of cleaned lines reaches the client as `[""]`, since splitting the empty text gives one empty piece; any other list is unchanged |
| `Cleaner.CleanLines` | handler.py:26-31 | the cleaner outputs at most as many lines as it received |
| `Cleaner.CleanLinesSelects` | handler.py:26-31 | output line `k` is the stripped `k`-th input line that is longer than 4 and not a URL, for every such line in input order |
| `Cleaner.CleanLinesSound` | handler.py:26-31 | every output line is `strip(l)` for some input line `l` with `len(l) > 4` that does not start with `http://` or `https://` |
| `Cleaner.CleanLinesComplete` | handler.py:26-31 | every input line passing both tests appears, stripped, in the output |
| `Cleaner.CleanLinesAppend` | handler.py:26-31 | no line is split or merged: cleaning a concatenation is the concatenation of the cleanings |
| `Cleaner.CleanOne` | handler.py:28-31 | a single line is kept in stripped form exactly when it passes both tests on its untrimmed form |
| `Cleaner.CleanLinesNoNewline` | handler.py:23-31 | cleaning newline-free lines gives newline-free lines |
| `Cleaner.DroppedLineShortens` | handler.py:26-31 | if any line fails a test, the output is strictly shorter than the input |
| `Cleaner.CleanLinesFixed` | handler.py:26-31 | cleaning leaves a list unchanged exactly when every line passes both tests and is already stripped |
| `Cleaner.CleanTwice` | handler.py:26-31 | a second pass agrees with the first exactly when every survivor of the first still passes both tests |
| `Cleaner.IndentedUrlSurvivesOnce` | handler.py:28-31 | the URL test reads the untrimmed line: `"  http://x.com"` survives as `"http://x.com"`, which a second pass drops, so the cleaner is not idempotent |
| `Cleaner.PaddedShortLineSurvivesOnce` | handler.py:30-31 | the length test counts padding: `"   ab   "` survives as `"ab"`, which a second pass drops |
| `Cleaner.BlankLineKeptEmpty` | handler.py:30-31 | a line of five or more whitespace characters is kept as the empty line |
| `Cleaner.Clean` | handler.py:22-33 | splitting the cleaned text on newlines gives the cleaned lines of the input, or `[""]` when none survive; the cleaned text never has more lines than the input |
| `Cleaner.CleanExtractedText` | handler.py:22-33 | the line-by-line loop computes the same cleaned text as the functional definition |
| `Textract.Readable` | handler.py:68-70 | the loop reads a block without error when it has a `BlockType` and, if that is `LINE`, a `Text` |
| `Textract.BlockFault` | handler.py:69-70 | an unreadable block raises `KeyError('BlockType')` when it has no type, else `KeyError('Text')` |
| `Textract.IsLine` | handler.py:69 | a block is a LINE block when its `BlockType` is present and equals `"LINE"` |
| `Textract.LineTexts` | handler.py:67-70 | the `LINE` loop succeeds exactly when every block has a `BlockType` and every `LINE` block has a `Text` |
| `Textract.LineTextsSelects` | handler.py:67-70 | on success the result is the `Text` of exactly the `LINE` blocks, in service order; other block types contribute nothing |
| `Textract.LineTextsFirstFault` | handler.py:67-70 | on failure the raised `KeyError` comes from the first unreadable block, and every earlier block was read |
| `Textract.LineTextsAvoid` | handler.py:67-70 | collected texts hold no character that no block text holds |
| `Handler.Truthy` | handler.py:39 | Python's truth value of a parsed JSON value: `null`, `false`, zero, and the empty string, list and object are false; everything else is true |
| `Handler.FaultText` | handler.py:87 | `str(e)`: a `KeyError` prints as its key in single quotes, any other exception as its message |
| `Handler.ServerError` | handler.py:85-88 | the 500 answer: no headers, and the error message `Failed to process the document: ` followed by `str(e)` |
| `Handler.Settle` | handler.py:83-88 | the `except Exception` clause: a returned answer passes through unchanged, a raised exception becomes the 500 answer |
| `Handler.CorsHeadersListed` | handler.py:75-79 | the success answer's headers are exactly `Access-Control-Allow-Origin: *`, `Access-Control-Allow-Headers: Content-Type` and `Access-Control-Allow-Methods: OPTIONS,POST,GET` |
| `Handler.BadRequest` | handler.py:40-59 | the 400 answer: no headers, and the given message as its error |
| `Handler.Document` | handler.py:46-54 | the document bytes a request leads to: the fetch result for `source_type` `"url"`, the decoded bytes for `"upload"` when decoding succeeds, and none for any other request or when `file_content` is absent |
| `Handler.NoSourceType` | handler.py:37-38 | the branch where the body parsed but has no `source_type` |
| `Handler.FalseSourceType` | handler.py:38-43 | the branch where `source_type` is present and false |
| `Handler.NoFileContent` | handler.py:39-44 | the branch where `source_type` is true and `file_content` is absent |
| `Handler.UnreachableDocument` | handler.py:44-52 | the branch where `source_type` is `"url"`, `file_content` is present, and the fetch returns nothing |
| `Handler.UnknownSourceType` | handler.py:44-59 | the branch where `source_type` is true but neither `"url"` nor `"upload"`, and `file_content` is present |
| `Handler.UndecodableUpload` | handler.py:53-54 | the branch where `source_type` is `"upload"`, `file_content` is present, and decoding raises |
| `Handler.TextResponse` | handler.py:71-81 | the success answer is status 200 with the CORS headers, and its body is the cleaned lines of the joined texts, or `[""]` |
| `Handler.TextResponseOfLines` | handler.py:71-80 | for newline-free block texts the body is exactly the cleaned texts, and an all-filtered document is answered `[""]` |
| `Handler.ShortAndUrlLinesDropped` | handler.py:67-81 | the texts `"Hi"`, `"http://x.com"`, `"Confidential report"` are answered `["Confidential report"]` |
| `Handler.Process` | handler.py:38-81 | the `try` body returns only a 200 answer carrying the CORS headers and a non-empty list of newline-free lines, or a header-less 400 with one of the three client messages; each source-type branch returns or raises its fixed outcome, and an obtained document goes to the OCR stage |
| `Handler.ExtractText` | handler.py:61-81 | the OCR stage succeeds exactly when the call succeeds, the reply has `Blocks`, and every block is readable; on success it answers the cleaned `LINE` texts. A failed call raises its message, a reply without `Blocks` raises `KeyError('Blocks')`, and a failing `LINE` loop raises the loop's `KeyError` |
| `Handler.TextractHandler` | handler.py:35-88 | only 200, 400 and 500 occur. Only 200 carries the three CORS headers, and its body is a non-empty list of newline-free lines. A 400 carries one of the three client messages and a 500 a processing-failure message, both without headers. Each source-type and lookup branch gives its fixed answer: a false `source_type` is 400 even without `file_content`; a missing `source_type` or `file_content` is a `KeyError` 500, and an obtained document gets the answer of the OCR stage |
| `Handler.MissingBlocksFails` | handler.py:68-88 | once the document is obtained, a reply without `Blocks` is answered 500 with the `KeyError` text `'Blocks'` |
| `Handler.UnreadableBlockFails` | handler.py:68-88 | once the document is obtained, a reply with an unreadable block is answered 500 with the `KeyError` of the first unreadable block |
| `Handler.AnswersCleanedLineTexts` | handler.py:46-81 | once the document is obtained and the OCR reply is readable, and no block text contains a newline, the answer is 200 with the cleaned `LINE` texts, or `[""]` when none survive |
| `Handler.SucceedsExactly` | handler.py:35-88 | the answer is 200 exactly when the request yields document bytes and the OCR reply for them is readable |
| `Handler.RefusesExactly` | handler.py:38-59 | the answer is 400 exactly when `source_type` is present but false, or the URL fetch fails, or `source_type` is neither `"url"` nor `"upload"` while `file_content` is present |

## Left out

- `fetch_file_from_url` (handler.py:13-20) performs network I/O. It is the `fetch` field of `Services`, a function returning `None` or the bytes. An exception it raises other than `RequestException`, which would become a 500, is not modelled.
- `base64.b64decode` (handler.py:54) is the `decode` field of `Services`, an opaque partial function. Its lenient decoding rules are not re-derived.
- `textract.detect_document_text` (handler.py:61-65) is a foreign service call. It is the `detect` field of `Services`, which yields an `OcrReply` or a failure message. Pagination and block fields other than `BlockType` and `Text` are not modelled.
- `json.loads(event['body'])` (handler.py:37) is the `Request` parameter: the parsed body as a map, or the message of the exception raised. A body that parses to something other than an object counts as that exception.
- `json.dumps` of the answer body is not modelled. The body is the `Body` datatype (a list of lines or an error message), not a JSON string.
- The exception text of non-`KeyError` exceptions is carried as an uninterpreted string. A `KeyError` prints as its quoted key.
- Logging (handler.py:8-9, 19, 84) has no effect on the answer.
- The handler's `context` argument is unused by the source and is not modelled.
- JSON numbers are the reals the parser produced, and `Truthy` judges that parsed value, not the literal. A `NaN` or `Infinity` literal, which Python's parser accepts and treats as true, is not represented. Neither is an overflowing literal such as `1e400`, which parses to `inf` (true). An underflowing literal such as `1e-400` parses to `0.0`, which is false; in the model it is `JNumber(0.0)`.
- Python strings holding lone surrogates are not represented, since a Dafny `char` is a Unicode scalar value.
- test.py is a one-off script that invokes a hosted model endpoint and prints the result; it is pure I/O with no logic.
- handler.py defines only `textract_handler`; the service's other handlers are not modelled.
