/** `textract_handler`: read `source_type` and `file_content` from the parsed
    request body, obtain the document bytes (fetched from a URL or decoded
    from base64), send them to the OCR service, clean the text of its LINE
    blocks and answer with the list of cleaned lines. Client mistakes answer
    400; every exception raised on the way answers 500.

    The outside world enters as values: the outcome of `json.loads` on the
    event body is a parameter, and the URL fetch, the base64 decoder and the
    OCR call are the fields of a `Services` value. */
module Handler {
  import opened Wrappers
  import opened Strings
  import opened Cleaner
  import opened Textract

  newtype byte = x: int | 0 <= x < 256

  /** A decoded JSON value. `JNumber` holds the value the parser produced,
      whether Python made it an `int` or a `float`; `0` and `0.0` are both
      false. */
  datatype Json =
    | JNull
    | JBool(b: bool)
    | JNumber(n: real)
    | JString(s: string)
    | JArray(items: seq<Json>)
    | JObject(fields: map<string, Json>)

  /** Python truthiness, as used by `if not source_type`. */
  predicate Truthy(v: Json) {
    match v
    case JNull => false
    case JBool(b) => b
    case JNumber(n) => n != 0.0
    case JString(s) => s != ""
    case JArray(items) => items != []
    case JObject(fields) => fields != map[]
  }

  /** The parsed request body, or the message of the exception raised while
      reading or parsing it. */
  type Request = Result<map<string, Json>, string>

  /** The external calls, as functions of their arguments:
      `fetch_file_from_url` (None when the request failed or answered an error
      status), `base64.b64decode` (failing with the decoder's message) and
      `detect_document_text` (failing with the service's message). */
  datatype Services = Services(
    fetch: Json -> Option<seq<byte>>,
    decode: Json -> Result<seq<byte>, string>,
    detect: seq<byte> -> Result<OcrReply, string>)

  type Headers = map<string, string>

  /** The headers of a successful answer: any origin, `Content-Type`, and the
      three allowed methods. */
  const CorsHeaders: Headers := map[
    "Access-Control-Allow-Origin" := "*",
    "Access-Control-Allow-Headers" := "Content-Type",
    "Access-Control-Allow-Methods" := "OPTIONS,POST,GET"]

  /** The JSON body of an answer: the list of cleaned lines, or `{"error": ...}`. */
  datatype Body = Lines(lines: seq<string>) | Error(message: string)

  datatype Response = Response(statusCode: int, headers: Option<Headers>, body: Body)

  const MissingSourceType: string := "Missing or invalid 'source_type' in the request."
  const UnreachableUrl: string := "Unable to fetch content from the provided URL."
  const InvalidSourceType: string := "Invalid source_type"
  const ProcessingFailed: string := "Failed to process the document: "

  /** `str(e)`: a `KeyError` prints its key in single quotes. */
  function FaultText(f: Fault): string {
    match f
    case MissingKey(key) => "'" + key + "'"
    case Raised(detail) => detail
  }

  function BadRequest(message: string): Response {
    Response(400, None, Error(message))
  }

  function ServerError(f: Fault): Response {
    Response(500, None, Error(ProcessingFailed + FaultText(f)))
  }

  /** The field `key` of the request body, when the body parsed and has it. */
  function Field(request: Request, key: string): Option<Json> {
    if request.Success? && key in request.value then Some(request.value[key]) else None
  }

  /** The successful answer for the texts of the LINE blocks: the texts are
      joined, cleaned, and split again, so the client receives the cleaned
      lines of the joined text, or one empty line when none survived. */
  function TextResponse(texts: seq<string>): (r: Response)
    ensures r.statusCode == 200 && r.headers == Some(CorsHeaders)
    ensures r.body == Lines(OrBlank(CleanLines(Split(Join(texts)))))
    ensures |r.body.lines| >= 1 && forall k :: 0 <= k < |r.body.lines| ==> Newline !in r.body.lines[k]
  {
    Response(200, Some(CorsHeaders), Lines(Split(Clean(Join(texts)))))
  }

  /** The OCR reply can be turned into lines: the call succeeded, the reply
      has its block list, and every block is readable. */
  predicate Recognised(reply: Result<OcrReply, string>) {
    && reply.Success?
    && reply.value.blocks.Some?
    && forall i :: 0 <= i < |reply.value.blocks.value| ==> Readable(reply.value.blocks.value[i])
  }

  /** Lines 61-81 of the handler: the OCR call, the LINE loop, cleaning, and
      the 200 answer. Any exception on the way is returned as the failure. */
  function ExtractText(document: seq<byte>, svc: Services): (r: Result<Response, Fault>)
    ensures r.Success? <==> Recognised(svc.detect(document))
    ensures r.Success? ==>
      r.value == TextResponse(LineTexts(svc.detect(document).value.blocks.value).value)
    ensures svc.detect(document).Failure? ==> r == Failure(Raised(svc.detect(document).error))
    ensures svc.detect(document) == Success(OcrReply(None)) ==> r == Failure(MissingKey("Blocks"))
    ensures svc.detect(document).Success? && svc.detect(document).value.blocks.Some?
              && LineTexts(svc.detect(document).value.blocks.value).Failure? ==>
              r == Failure(LineTexts(svc.detect(document).value.blocks.value).error)
  {
    match svc.detect(document)
    case Failure(detail) => Failure(Raised(detail))
    case Success(reply) =>
      match reply.blocks
      case None => Failure(MissingKey("Blocks"))
      case Some(blocks) =>
        match LineTexts(blocks)
        case Failure(f) => Failure(f)
        case Success(texts) => Success(TextResponse(texts))
  }

  /** The body of the `try` block: a response it returns, or the exception it
      raises. A returned response is either a success carrying the CORS
      headers and lines, or a header-less 400 with one of the client messages. */
  function Process(request: Request, svc: Services): (r: Result<Response, Fault>)
    ensures r.Success? ==> r.value.statusCode == 200 || r.value.statusCode == 400
    ensures r.Success? && r.value.statusCode == 200 ==>
      && r.value.headers == Some(CorsHeaders)
      && r.value.body.Lines?
      && |r.value.body.lines| >= 1
      && forall k :: 0 <= k < |r.value.body.lines| ==> Newline !in r.value.body.lines[k]
    ensures r.Success? && r.value.statusCode == 400 ==>
      && r.value.headers == None
      && r.value.body.Error?
      && r.value.body.message in {MissingSourceType, UnreachableUrl, InvalidSourceType}
    ensures request.Failure? ==> r == Failure(Raised(request.error))
    ensures NoSourceType(request) ==> r == Failure(MissingKey("source_type"))
    ensures FalseSourceType(request) ==> r == Success(BadRequest(MissingSourceType))
    ensures NoFileContent(request) ==> r == Failure(MissingKey("file_content"))
    ensures UnreachableDocument(request, svc) ==> r == Success(BadRequest(UnreachableUrl))
    ensures UnknownSourceType(request) ==> r == Success(BadRequest(InvalidSourceType))
    ensures UndecodableUpload(request, svc) ==>
      r == Failure(Raised(svc.decode(Field(request, "file_content").value).error))
    ensures Document(request, svc).Some? ==> r == ExtractText(Document(request, svc).value, svc)
  {
    match request
    case Failure(detail) => Failure(Raised(detail))
    case Success(body) =>
      if "source_type" !in body then Failure(MissingKey("source_type"))
      else
        var sourceType := body["source_type"];
        if !Truthy(sourceType) then Success(BadRequest(MissingSourceType))
        else if "file_content" !in body then Failure(MissingKey("file_content"))
        else
          var data := body["file_content"];
          if sourceType == JString("url") then
            match svc.fetch(data)
            case None => Success(BadRequest(UnreachableUrl))
            case Some(document) => ExtractText(document, svc)
          else if sourceType == JString("upload") then
            match svc.decode(data)
            case Failure(detail) => Failure(Raised(detail))
            case Success(document) => ExtractText(document, svc)
          else Success(BadRequest(InvalidSourceType))
  }

  /** The `except` clause: an exception becomes a 500 answer. */
  function Settle(outcome: Result<Response, Fault>): Response {
    match outcome
    case Success(response) => response
    case Failure(f) => ServerError(f)
  }

  /** The document bytes the request leads to, if it leads to any: fetched for
      `"url"`, decoded for `"upload"`. */
  function Document(request: Request, svc: Services): Option<seq<byte>> {
    match (Field(request, "source_type"), Field(request, "file_content"))
    case (Some(JString("url")), Some(data)) => svc.fetch(data)
    case (Some(JString("upload")), Some(data)) =>
      if svc.decode(data).Success? then Some(svc.decode(data).value) else None
    case _ => None
  }

  /** The conditions under which the handler's branches are taken. */
  predicate NoSourceType(request: Request) {
    request.Success? && "source_type" !in request.value
  }

  predicate FalseSourceType(request: Request) {
    Field(request, "source_type").Some? && !Truthy(Field(request, "source_type").value)
  }

  predicate NoFileContent(request: Request) {
    && Field(request, "source_type").Some?
    && Truthy(Field(request, "source_type").value)
    && Field(request, "file_content").None?
  }

  predicate UnreachableDocument(request: Request, svc: Services) {
    && Field(request, "source_type") == Some(JString("url"))
    && Field(request, "file_content").Some?
    && svc.fetch(Field(request, "file_content").value).None?
  }

  predicate UnknownSourceType(request: Request) {
    && Field(request, "source_type").Some?
    && Truthy(Field(request, "source_type").value)
    && Field(request, "source_type") != Some(JString("url"))
    && Field(request, "source_type") != Some(JString("upload"))
    && Field(request, "file_content").Some?
  }

  predicate UndecodableUpload(request: Request, svc: Services) {
    && Field(request, "source_type") == Some(JString("upload"))
    && Field(request, "file_content").Some?
    && svc.decode(Field(request, "file_content").value).Failure?
  }

  /** The handler answers 200, 400 or 500 and nothing else. A 200 answer, and
      only it, carries the CORS headers and a non-empty list of newline-free
      lines; every other answer is an error message without headers: one of
      the three client messages for 400, a processing failure for 500. Each
      branch of the source-type decision gives the answer stated below. */
  function TextractHandler(request: Request, svc: Services): (r: Response)
    ensures r.statusCode == 200 || r.statusCode == 400 || r.statusCode == 500
    ensures r.statusCode == 200 <==> r.headers == Some(CorsHeaders)
    ensures r.statusCode != 200 ==> r.headers == None && r.body.Error?
    ensures r.statusCode == 200 ==>
      && r.body.Lines?
      && |r.body.lines| >= 1
      && forall k :: 0 <= k < |r.body.lines| ==> Newline !in r.body.lines[k]
    ensures r.statusCode == 400 ==>
      r.body.Error? && r.body.message in {MissingSourceType, UnreachableUrl, InvalidSourceType}
    ensures r.statusCode == 500 ==> r.body.Error? && ProcessingFailed <= r.body.message
    ensures request.Failure? ==> r == ServerError(Raised(request.error))
    ensures NoSourceType(request) ==> r == ServerError(MissingKey("source_type"))
    ensures FalseSourceType(request) ==> r == BadRequest(MissingSourceType)
    ensures NoFileContent(request) ==> r == ServerError(MissingKey("file_content"))
    ensures UnreachableDocument(request, svc) ==> r == BadRequest(UnreachableUrl)
    ensures UnknownSourceType(request) ==> r == BadRequest(InvalidSourceType)
    ensures UndecodableUpload(request, svc) ==>
      r == ServerError(Raised(svc.decode(Field(request, "file_content").value).error))
    ensures Document(request, svc).Some? ==> r == Settle(ExtractText(Document(request, svc).value, svc))
  {
    Settle(Process(request, svc))
  }

  /** When no block text holds a newline (the service returns one line per
      LINE block), the join and split around the cleaner cancel out: the
      client receives exactly the cleaned texts, or one empty line when every
      text was filtered away. */
  lemma {:induction false} TextResponseOfLines(texts: seq<string>)
    requires forall k :: 0 <= k < |texts| ==> Newline !in texts[k]
    ensures TextResponse(texts).body == Lines(OrBlank(CleanLines(texts)))
    ensures CleanLines(texts) == [] ==> TextResponse(texts).body == Lines([""])
  {
    if |texts| == 0 {
      SplitJoinEmpty();
      CleanOne("");
    } else {
      SplitJoin(texts);
    }
  }

  /** A worked document: of the lines "Hi", "http://x.com" and
      "Confidential report" only the last is answered, the first being too
      short and the second a URL. */
  lemma ShortAndUrlLinesDropped(texts: seq<string>)
    requires texts == ["Hi", "http://x.com", "Confidential report"]
    ensures TextResponse(texts).body == Lines(["Confidential report"])
  {
    ShortAndUrlLinesCleaned(texts[0], texts[1], texts[2]);
    assert texts == [texts[0], texts[1], texts[2]];
    assert forall k :: 0 <= k < |texts| ==> Newline !in texts[k];
    TextResponseOfLines(texts);
  }

  lemma ShortAndUrlLinesCleaned(hi: string, url: string, report: string)
    requires hi == "Hi" && url == "http://x.com" && report == "Confidential report"
    ensures CleanLines([hi, url, report]) == [report]
  {
    ShortLineDropped(hi);
    BareUrlDropped(url);
    CleanOne(url);
    ReportLineKept(report);
    OnlyLastKept(hi, url, report);
  }

  lemma ShortLineDropped(hi: string)
    requires hi == "Hi"
    ensures CleanLines([hi]) == []
  {
    assert !Keep(hi);
    CleanOne(hi);
  }

  lemma ReportLineKept(report: string)
    requires report == "Confidential report"
    ensures CleanLines([report]) == [report]
  {
    assert report[0] == 'C';
    NotUrlLine(report);
    assert report[|report| - 1] == 't';
    StripFixed(report);
    CleanOne(report);
  }

  /** Of three lines where cleaning drops the first two and keeps the last
      unchanged, the cleaner answers just the last. */
  lemma OnlyLastKept(a: string, b: string, c: string)
    requires CleanLines([a]) == [] && CleanLines([b]) == [] && CleanLines([c]) == [c]
    ensures CleanLines([a, b, c]) == [c]
  {
    assert [a] + [b] == [a, b];
    assert [a, b] + [c] == [a, b, c];
    CleanLinesAppend([a], [b]);
    CleanLinesAppend([a, b], [c]);
  }

  /** End to end: once the document is obtained and the OCR reply is readable,
      the handler answers 200 with the cleaned texts of the LINE blocks. */
  lemma {:induction false} AnswersCleanedLineTexts(request: Request, svc: Services, blocks: seq<Block>)
    requires Document(request, svc).Some?
    requires svc.detect(Document(request, svc).value) == Success(OcrReply(Some(blocks)))
    requires forall i :: 0 <= i < |blocks| ==> Readable(blocks[i])
    requires forall i :: 0 <= i < |blocks| ==> blocks[i].text.Some? ==> Newline !in blocks[i].text.value
    ensures TextractHandler(request, svc) ==
      Response(200, Some(CorsHeaders), Lines(OrBlank(CleanLines(LineTexts(blocks).value))))
  {
    var document := Document(request, svc).value;
    var texts := LineTexts(blocks).value;
    assert ExtractText(document, svc) == Success(TextResponse(texts));
    assert TextractHandler(request, svc) == TextResponse(texts);
    LineTextsAvoid(blocks, Newline);
    TextResponseOfLines(texts);
  }

  /** A reply without its `Blocks` entry makes the lookup raise `KeyError`,
      which the handler answers with a 500. */
  lemma MissingBlocksFails(request: Request, svc: Services)
    requires Document(request, svc).Some?
    requires svc.detect(Document(request, svc).value) == Success(OcrReply(None))
    ensures TextractHandler(request, svc) == ServerError(MissingKey("Blocks"))
  {
  }

  /** A reply holding an unreadable block is answered with a 500 carrying the
      `KeyError` of the first such block: `'BlockType'` when it has no type,
      `'Text'` when it is a LINE block without text. */
  lemma UnreadableBlockFails(request: Request, svc: Services, blocks: seq<Block>)
    requires Document(request, svc).Some?
    requires svc.detect(Document(request, svc).value) == Success(OcrReply(Some(blocks)))
    requires exists j :: 0 <= j < |blocks| && !Readable(blocks[j])
    ensures exists i :: FirstUnreadable(blocks, i) && TextractHandler(request, svc) == ServerError(BlockFault(blocks[i]))
  {
    LineTextsFirstFault(blocks);
    var i :| FirstUnreadable(blocks, i) && LineTexts(blocks).error == BlockFault(blocks[i]);
    assert TextractHandler(request, svc) == ServerError(BlockFault(blocks[i]));
  }

  /** The three CORS headers of the success answer. */
  lemma CorsHeadersListed()
    ensures CorsHeaders.Keys == {"Access-Control-Allow-Origin", "Access-Control-Allow-Headers", "Access-Control-Allow-Methods"}
    ensures CorsHeaders["Access-Control-Allow-Origin"] == "*"
    ensures CorsHeaders["Access-Control-Allow-Headers"] == "Content-Type"
    ensures CorsHeaders["Access-Control-Allow-Methods"] == "OPTIONS,POST,GET"
  {
  }

  /** The handler answers 200 exactly when the request leads to a document and
      the OCR reply for it is readable. */
  lemma SucceedsExactly(request: Request, svc: Services)
    ensures TextractHandler(request, svc).statusCode == 200 <==>
      Document(request, svc).Some? && Recognised(svc.detect(Document(request, svc).value))
  {
  }

  /** The handler answers 400 exactly when `source_type` is present but false,
      or the URL cannot be fetched, or `source_type` is neither `"url"` nor
      `"upload"` while `file_content` is present. */
  lemma RefusesExactly(request: Request, svc: Services)
    ensures TextractHandler(request, svc).statusCode == 400 <==>
      FalseSourceType(request) || UnreachableDocument(request, svc) || UnknownSourceType(request)
  {
  }
}
