/** `parse_gemini_response` (Backend/main.py): walks the model's response,
    concatenates the text of the first candidate's parts and hands it to
    `extract_json`; every failure becomes an error dict. */
module GeminiResponse {
  import opened JsonValue
  import opened Extract

  /** One part of a candidate, by the shape the source probes for. */
  datatype Part =
    | Accessor(text: string)           // an object with a `.text` attribute
    | Mapping(entries: map<string, Json>) // a dict
    | Plain(s: string)                 // a bare `str`
    | Other                            // anything else

  /** `candidate.content`; `parts` is `None` when the attribute is missing or `None`. */
  datatype Content = Content(parts: Option<seq<Part>>)

  /** A candidate; `content` is `None` when it has no `.content` attribute,
      and `finishReason` is `getattr(candidate, "finish_reason", None)`. */
  datatype Candidate = Candidate(content: Option<Content>, finishReason: Json)

  /** The SDK response; `candidates` is `None` when missing or `None`. */
  datatype Response = Response(candidates: Option<seq<Candidate>>)

  const NoResponseMessage := "no response from Gemini"
  const NoCandidatesMessage := "no candidates in Gemini response"
  const NoTextMessage := "No text returned"

  /** The catch-all result; the traceback text is not modelled. */
  function ParseFailed(): Json
  {
    ErrorObject("parse_failed")
  }

  function NoTextError(finishReason: Json): Json
  {
    JObj([("error", JStr(NoTextMessage)), ("finish_reason", finishReason)])
  }

  /** What one part adds to `full_text`: `None` when `+=` raises (a dict whose
      `"text"` is not a string). */
  function PartText(p: Part): Option<string>
  {
    match p
    case Accessor(t) => Some(t)
    case Mapping(m) =>
      if "text" in m then
        (match m["text"]
         case JStr(t) => Some(t)
         case _ => None)
      else Some([])
    case Plain(t) => Some(t)
    case Other => Some([])
  }

  /** The text gathered from `parts` in order, with no separator; `None` when
      some part makes the loop raise. */
  function CollectText(parts: seq<Part>): Option<string>
  {
    if parts == [] then Some([])
    else
      match CollectText(parts[..|parts| - 1])
      case None => None
      case Some(t) =>
        match PartText(parts[|parts| - 1])
        case None => None
        case Some(u) => Some(t + u)
  }

  /** Joins two partial collections: the texts in order, or the failure. */
  function Concat(a: Option<string>, b: Option<string>): Option<string>
  {
    match a
    case None => None
    case Some(x) =>
      match b
      case None => None
      case Some(y) => Some(x + y)
  }

  /** Collecting a concatenation of part lists collects each list in turn
      and joins the texts with no separator. */
  lemma {:induction false} CollectTextAppend(a: seq<Part>, b: seq<Part>)
    ensures CollectText(a + b) == Concat(CollectText(a), CollectText(b))
    decreases |b|
  {
    if b == [] {
      assert a + b == a;
      match CollectText(a)
      case None =>
      case Some(x) => assert x + [] == x;
    } else {
      var n := |b| - 1;
      assert (a + b)[..|a + b| - 1] == a + b[..n];
      assert (a + b)[|a + b| - 1] == b[n];
      CollectTextAppend(a, b[..n]);
      match CollectText(a)
      case None =>
      case Some(x) =>
        match CollectText(b[..n])
        case None =>
        case Some(y) =>
          match PartText(b[n])
          case None =>
          case Some(z) => assert x + y + z == x + (y + z);
    }
  }

  /** The text read from the front, part by part: the order in which the
      source's loop meets the parts. */
  function ConcatFromFront(parts: seq<Part>): Option<string>
  {
    if parts == [] then Some([]) else Concat(PartText(parts[0]), ConcatFromFront(parts[1..]))
  }

  /** The loop's text equals the front-to-back concatenation of the parts'
      texts. */
  lemma {:induction false} CollectTextInOrder(parts: seq<Part>)
    ensures CollectText(parts) == ConcatFromFront(parts)
  {
    if parts != [] {
      CollectTextInOrder(parts[1..]);
      assert parts == [parts[0]] + parts[1..];
      CollectTextAppend([parts[0]], parts[1..]);
      assert [parts[0]][..0] == [];
      assert CollectText([parts[0]]) == Concat(Some([]), PartText(parts[0]));
      match PartText(parts[0])
      case None =>
      case Some(x) => assert [] + x == x;
    }
  }

  /** A part the loop skips (`Other`, or a dict without `"text"`) leaves the
      collected text unchanged. */
  lemma SkippedPartContributesNothing(a: seq<Part>, p: Part, b: seq<Part>)
    requires PartText(p) == Some([])
    ensures CollectText(a + [p] + b) == CollectText(a + b)
  {
    CollectTextAppend(a + [p], b);
    CollectTextAppend(a, b);
    assert (a + [p])[..|a + [p]| - 1] == a;
    match CollectText(a)
    case None =>
    case Some(x) => assert x + [] == x;
  }

  /** When no part carries text, the collected text is empty. */
  lemma {:induction false} NoTextPartsCollectEmpty(parts: seq<Part>)
    requires forall k :: 0 <= k < |parts| ==> PartText(parts[k]) == Some([])
    ensures CollectText(parts) == Some([])
  {
    if parts != [] {
      var front := parts[..|parts| - 1];
      assert forall k :: 0 <= k < |front| ==> front[k] == parts[k];
      NoTextPartsCollectEmpty(front);
      assert PartText(parts[|parts| - 1]) == Some([]);
      assert "" + "" == "";
    }
  }

  /** A part that makes the loop raise ends it: no later part can undo the failure. */
  lemma {:induction false} FailureIsFinal(parts: seq<Part>, n: nat)
    requires n <= |parts| && CollectText(parts[..n]) == None
    ensures CollectText(parts) == None
    decreases |parts| - n
  {
    if n < |parts| {
      assert parts[..n + 1][..n] == parts[..n];
      FailureIsFinal(parts, n + 1);
    } else {
      assert parts[..n] == parts;
    }
  }

  /** The `for p in parts` loop: appends each part's text to `full_text`;
      `None` when an append raises. */
  method GatherText(parts: seq<Part>) returns (fullText: Option<string>)
    ensures fullText == CollectText(parts)
  {
    var text := "";
    var i := 0;
    while i < |parts|
      invariant 0 <= i <= |parts|
      invariant CollectText(parts[..i]) == Some(text)
    {
      assert parts[..i + 1][..i] == parts[..i];
      assert text + [] == text;
      match parts[i] {
        case Accessor(t) =>
          text := text + t;
        case Mapping(m) =>
          if "text" in m {
            match m["text"] {
              case JStr(t) =>
                text := text + t;
              case _ =>
                FailureIsFinal(parts, i + 1);
                return None;
            }
          }
        case Plain(t) =>
          text := text + t;
        case Other =>
      }
      i := i + 1;
    }
    assert parts[..|parts|] == parts;
    return Some(text);
  }

  /** `parse_gemini_response(response)`, with the two loaders as parameters.
      `None` stands for a missing response. */
  method ParseGeminiResponse(response: Option<Response>, strict: Parser, lenient: Parser)
    returns (r: Json)
    ensures response.None? ==> r == ErrorObject(NoResponseMessage)
    ensures response.Some? && (response.value.candidates.None? || response.value.candidates.value == []) ==>
              r == ErrorObject(NoCandidatesMessage)
    ensures response.Some? && response.value.candidates.Some? && response.value.candidates.value != [] ==>
              var candidate := response.value.candidates.value[0];
              match candidate.content
              case None => r == ParseFailed()
              case Some(content) =>
                if content.parts.None? || content.parts.value == [] then
                  r == NoTextError(candidate.finishReason)
                else
                  match CollectText(content.parts.value)
                  case None => r == ParseFailed()
                  case Some(text) => r == ExtractJson(text, strict, lenient)
  {
    if response.None? {
      return ErrorObject(NoResponseMessage);
    }
    var candidates := response.value.candidates;
    if candidates.None? || candidates.value == [] {
      return ErrorObject(NoCandidatesMessage);
    }
    var candidate := candidates.value[0];
    if candidate.content.None? {
      return ParseFailed();
    }
    var parts := candidate.content.value.parts;
    if parts.None? || parts.value == [] {
      return NoTextError(candidate.finishReason);
    }
    var fullText := GatherText(parts.value);
    match fullText {
      case None => r := ParseFailed();
      case Some(text) => r := ExtractJson(text, strict, lenient);
    }
  }
}
