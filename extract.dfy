/** `extract_json` (Backend/main.py): fence stripping, the greedy brace span,
    the strict / lenient / raw_output tiers, and the one-level `raw_output`
    re-parse that two routes apply to its result. */
module Extract {
  import opened JsonValue
  import opened Text

  /** The three `replace` calls and the `strip` that clean the model's text. */
  function Clean(text: string): (r: string)
    ensures '`' !in r
    ensures forall c :: c in r ==> c in text
    ensures r != [] ==> !IsSpace(r[0]) && !IsSpace(r[|r| - 1])
  {
    var noTaggedFence := ReplaceAll(text, "```json", "");
    var noFence := ReplaceAll(noTaggedFence, "```", "");
    var noBacktick := ReplaceAll(noFence, "`", "");
    Strip(noBacktick)
  }

  /** Position of the first `c` in `s`, or `|s|` when there is none. */
  function FirstIndex(s: string, c: char): (i: nat)
    ensures i <= |s| && c !in s[..i]
    ensures i < |s| ==> s[i] == c
    ensures i == |s| ==> c !in s
  {
    if s == [] then 0
    else if s[0] == c then 0
    else
      var i := FirstIndex(s[1..], c);
      assert s[..i + 1] == [s[0]] + s[1..][..i];
      i + 1
  }

  /** Position of the last `c` in `s`, or -1 when there is none. */
  function LastIndex(s: string, c: char): (j: int)
    ensures -1 <= j < |s| && c !in s[j + 1..]
    ensures 0 <= j ==> s[j] == c
    ensures j == -1 ==> c !in s
  {
    if s == [] then -1
    else if s[|s| - 1] == c then |s| - 1
    else
      var j := LastIndex(s[..|s| - 1], c);
      assert s[j + 1..] == s[..|s| - 1][j + 1..] + [s[|s| - 1]];
      j
  }

  /** The pattern `\{[\s\S]*\}` matches somewhere in `s`: a `{` with a `}`
      after it. */
  predicate HasBraceSpan(s: string)
  {
    exists i, j :: 0 <= i < j < |s| && s[i] == '{' && s[j] == '}'
  }

  /** `re.search(r"\{[\s\S]*\}", s)`: the leftmost match, stretched to the last
      `}` (greedy); the whole text when nothing matches. */
  function Locate(s: string): (r: string)
    ensures !HasBraceSpan(s) ==> r == s
    ensures HasBraceSpan(s) ==>
              var i, j := FirstIndex(s, '{'), LastIndex(s, '}');
              0 <= i < j < |s| && r == s[i..j + 1] &&
              '{' !in s[..i] && '}' !in s[j + 1..] &&
              r[0] == '{' && r[|r| - 1] == '}'
  {
    var i, j := FirstIndex(s, '{'), LastIndex(s, '}');
    assert HasBraceSpan(s) ==> i < j by {
      if HasBraceSpan(s) {
        var a, b :| 0 <= a < b < |s| && s[a] == '{' && s[b] == '}';
        assert i <= a && b <= j;
      }
    }
    if i < j then s[i..j + 1] else s
  }

  /** The text the parsers are handed: the located span of the cleaned text. */
  function Candidate(text: string): string
  {
    Locate(Clean(text))
  }

  /** Empty text yields an empty candidate. */
  lemma EmptyTextHasEmptyCandidate()
    ensures Candidate([]) == []
  {
    assert Clean([]) == [];
  }

  /** The three tiers: the strict value if `json.loads` succeeds, else the
      lenient value if `json5.loads` succeeds, else `{"raw_output": c}`. */
  function TieredParse(c: string, strict: Parser, lenient: Parser): (r: Json)
    ensures strict(c).Some? ==> r == strict(c).value
    ensures strict(c).None? && lenient(c).Some? ==> r == lenient(c).value
    ensures strict(c).None? && lenient(c).None? ==> r == RawOutput(c)
  {
    match strict(c)
    case Some(v) => v
    case None =>
      match lenient(c)
      case Some(v) => v
      case None => RawOutput(c)
  }

  /** `extract_json(text)`, with the two loaders as parameters: empty text
      is returned as an empty `raw_output` before any cleaning. */
  function ExtractJson(text: string, strict: Parser, lenient: Parser): (r: Json)
    ensures text == [] ==> r == RawOutput([])
  {
    if text == [] then RawOutput([])
    else TieredParse(Candidate(text), strict, lenient)
  }

  /** The glue of the upload and flashcard routes: a dict with a
      `raw_output` key has that string strict-parsed once; on failure, or for
      any other value, the value is kept. */
  function ReparseRawOutput(v: Json, strict: Parser): (r: Json)
    ensures !(v.JObj? && HasKey(v.fields, "raw_output")) ==> r == v
    ensures v.JObj? && HasKey(v.fields, "raw_output") && Get(v.fields, "raw_output").JStr? &&
            strict(Get(v.fields, "raw_output").s).Some? ==>
              r == strict(Get(v.fields, "raw_output").s).value
    ensures r != v ==>
              v.JObj? && HasKey(v.fields, "raw_output") &&
              Get(v.fields, "raw_output").JStr? &&
              strict(Get(v.fields, "raw_output").s) == Some(r)
  {
    if v.JObj? && HasKey(v.fields, "raw_output") then
      match Get(v.fields, "raw_output")
      case JStr(inner) =>
        (match strict(inner)
         case Some(w) => w
         case None => v)
      case _ => v
    else v
  }
}
