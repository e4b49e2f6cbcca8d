/** What `extract_json` guarantees for all inputs and all loaders. */
module ExtractProperties {
  import opened JsonValue
  import opened Text
  import opened Extract

  /** `strip` leaves a string that is already stripped alone. */
  lemma StripKeepsStripped(s: string)
    requires s != [] ==> !IsSpace(s[0]) && !IsSpace(s[|s| - 1])
    ensures Strip(s) == s
  {
    var t := TrimStart(s);
    var r := TrimEnd(t);
  }

  /** A `replace` whose pattern starts with a character absent from the
      front `x` leaves `x` as it is and works on the rest. */
  lemma {:induction false} ReplaceSkipsPrefix(x: string, y: string, pat: string, rep: string)
    requires pat != [] && pat[0] !in x
    ensures ReplaceAll(x + y, pat, rep) == x + ReplaceAll(y, pat, rep)
  {
    if x != [] {
      var s := x + y;
      assert s[0] == x[0] && s[1..] == x[1..] + y;
      assert !(pat <= s) by { assert pat[0] != s[0]; }
      assert ReplaceAll(s, pat, rep) == [x[0]] + ReplaceAll(x[1..] + y, pat, rep);
      assert pat[0] !in x[1..] by { assert forall c :: c in x[1..] ==> c in x; }
      ReplaceSkipsPrefix(x[1..], y, pat, rep);
      calc {
        ReplaceAll(s, pat, rep);
        [x[0]] + (x[1..] + ReplaceAll(y, pat, rep));
        ([x[0]] + x[1..]) + ReplaceAll(y, pat, rep);
        { assert [x[0]] + x[1..] == x; }
        x + ReplaceAll(y, pat, rep);
      }
    } else {
      assert x + y == y;
    }
  }

  /** Cleaning is idempotent: a second pass over cleaned text changes
      nothing. */
  lemma CleanIdempotent(text: string)
    ensures Clean(Clean(text)) == Clean(text)
  {
    var c := Clean(text);
    assert ReplaceAll(c, "```json", "") == c;
    assert ReplaceAll(c, "```", "") == c;
    assert ReplaceAll(c, "`", "") == c;
    StripKeepsStripped(c);
  }

  /** The cleaning in full: after the "```json" tags are gone, every
      backtick is removed, every other character is kept in order, and the
      result is stripped. */
  lemma CleanDropsEveryBacktick(text: string)
    ensures Clean(text) == Strip(DropChar(ReplaceAll(text, "```json", ""), '`'))
  {
    var tagless := ReplaceAll(text, "```json", "");
    var fenceless := ReplaceAll(tagless, "```", "");
    assert "`" == ['`'];
    ReplaceCharIsDrop(fenceless, '`');
    FencesThenBackticks(tagless);
  }

  /** Input made only of whitespace and backticks (the empty string
      included) ends as `{"raw_output": ""}`, given that both loaders reject
      the empty string as `json.loads` and `json5.loads` do. */
  lemma BlankInputGivesEmptyRawOutput(text: string, strict: Parser, lenient: Parser)
    requires forall k :: 0 <= k < |text| ==> IsSpace(text[k]) || text[k] == '`'
    requires strict([]) == None && lenient([]) == None
    ensures ExtractJson(text, strict, lenient) == RawOutput([])
  {
    if text != [] {
      CleanOfBlankIsEmpty(text);
      EmptyCandidateFallsBack(text, strict, lenient);
    }
  }

  lemma EmptyCandidateFallsBack(text: string, strict: Parser, lenient: Parser)
    requires Clean(text) == []
    requires strict([]) == None && lenient([]) == None
    ensures ExtractJson(text, strict, lenient) == RawOutput([])
  {
    assert Locate([]) == [];
  }

  lemma CleanOfBlankIsEmpty(text: string)
    requires forall k :: 0 <= k < |text| ==> IsSpace(text[k]) || text[k] == '`'
    ensures Clean(text) == []
  {
    var fenceless := ReplaceAll(ReplaceAll(text, "```json", ""), "```", "");
    var bare := ReplaceAll(fenceless, "`", "");
    assert forall k :: 0 <= k < |bare| ==> bare[k] in fenceless;
    assert AllSpace(bare);
    StripOfAllSpace(bare);
  }

  lemma StripOfAllSpace(s: string)
    requires AllSpace(s)
    ensures Strip(s) == []
  {
  }

  /** The greedy span of text whose only `{` before the object and only `}`
      after it are the object's own is exactly the object. */
  lemma LocateFindsEnclosedObject(pre: string, obj: string, post: string)
    requires |obj| >= 2 && obj[0] == '{' && obj[|obj| - 1] == '}'
    requires '{' !in pre && '}' !in post
    ensures Locate(pre + obj + post) == obj
  {
    var s := pre + obj + post;
    var i, j := |pre|, |pre| + |obj| - 1;
    assert s[i] == '{' && s[j] == '}';
    assert HasBraceSpan(s);
    var fi, lj := FirstIndex(s, '{'), LastIndex(s, '}');
    assert s[i..j + 1] == obj;
  }

  /** A tagged fence around a backtick-free body: the candidate is the
      stripped body, when that is an object. */
  lemma FencedObjectCandidate(body: string)
    requires '`' !in body
    requires var b := Strip(body); |b| >= 2 && b[0] == '{' && b[|b| - 1] == '}'
    ensures Candidate("```json" + body + "```") == Strip(body)
  {
    var b := Strip(body);
    LocateOfObject(b);
    CleanOfFencedBody(body);
  }

  /** Cleaning a fenced backtick-free body leaves the stripped body. */
  lemma CleanOfFencedBody(body: string)
    requires '`' !in body
    ensures Clean("```json" + body + "```") == Strip(body)
  {
    TaggedFenceDropped(body);
    ClosingFenceDropped(body);
    assert ReplaceAll(body, "`", "") == body;
  }

  /** Text that is one object from end to end is its own span. */
  lemma LocateOfObject(obj: string)
    requires |obj| >= 2 && obj[0] == '{' && obj[|obj| - 1] == '}'
    ensures Locate(obj) == obj
  {
    LocateFindsEnclosedObject([], obj, []);
    assert [] + obj + [] == obj;
  }

  /** The first `replace` removes the opening "```json" tag. */
  lemma TaggedFenceDropped(body: string)
    requires '`' !in body
    ensures ReplaceAll("```json" + body + "```", "```json", "") == body + "```"
  {
    var text := "```json" + body + "```";
    assert "```json" <= text;
    assert text[|"```json"|..] == body + "```";
    ReplaceSkipsPrefix(body, "```", "```json", "");
    assert ReplaceAll("```", "```json", "") == "```";
  }

  /** The second `replace` removes the closing fence. */
  lemma ClosingFenceDropped(body: string)
    requires '`' !in body
    ensures ReplaceAll(body + "```", "```", "") == body
  {
    ReplaceSkipsPrefix(body, "```", "```", "");
    assert ReplaceAll("```", "```", "") == [];
    assert body + [] == body;
  }

  /** Scenario: a fenced, tagged JSON object that `json.loads` accepts comes
      back as the decoded value. */
  lemma FencedObjectParsesStrictly(body: string, strict: Parser, lenient: Parser, v: Json)
    requires '`' !in body
    requires var b := Strip(body); |b| >= 2 && b[0] == '{' && b[|b| - 1] == '}'
    requires strict(Strip(body)) == Some(v)
    ensures ExtractJson("```json" + body + "```", strict, lenient) == v
  {
    FencedObjectCandidate(body);
  }

  /** Prose around the object is cut away: the candidate of backtick-free
      text `pre + obj + post` is `obj` when `pre` holds no `{` and `post`
      no `}`. */
  lemma ProseAroundObjectIsDropped(pre: string, obj: string, post: string)
    requires |obj| >= 2 && obj[0] == '{' && obj[|obj| - 1] == '}'
    requires '{' !in pre && '}' !in post
    requires '`' !in pre + obj + post
    ensures Candidate(pre + obj + post) == obj
  {
    var text := pre + obj + post;
    CleanOfBacktickFree(text);
    StrippedProseKeepsObject(pre, obj, post);
  }

  /** Stripping the text cannot cut into the object, whose ends are braces. */
  lemma StrippedProseKeepsObject(pre: string, obj: string, post: string)
    requires |obj| >= 2 && obj[0] == '{' && obj[|obj| - 1] == '}'
    requires '{' !in pre && '}' !in post
    ensures Locate(Strip(pre + obj + post)) == obj
  {
    var p', q' := TrimStart(pre), TrimEnd(post);
    StripAcrossObject(pre, obj, post);
    assert '{' !in p' by { assert forall ch :: ch in p' ==> ch in pre; }
    assert '}' !in q' by { assert forall ch :: ch in q' ==> ch in post; }
    LocateFindsEnclosedObject(p', obj, q');
  }

  /** `strip` of `pre + obj + post`, where `obj` starts and ends with
      non-blank characters, strips only `pre`'s front and `post`'s back. */
  lemma StripAcrossObject(pre: string, obj: string, post: string)
    requires obj != [] && !IsSpace(obj[0]) && !IsSpace(obj[|obj| - 1])
    ensures Strip(pre + obj + post) == TrimStart(pre) + obj + TrimEnd(post)
  {
    LstripAcrossObject(pre, obj, post);
    RstripAcrossObject(TrimStart(pre), obj, post);
  }

  /** `lstrip` never passes the non-blank first character of `obj`. */
  lemma {:induction false} LstripAcrossObject(pre: string, obj: string, post: string)
    requires obj != [] && !IsSpace(obj[0])
    ensures TrimStart(pre + obj + post) == TrimStart(pre) + obj + post
  {
    if pre == [] {
      assert pre + obj + post == obj + post;
    } else if IsSpace(pre[0]) {
      assert (pre + obj + post)[1..] == pre[1..] + obj + post;
      LstripAcrossObject(pre[1..], obj, post);
    }
  }

  /** `rstrip` never passes the non-blank last character of `obj`. */
  lemma {:induction false} RstripAcrossObject(pre: string, obj: string, post: string)
    requires obj != [] && !IsSpace(obj[|obj| - 1])
    ensures TrimEnd(pre + obj + post) == pre + obj + TrimEnd(post)
  {
    if post == [] {
      assert pre + obj + post == pre + obj;
    } else if IsSpace(post[|post| - 1]) {
      var s := pre + obj + post;
      assert s[..|s| - 1] == pre + obj + post[..|post| - 1];
      RstripAcrossObject(pre, obj, post[..|post| - 1]);
    }
  }

  /** Text without backticks is only stripped by the cleaning step. */
  lemma CleanOfBacktickFree(text: string)
    requires '`' !in text
    ensures Clean(text) == Strip(text)
  {
  }

  /** Whatever the loaders do, the result is the located span wrapped as
      `raw_output`, or a value one of the two loaders produced from that span. */
  lemma ExtractJsonComesFromATier(text: string, strict: Parser, lenient: Parser)
    ensures var c, r := Candidate(text), ExtractJson(text, strict, lenient);
            r == RawOutput(c) || strict(c) == Some(r) || lenient(c) == Some(r)
  {
    if text == [] {
      EmptyTextHasEmptyCandidate();
    }
  }

  /** Tier order: once `json.loads` accepts the span, `json5.loads` plays no
      part in the result. */
  lemma LenientIgnoredAfterStrictSuccess(text: string, strict: Parser, lenient1: Parser, lenient2: Parser)
    requires strict(Candidate(text)).Some?
    ensures ExtractJson(text, strict, lenient1) == ExtractJson(text, strict, lenient2)
    ensures text != [] ==> ExtractJson(text, strict, lenient1) == strict(Candidate(text)).value
  {
  }

  /** The routes' re-parse can never unwrap a fallback that `extract_json`
      built itself: its string is the span `json.loads` already rejected. */
  lemma ReparseOfFallbackIsNoop(text: string, strict: Parser, lenient: Parser)
    requires strict(Candidate(text)) == None && lenient(Candidate(text)) == None
    ensures ReparseRawOutput(ExtractJson(text, strict, lenient), strict) == ExtractJson(text, strict, lenient)
  {
    var c := Candidate(text);
    if text == [] {
      EmptyTextHasEmptyCandidate();
    }
    assert ExtractJson(text, strict, lenient) == RawOutput(c);
    ReparseOfUnparsableRawOutput(c, strict);
  }

  lemma ReparseOfUnparsableRawOutput(c: string, strict: Parser)
    requires strict(c) == None
    ensures ReparseRawOutput(RawOutput(c), strict) == RawOutput(c)
  {
    var fields := RawOutput(c).fields;
    assert HasKey(fields, "raw_output") by { assert fields[0].0 == "raw_output"; }
  }

  /** The re-parse goes one level deep only: a `raw_output` string that
      decodes to another `raw_output` dict is not unwrapped again. */
  lemma ReparseIsOneLevel()
    ensures var strict: Parser := s => if s == "A" then Some(RawOutput("B")) else if s == "B" then Some(JNull) else None;
            ReparseRawOutput(RawOutput("A"), strict) == RawOutput("B") &&
            ReparseRawOutput(RawOutput("B"), strict) == JNull
  {
    var strict: Parser := s => if s == "A" then Some(RawOutput("B")) else if s == "B" then Some(JNull) else None;
    assert HasKey(RawOutput("A").fields, "raw_output") by { assert RawOutput("A").fields[0].0 == "raw_output"; }
    assert HasKey(RawOutput("B").fields, "raw_output") by { assert RawOutput("B").fields[0].0 == "raw_output"; }
  }
}
