/**
 * `renderSearchResults` up to the markdown answer: reference extraction, then citation
 * rewriting when the summary text is truthy. The markdown-to-HTML conversion and the
 * template that consume `{answer, refs}` are not part of this model.
 */
module Render {
  import opened Wrappers
  import opened SearchData
  import opened References
  import opened ArrayIndex
  import opened Citations

  /** The error the callback raises when it reads `refs[...]` while `refs` is undefined. */
  datatype Fault = TypeError

  /** What is handed to the template: `answer` is markdown here, `refs` may be undefined. */
  datatype Rendered = Rendered(answer: Option<string>, refs: Option<seq<Reference>>)

  /** `data.results?.map(...)` */
  function Refs(data: SearchResponse): (refs: Option<seq<Reference>>)
    ensures refs.Some? <==> data.results.Some?
    ensures refs.Some? ==> refs.value == ExtractRefs(data.results.value)
  {
    if data.results.Some? then Some(ExtractRefs(data.results.value)) else None
  }

  /**
   * `replaceFunction` with `refs` possibly undefined: line 37 reads `refs[citationNumber]`,
   * which throws when `refs` is undefined.
   */
  function Callback(d: string, refs: Option<seq<Reference>>): Result<string, Fault>
  {
    if refs.None? then Failure(TypeError) else Success(Replacement(d, refs.value))
  }

  /**
   * `s.replace(regex, replaceFunction)` with a callback that may throw: the callback is called
   * once per match, left to right, and the first exception ends the replace.
   */
  function ReplaceOrThrow(s: string, refs: Option<seq<Reference>>): Result<string, Fault>
    decreases |s|
  {
    if s == [] then Success("")
    else match TokenAt(s)
      case Some(d) =>
        (match Callback(d, refs)
         case Failure(e) => Failure(e)
         case Success(out) =>
           match ReplaceOrThrow(s[|d| + 2..], refs)
           case Failure(e) => Failure(e)
           case Success(tail) => Success(out + tail))
      case None =>
        match ReplaceOrThrow(s[1..], refs)
        case Failure(e) => Failure(e)
        case Success(tail) => Success([s[0]] + tail)
  }

  /**
   * The replace throws exactly when `refs` is undefined and the text holds a match; with
   * `refs` defined it is the citation replace, and with no match the text comes back as it was.
   */
  lemma {:induction false} ReplaceOrThrowOutcome(s: string, refs: Option<seq<Reference>>)
    ensures ReplaceOrThrow(s, refs).Failure? <==> refs.None? && CitationsIn(s) != []
    ensures refs.Some? ==> ReplaceOrThrow(s, refs) == Success(ReplaceCitations(s, refs.value))
    ensures refs.None? && CitationsIn(s) == [] ==> ReplaceOrThrow(s, refs) == Success(s)
    decreases |s|
  {
    if s != [] {
      var segs := Scan(s);
      match TokenAt(s)
      case Some(d) =>
        var rest := s[|d| + 2..];
        assert segs[0] == Citation(d) && segs[1..] == Scan(rest);
        assert CitationsIn(s) == [d] + CitationsIn(rest);
        ReplaceOrThrowOutcome(rest, refs);
      case None =>
        var rest := s[1..];
        assert segs[0] == Char(s[0]) && segs[1..] == Scan(rest);
        assert CitationsIn(s) == CitationsIn(rest);
        ReplaceOrThrowOutcome(rest, refs);
        assert s == [s[0]] + rest;
    }
  }

  /** The rewrite of the summary text, as `renderSearchResults` runs it. */
  function RewriteSummary(text: string, refs: Option<seq<Reference>>): (r: Result<string, Fault>)
    ensures r.Failure? <==> refs.None? && CitationsIn(text) != []
    ensures refs.Some? ==> r == Success(ReplaceCitations(text, refs.value))
    ensures refs.None? && CitationsIn(text) == [] ==> r == Success(text)
  {
    ReplaceOrThrowOutcome(text, refs);
    ReplaceOrThrow(text, refs)
  }

  /** The value `renderSearchResults` passes to the template, or the error it throws. */
  function RenderSearchResults(data: SearchResponse): (r: Result<Rendered, Fault>)
    ensures r.Failure? <==>
      data.results.None? && Truthy(SummaryText(data)) && CitationsIn(SummaryText(data).value) != []
    ensures r.Success? ==> r.value.refs == Refs(data)
    ensures r.Success? ==> (r.value.answer.None? <==> !Truthy(SummaryText(data)))
    ensures r.Success? && r.value.answer.Some? && r.value.refs.Some? ==>
      r.value.answer.value == ReplaceCitations(SummaryText(data).value, r.value.refs.value)
    ensures r.Success? && r.value.answer.Some? && r.value.refs.None? ==>
      r.value.answer == SummaryText(data)
  {
    var refs := Refs(data);
    var text := SummaryText(data);
    if Truthy(text) then
      match RewriteSummary(text.value, refs)
      case Success(markdown) => Success(Rendered(Some(markdown), refs))
      case Failure(e) => Failure(e)
    else Success(Rendered(None, refs))
  }

  /**
   * When there is an answer, it is the summary text itself exactly when none of the
   * summary's citations names a reference with a link.
   */
  lemma AnswerIsSummaryIffNoneResolve(data: SearchResponse)
    requires RenderSearchResults(data).Success? && RenderSearchResults(data).value.answer.Some?
    ensures var out := RenderSearchResults(data).value;
      out.answer == SummaryText(data) <==>
        forall d :: d in CitationsIn(SummaryText(data).value) ==> out.refs.None? || !Resolves(d, out.refs.value)
  {
    var out := RenderSearchResults(data).value;
    if out.refs.Some? {
      UnchangedIffNoneResolve(SummaryText(data).value, out.refs.value);
    }
  }

  /** With results present the renderer never throws, and refs has one entry per result. */
  lemma ResultsPresentNeverThrows(data: SearchResponse)
    requires data.results.Some?
    ensures RenderSearchResults(data).Success?
    ensures var refs := RenderSearchResults(data).value.refs;
      refs.Some? && |refs.value| == |data.results.value|
      && forall i :: 0 <= i < |refs.value| ==> refs.value[i] == ExtractReference(data.results.value[i])
  {
  }

  /** A result whose fields hold only strings under the given keys. */
  function Str(s: string): Value
  {
    Value(Some(s), None, None)
  }

  function Entries(entries: seq<Fields>): Value
  {
    Value(None, Some(ListValue(Some(seq(|entries|, i requires 0 <= i < |entries| => Value(None, None, Some(Struct(Some(entries[i])))))))), None)
  }

  function WithFields(m: Fields): SearchResult
  {
    SearchResult(Some(Document(Some(Struct(Some(m))))))
  }

  /** A result with no title takes its link as title. */
  lemma TitleFallbackExample()
    ensures ExtractReference(WithFields(map["link" := Str("https://x")])).title == Some("https://x")
  {
  }

  /** An extractive answer's content wins over a generic snippet. */
  lemma SnippetPrecedenceExample()
    ensures ExtractReference(WithFields(map[
      "extractive_answers" := Entries([map["content" := Str("A")]]),
      "snippet" := Entries([map["snippet" := Str("B")]])])).snippet == Some("A")
  {
  }

  /** The one result of the end-to-end example: a title, a link and a generic snippet. */
  function DocA(): SearchResult
  {
    WithFields(map["title" := Str("Doc A"), "link" := Str("https://a"),
                   "snippet" := Entries([map["snippet" := Str("s1")]])])
  }

  lemma DocAReference()
    ensures ExtractRefs([DocA()]) == [Reference(Some("Doc A"), Some("https://a"), Some("s1"), None)]
  {
    var m := DerivedFields(DocA()).value;
    assert "extractive_answers" !in m;
    assert FirstEntry(Some(m), "snippet") == Some(map["snippet" := Str("s1")]);
  }

  /**
   * The example's summary text. It is kept behind a function and spelled as a concatenation
   * because the verifier unfolds recursive functions on a string literal without bound.
   */
  function PerText(): string
  {
    "Per " + ("[" + "0" + "]" + ", X is true.")
  }

  lemma DocAAnswer(ref: Reference)
    requires ref.link == Some("https://a")
    ensures ReplaceCitations(PerText(), [ref]) == "Per " + ("[[0]](https://a)" + ", X is true.")
  {
    var before, after := "Per ", ", X is true.";
    assert Replacement("0", [ref]) == "[[0]](https://a)" by {
      assert DecimalValue("0") == 0;
    }
    assert PerText() == before + ("[" + "0" + "]" + after);
    OneCitation(before, "0", after, [ref]);
  }

  /** A summary citing the one reference, which has a link, turns the citation into a link. */
  lemma InRangeCitationExample()
    ensures RenderSearchResults(SearchResponse(Some([DocA()]), Some(Summary(Some(PerText()))))) ==
      Success(Rendered(
        Some("Per " + ("[[0]](https://a)" + ", X is true.")),
        Some([Reference(Some("Doc A"), Some("https://a"), Some("s1"), None)])))
  {
    DocAReference();
    DocAAnswer(Reference(Some("Doc A"), Some("https://a"), Some("s1"), None));
  }

  /** The short example summary, kept behind a function for the same reason as `PerText`. */
  function SeeText(): string
  {
    "See " + ("[" + "0" + "]" + ".")
  }

  /** The short example cites index 0 once. */
  lemma SeeTextCites()
    ensures CitationsIn(SeeText()) == ["0"]
  {
    OneCitationCited("See ", "0", ".");
  }

  /** Citing an index no reference has keeps the literal citation. */
  lemma OutOfRangeCitationExample()
    ensures RenderSearchResults(SearchResponse(Some([]), Some(Summary(Some(SeeText()))))) ==
      Success(Rendered(Some(SeeText()), Some([])))
  {
    OneCitation("See ", "0", ".", []);
  }

  /** Without a summary there is no answer, and the references are still built. */
  lemma NoSummaryExample(results: seq<SearchResult>)
    ensures RenderSearchResults(SearchResponse(Some(results), None)) ==
      Success(Rendered(None, Some(ExtractRefs(results))))
  {
  }

  /** A citation in a response without results is where the renderer throws. */
  lemma MissingResultsThrowExample()
    ensures RenderSearchResults(SearchResponse(None, Some(Summary(Some(SeeText()))))) == Failure(TypeError)
  {
    SeeTextCites();
  }
}
