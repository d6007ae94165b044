/** Step A of rendering: each raw search result becomes a flat reference entry. */
module References {
  import opened Wrappers
  import opened SearchData

  /** What the template sees of one result; an absent field stays absent, never "". */
  datatype Reference = Reference(title: Option<string>, link: Option<string>, snippet: Option<string>, page: Option<string>)

  /** The first extractive answer's fields, or the first snippet entry's fields, of a result's data. */
  function FirstEntry(refData: Option<Fields>, key: string): Option<Fields>
  {
    FirstEntryFields(Prop(refData, key))
  }

  /** The callback of `data.results?.map(r => ...)`. */
  function ExtractReference(r: SearchResult): Reference
  {
    var refData := DerivedFields(r);
    var extract := FirstEntry(refData, "extractive_answers");
    var snippet := FirstEntry(refData, "snippet");
    Reference(
      title := Coalesce(StringValue(Prop(refData, "title")), StringValue(Prop(refData, "link"))),
      link := StringValue(Prop(refData, "link")),
      snippet := Coalesce(StringValue(Prop(extract, "content")), StringValue(Prop(snippet, "snippet"))),
      page := StringValue(Prop(extract, "pageNumber")))
  }

  /** `results.map(...)`: one entry per result, in order, entry i built from result i alone. */
  function ExtractRefs(results: seq<SearchResult>): (refs: seq<Reference>)
    ensures |refs| == |results|
    ensures forall i :: 0 <= i < |results| ==> refs[i] == ExtractReference(results[i])
  {
    if results == [] then [] else [ExtractReference(results[0])] + ExtractRefs(results[1..])
  }

  /** `m?.[key]?.stringValue` for a fields object that is present: the same lookup, stated on `m`. */
  function StringAt(m: Fields, key: string): Option<string>
  {
    StringValue(Prop(Some(m), key))
  }

  /** Mapping distributes over concatenation: a result's entry does not depend on its neighbours. */
  lemma ExtractRefsAppend(a: seq<SearchResult>, b: seq<SearchResult>)
    ensures ExtractRefs(a + b) == ExtractRefs(a) + ExtractRefs(b)
  {
  }

  /**
   * The title is the title string whenever one is present, the empty string included;
   * only a missing title falls back to the link. The link is the link string or absent.
   */
  lemma TitleAndLink(r: SearchResult, m: Fields)
    requires DerivedFields(r) == Some(m)
    ensures ExtractReference(r).link == StringAt(m, "link")
    ensures StringAt(m, "title").Some? ==> ExtractReference(r).title == StringAt(m, "title")
    ensures StringAt(m, "title").None? ==> ExtractReference(r).title == StringAt(m, "link")
  {
  }

  /**
   * The snippet is the first extractive answer's content when present, otherwise the
   * first snippet entry's text; the page comes from the first extractive answer alone.
   */
  lemma SnippetAndPage(r: SearchResult, m: Fields)
    requires DerivedFields(r) == Some(m)
    ensures var ex := FirstEntry(Some(m), "extractive_answers");
      ex.Some? && StringAt(ex.value, "content").Some? ==>
        ExtractReference(r).snippet == StringAt(ex.value, "content")
    ensures var ex, sn := FirstEntry(Some(m), "extractive_answers"), FirstEntry(Some(m), "snippet");
      !(ex.Some? && StringAt(ex.value, "content").Some?) ==>
        ExtractReference(r).snippet == (if sn.Some? then StringAt(sn.value, "snippet") else None)
    ensures var ex := FirstEntry(Some(m), "extractive_answers");
      ExtractReference(r).page == (if ex.Some? then StringAt(ex.value, "pageNumber") else None)
  {
  }

  /** A result that carries no derived data yields a reference with all four fields absent. */
  lemma NoDataNoFields(r: SearchResult)
    requires DerivedFields(r) == None
    ensures ExtractReference(r) == Reference(None, None, None, None)
  {
  }

  /** Every present field is a string taken from the result itself, never a placeholder. */
  lemma FieldsComeFromResult(r: SearchResult, m: Fields)
    requires DerivedFields(r) == Some(m)
    ensures ExtractReference(r).title.Some? ==>
      ExtractReference(r).title in {StringAt(m, "title"), StringAt(m, "link")}
    ensures var ex, sn := FirstEntry(Some(m), "extractive_answers"), FirstEntry(Some(m), "snippet");
      ExtractReference(r).snippet.Some? ==>
        (ex.Some? && ExtractReference(r).snippet == StringAt(ex.value, "content"))
        || (sn.Some? && ExtractReference(r).snippet == StringAt(sn.value, "snippet"))
    ensures ExtractReference(r).page.Some? ==> FirstEntry(Some(m), "extractive_answers").Some?
  {
  }
}
