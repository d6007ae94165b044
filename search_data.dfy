/**
 * The shape of a search response as the provider's client library hands it over:
 * protobuf messages decoded into objects whose every property may be missing.
 */
module SearchData {
  import opened Wrappers

  /** A protobuf `Value`: each kind it may carry is an optional property. */
  datatype Value = Value(stringValue: Option<string>, listValue: Option<ListValue>, structValue: Option<Struct>)

  /** A protobuf `ListValue`. */
  datatype ListValue = ListValue(values: Option<seq<Value>>)

  /** A protobuf `Struct`: its `fields` property is a string-keyed object. */
  datatype Struct = Struct(fields: Option<map<string, Value>>)

  type Fields = map<string, Value>

  datatype Document = Document(derivedStructData: Option<Struct>)

  /** One element of `data.results`. */
  datatype SearchResult = SearchResult(document: Option<Document>)

  datatype Summary = Summary(summaryText: Option<string>)

  /** The response object passed to the renderer. */
  datatype SearchResponse = SearchResponse(results: Option<seq<SearchResult>>, summary: Option<Summary>)

  /** `r.document?.derivedStructData?.fields` */
  function DerivedFields(r: SearchResult): Option<Fields>
  {
    if r.document.Some? && r.document.value.derivedStructData.Some?
    then r.document.value.derivedStructData.value.fields
    else None
  }

  /** `fields?.[key]`: a key that is not an own property reads as undefined. */
  function Prop(fields: Option<Fields>, key: string): Option<Value>
  {
    if fields.Some? && key in fields.value then Some(fields.value[key]) else None
  }

  /** `v?.stringValue` */
  function StringValue(v: Option<Value>): Option<string>
  {
    if v.Some? then v.value.stringValue else None
  }

  /** `v?.listValue?.values?.[0]?.structValue?.fields`; index 0 of an empty list reads as undefined. */
  function FirstEntryFields(v: Option<Value>): Option<Fields>
  {
    if v.Some? && v.value.listValue.Some? && v.value.listValue.value.values.Some?
       && |v.value.listValue.value.values.value| > 0
       && v.value.listValue.value.values.value[0].structValue.Some?
    then v.value.listValue.value.values.value[0].structValue.value.fields
    else None
  }

  /** `data.summary?.summaryText` */
  function SummaryText(data: SearchResponse): Option<string>
  {
    if data.summary.Some? then data.summary.value.summaryText else None
  }
}
