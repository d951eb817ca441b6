/**
 * The dashboard's view of an article: a newsletter record plus the state
 * the dashboard and the AI tagger attach to it at run time and then update
 * in place, the per-article filter results and the selection flag.
 */
module Articles {
  import opened Records

  /** A parsed JSON value; arrays and objects are kept whole. */
  datatype JsonValue =
    | JNull
    | JBool(b: bool)
    | JNumber(n: real)
    | JString(s: string)
    | JArray(items: seq<JsonValue>)
    | JObject(fields: map<string, JsonValue>)

  /** A JSON object, as a Python `dict` from field name to value. */
  type Record = map<string, JsonValue>

  /**
   * What a filter stores for one article: a bare boolean (the date filter)
   * or a record whose `match`, `confidence` and `reason` fields may each be
   * missing or null (the keyword and AI filters).
   */
  datatype FilterValue = Flag(b: bool) | Fields(record: Record)

  /**
   * The test every reader of the filters applies: the value `is True`, or
   * it is a record whose `match` `is True`. A missing `match`, `False`,
   * `None` or any non-boolean does not hold.
   */
  predicate Holds(v: FilterValue): (r: bool)
    ensures v == Flag(true) ==> r
    ensures v == Flag(false) ==> !r
    ensures v.Fields? && "match" in v.record && v.record["match"] == JBool(true) ==> r
    ensures v.Fields? && "match" in v.record && v.record["match"] != JBool(true) ==> !r
    ensures v.Fields? && "match" !in v.record ==> !r
  {
    match v
    case Flag(b) => b
    case Fields(rec) => "match" in rec && rec["match"] == JBool(true)
  }

  class Article {
    const newsletter: Newsletter
    /** Filter name to the last result written under it. */
    var filters: map<string, FilterValue>
    var userSelected: bool

    /** A freshly ingested article: no filters yet, not selected. */
    constructor (newsletter: Newsletter)
      ensures this.newsletter == newsletter && filters == map[] && !userSelected
    {
      this.newsletter := newsletter;
      filters := map[];
      userSelected := false;
    }
  }

  /** No article object occurs twice in the list. */
  predicate Distinct(articles: seq<Article>)
  {
    forall i, j :: 0 <= i < j < |articles| ==> articles[i] != articles[j]
  }
}
