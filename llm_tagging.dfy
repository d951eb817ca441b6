/**
 * The AI tagging dispatcher: the prompt sent for one article, the choice of
 * provider from its name and the credentials at hand, the fallback records
 * written when no provider is usable or the call fails, the coercion of the
 * reported confidence, and the batch loop that tags the first articles of
 * the list and reports progress.
 *
 * The provider call itself (an SDK request followed by `json.loads`) is the
 * parameter `judge`: given the provider and the full prompt it yields the
 * parsed JSON object, or the text of the exception raised. Python's
 * `float(x)` is the parameter `toFloat`, `None` where it raises.
 */
module LlmTagging {
  import opened Wrappers
  import opened Records
  import opened Articles

  const SystemPrompt :=
    "You are an assistant that decides if a newsletter matches a user's filter. "
    + "Base your decision ONLY on the provided User Filter and Newsletter Content. "
    + "Do not speculate or use outside knowledge. "
    + "Always justify using specific phrases or facts from the newsletter."

  const OutputPrompt :=
    "Output ONLY valid JSON with the following fields:\n"
    + "{ \"match\": true|false, \"confidence\": float (0-1), \"reason\": string }\n"
    + "- 'match': true if the newsletter clearly fits the filter, else false.\n"
    + "- 'confidence': your certainty as a float between 0 and 1.\n"

  /** A prompt: instructions, the user's filter, the article, the output format. */
  function Layout(sys: string, out: string, context: string, userPrompt: string): string
  {
    sys + "\n\n"
    + "User Filter: " + userPrompt + "\n"
    + "Newsletter Content:\n" + context + "\n"
    + out
  }

  /** The prompt sent to every provider. */
  function FullPrompt(context: string, userPrompt: string): string
  {
    Layout(SystemPrompt, OutputPrompt, context, userPrompt)
  }

  /**
   * A prompt opens with the instructions and closes with the output
   * format; the filter text and the article sit at fixed offsets between
   * them, so both can be read back from it.
   */
  lemma LayoutOf(sys: string, out: string, context: string, userPrompt: string)
    ensures var r := Layout(sys, out, context, userPrompt);
      var u := |sys| + 15;
      var c := u + |userPrompt| + 21;
      && |r| == |sys| + |userPrompt| + |context| + |out| + 37
      && r[..|sys|] == sys && r[|r| - |out|..] == out
      && c + |context| <= |r| && r[u..u + |userPrompt|] == userPrompt && r[c..c + |context|] == context
  {
    var head := sys + "\n\n" + "User Filter: ";
    var withFilter := head + userPrompt;
    var withContext := withFilter + "\n" + "Newsletter Content:\n" + context;
    var r := withContext + "\n" + out;
    assert r == Layout(sys, out, context, userPrompt);
    assert r[..|withContext|] == withContext;
    assert withContext[..|withFilter|] == withFilter;
    assert withFilter[|head|..] == userPrompt;
    assert withContext[|withFilter| + 21..] == context;
    assert r[..|sys|] == head[..|sys|];
  }

  /** The layout of the prompt actually sent. */
  lemma PromptLayout(context: string, userPrompt: string)
    ensures var r := FullPrompt(context, userPrompt);
      var u := |SystemPrompt| + 15;
      var c := u + |userPrompt| + 21;
      && |r| == |SystemPrompt| + |userPrompt| + |context| + |OutputPrompt| + 37
      && r[..|SystemPrompt|] == SystemPrompt && r[|r| - |OutputPrompt|..] == OutputPrompt
      && c + |context| <= |r| && r[u..u + |userPrompt|] == userPrompt && r[c..c + |context|] == context
  {
    LayoutOf(SystemPrompt, OutputPrompt, context, userPrompt);
  }

  /** Two prompts for filters of the same length are equal only for the same filter and article. */
  lemma LayoutInjective(sys: string, out: string, c1: string, p1: string, c2: string, p2: string)
    requires |p1| == |p2| && Layout(sys, out, c1, p1) == Layout(sys, out, c2, p2)
    ensures c1 == c2 && p1 == p2
  {
    LayoutOf(sys, out, c1, p1);
    LayoutOf(sys, out, c2, p2);
  }

  /** The prompt sent determines the filter (given its length) and the article. */
  lemma PromptDeterminesInputs(c1: string, p1: string, c2: string, p2: string)
    requires |p1| == |p2| && FullPrompt(c1, p1) == FullPrompt(c2, p2)
    ensures c1 == c2 && p1 == p2
  {
    LayoutInjective(SystemPrompt, OutputPrompt, c1, p1, c2, p2);
  }

  datatype Provider = OpenAI | Claude | VertexAI | Ollama

  /** The name under which the dashboard offers the provider. */
  function ProviderName(p: Provider): string
  {
    match p
    case OpenAI => "OpenAI"
    case Claude => "Claude"
    case VertexAI => "Vertex AI"
    case Ollama => "Ollama (local)"
  }

  /** The provider's name as the error reason spells it. */
  function ErrorLabel(p: Provider): string
  {
    match p
    case OpenAI => "OpenAI"
    case Claude => "Claude"
    case VertexAI => "Vertex AI"
    case Ollama => "Ollama"
  }

  /** The `api_keys` dictionary; a key may be missing or map to `None`. */
  type Credentials = map<string, Option<string>>

  /** A Python value that is truthy: present and non-empty. */
  predicate Truthy(v: Option<string>)
  {
    v.Some? && v.value != ""
  }

  /** `api_keys.get(k)` is truthy. */
  predicate Present(keys: Credentials, k: string)
  {
    k in keys && Truthy(keys[k])
  }

  /**
   * The provider whose branch runs: the chosen name must match exactly and
   * the provider's credentials must be present (Vertex AI needs both the
   * project and the location, Ollama a server URL).
   */
  function SelectProvider(name: string, keys: Credentials, ollamaUrl: Option<string>): (r: Option<Provider>)
    ensures r == Some(OpenAI) <==> name == "OpenAI" && Present(keys, "openai")
    ensures r == Some(Claude) <==> name == "Claude" && Present(keys, "claude")
    ensures r == Some(VertexAI) <==>
      name == "Vertex AI" && Present(keys, "vertex_project") && Present(keys, "vertex_location")
    ensures r == Some(Ollama) <==> name == "Ollama (local)" && Truthy(ollamaUrl)
    ensures r.Some? ==> name == ProviderName(r.value)
  {
    if name == "OpenAI" && Present(keys, "openai") then Some(OpenAI)
    else if name == "Claude" && Present(keys, "claude") then Some(Claude)
    else if name == "Vertex AI" && Present(keys, "vertex_project") && Present(keys, "vertex_location") then Some(VertexAI)
    else if name == "Ollama (local)" && Truthy(ollamaUrl) then Some(Ollama)
    else None
  }

  /** The three-field record of the fallbacks: no match, zero confidence, a reason. */
  function Refusal(reason: string): (r: Record)
    ensures r.Keys == {"match", "confidence", "reason"}
    ensures !Holds(Fields(r)) && r["reason"] == JString(reason)
    ensures r["match"] == JBool(false) && r["confidence"] == JNumber(0.0)
  {
    map["match" := JBool(false), "confidence" := JNumber(0.0), "reason" := JString(reason)]
  }

  const NoProviderReason := "No AI provider or key available."

  /** The provider's call raised `e`. */
  function ErrorRecord(p: Provider, e: string): Record
  {
    Refusal(ErrorLabel(p) + " error: " + e)
  }

  /**
   * A present `confidence` becomes `float(confidence)`, or 0.0 where that
   * conversion raises; every other field, and an absent `confidence`, is
   * left as the provider returned it.
   */
  function CoerceConfidence(rec: Record, toFloat: JsonValue -> Option<real>): (r: Record)
    ensures r.Keys == rec.Keys
    ensures forall k :: k in rec && k != "confidence" ==> r[k] == rec[k]
    ensures "confidence" in rec ==> r["confidence"].JNumber?
    ensures "confidence" in rec && toFloat(rec["confidence"]).Some? ==>
      r["confidence"].n == toFloat(rec["confidence"]).value
    ensures "confidence" in rec && toFloat(rec["confidence"]).None? ==> r["confidence"].n == 0.0
  {
    if "confidence" in rec then
      var c := match toFloat(rec["confidence"]) case Some(x) => x case None => 0.0;
      rec["confidence" := JNumber(c)]
    else
      rec
  }

  /** Coercion is idempotent when `float` of a number is that number. */
  lemma CoerceIdempotent(rec: Record, toFloat: JsonValue -> Option<real>)
    requires forall x: real :: toFloat(JNumber(x)) == Some(x)
    ensures CoerceConfidence(CoerceConfidence(rec, toFloat), toFloat) == CoerceConfidence(rec, toFloat)
  {
  }

  /** The settings the dashboard passes: filter text, chosen provider, credentials. */
  datatype Settings = Settings(userPrompt: string, providerName: string, keys: Credentials, ollamaUrl: Option<string>)

  /** The provider call: the parsed JSON object, or the text of the exception. */
  type Judge = (Provider, string) -> Result<Record, string>

  /**
   * `ai_newsletter_filter`: the verdict on one article. Without a usable
   * provider it is the no-provider refusal; if the call fails it is a
   * refusal naming the provider; otherwise it is the provider's object with
   * its confidence coerced.
   */
  function AiNewsletterFilter(context: string, settings: Settings, judge: Judge, toFloat: JsonValue -> Option<real>): (r: Record)
    ensures SelectProvider(settings.providerName, settings.keys, settings.ollamaUrl).None? ==>
      r == Refusal(NoProviderReason)
    ensures forall p, e ::
      SelectProvider(settings.providerName, settings.keys, settings.ollamaUrl) == Some(p)
      && judge(p, FullPrompt(context, settings.userPrompt)) == Failure(e) ==>
      r == Refusal(ErrorLabel(p) + " error: " + e)
    ensures forall p, rec ::
      SelectProvider(settings.providerName, settings.keys, settings.ollamaUrl) == Some(p)
      && judge(p, FullPrompt(context, settings.userPrompt)) == Success(rec) ==>
      r == CoerceConfidence(rec, toFloat)
  {
    match SelectProvider(settings.providerName, settings.keys, settings.ollamaUrl)
    case None => Refusal(NoProviderReason)
    case Some(p) =>
      match judge(p, FullPrompt(context, settings.userPrompt))
      case Failure(e) => ErrorRecord(p, e)
      case Success(rec) => CoerceConfidence(rec, toFloat)
  }

  /**
   * Only the selected provider is asked, and only with the full prompt: two
   * judges that agree there give the same verdict. Without a usable
   * provider no judge is asked at all.
   */
  lemma OnlySelectedProviderAsked(context: string, settings: Settings, j1: Judge, j2: Judge, toFloat: JsonValue -> Option<real>)
    requires forall p :: SelectProvider(settings.providerName, settings.keys, settings.ollamaUrl) == Some(p) ==>
      j1(p, FullPrompt(context, settings.userPrompt)) == j2(p, FullPrompt(context, settings.userPrompt))
    ensures AiNewsletterFilter(context, settings, j1, toFloat) == AiNewsletterFilter(context, settings, j2, toFloat)
  {
  }

  /** A verdict that matches came from a provider's answer. */
  lemma MatchNeedsAnswer(context: string, settings: Settings, judge: Judge, toFloat: JsonValue -> Option<real>)
    requires Holds(Fields(AiNewsletterFilter(context, settings, judge, toFloat)))
    ensures SelectProvider(settings.providerName, settings.keys, settings.ollamaUrl).Some?
    ensures judge(SelectProvider(settings.providerName, settings.keys, settings.ollamaUrl).value,
                  FullPrompt(context, settings.userPrompt)).Success?
  {
  }

  /** The record written for an article that is not sent to the provider. */
  const FilteredOut: Record :=
    map["match" := JNull, "confidence" := JNull, "reason" := JString("Filtered out by date.")]

  /** How many articles at the head of the list the batch visits. */
  const BatchLimit := 30

  /** The number of articles visited in a list of `n`: `len(newsletters[:30])`. */
  function Visited(n: nat): (r: nat)
    ensures r <= n && r <= BatchLimit
    ensures r == n || r == BatchLimit
  {
    if n < BatchLimit then n else BatchLimit
  }

  /** The article goes to the provider: `pass_date` and its date flag `is True`. */
  predicate Eligible(filters: map<string, FilterValue>, passDate: bool): (r: bool)
    ensures !passDate ==> !r
    ensures DateFilterKey !in filters ==> !r
    ensures r ==> Holds(filters[DateFilterKey])
    ensures DateFilterKey in filters && filters[DateFilterKey].Fields? ==> !r
    ensures passDate && DateFilterKey in filters && filters[DateFilterKey] == Flag(true) ==> r
  {
    passDate && DateFilterKey in filters && filters[DateFilterKey] == Flag(true)
  }

  const DateFilterKey := "date_filter"

  /** What the article is told about itself. */
  function Context(n: Newsletter): string
  {
    "Title: " + n.title + "\nContent: " + n.content + "\n"
  }

  /**
   * The article's title and content sit at fixed offsets in its context:
   * after `Title: `, and between `\nContent: ` and the closing newline.
   */
  lemma ContextLayout(n: Newsletter)
    ensures var r := Context(n);
      var t := |n.title|;
      && |r| == t + |n.content| + 18
      && r[..7] == "Title: " && r[7..7 + t] == n.title
      && r[7 + t..17 + t] == "\nContent: "
      && r[17 + t..|r| - 1] == n.content && r[|r| - 1] == '\n'
  {
    var head := "Title: " + n.title;
    var mid := head + "\nContent: ";
    var body := mid + n.content;
    assert Context(n) == body + "\n";
    assert body[..|mid|] == mid;
    assert mid[..|head|] == head;
    assert body[|mid|..] == n.content;
  }

  /** The context determines the article's title and content, given the title's length. */
  lemma ContextDeterminesArticle(n1: Newsletter, n2: Newsletter)
    requires |n1.title| == |n2.title| && Context(n1) == Context(n2)
    ensures n1.title == n2.title && n1.content == n2.content
  {
    ContextLayout(n1);
    ContextLayout(n2);
  }

  /** The value the batch stores for an article whose filters were `filters`. */
  function Verdict(filters: map<string, FilterValue>, n: Newsletter, settings: Settings, passDate: bool,
                   judge: Judge, toFloat: JsonValue -> Option<real>): (r: FilterValue)
    ensures !Eligible(filters, passDate) ==> r == Fields(FilteredOut)
    ensures Eligible(filters, passDate) ==> r == Fields(AiNewsletterFilter(Context(n), settings, judge, toFloat))
  {
    if Eligible(filters, passDate) then Fields(AiNewsletterFilter(Context(n), settings, judge, toFloat))
    else Fields(FilteredOut)
  }

  /** The filters of each article, in list order. */
  function FiltersOf(articles: seq<Article>): (r: seq<map<string, FilterValue>>)
    reads articles`filters
    ensures |r| == |articles|
    ensures forall i :: 0 <= i < |articles| ==> r[i] == articles[i].filters
  {
    if articles == [] then [] else FiltersOf(articles[..|articles| - 1]) + [articles[|articles| - 1].filters]
  }

  /**
   * The progress values reported after visiting the first `k` of the
   * articles whose filters were `filters`: `(idx + 1) / total` after each
   * eligible article, nothing after the others, `total` being the length
   * of the whole list.
   */
  function Progress(filters: seq<map<string, FilterValue>>, k: nat, passDate: bool): (r: seq<real>)
    requires k <= |filters|
    ensures |r| <= k
  {
    if k == 0 then []
    else
      Progress(filters, k - 1, passDate)
      + (if Eligible(filters[k - 1], passDate) then [(k as real) / (|filters| as real)] else [])
  }

  /** Division by a positive denominator is strictly monotone. */
  lemma FractionLess(a: nat, b: nat, total: nat)
    requires a < b && 0 < total
    ensures (a as real) / (total as real) < (b as real) / (total as real)
  {
  }

  /** Every progress value is positive and at most the fraction of the list visited. */
  lemma {:induction false} ProgressRange(filters: seq<map<string, FilterValue>>, k: nat, passDate: bool)
    requires k <= |filters|
    ensures forall x :: x in Progress(filters, k, passDate) ==>
      0.0 < x <= (k as real) / (|filters| as real)
  {
    if k > 0 {
      ProgressRange(filters, k - 1, passDate);
      FractionLess(k - 1, k, |filters|);
      FractionLess(0, k, |filters|);
    }
  }

  /** The progress values strictly increase. */
  lemma {:induction false} ProgressIncreasing(filters: seq<map<string, FilterValue>>, k: nat, passDate: bool)
    requires k <= |filters|
    ensures forall i, j :: 0 <= i < j < |Progress(filters, k, passDate)| ==>
      Progress(filters, k, passDate)[i] < Progress(filters, k, passDate)[j]
  {
    if k > 0 {
      var p := Progress(filters, k - 1, passDate);
      var r := Progress(filters, k, passDate);
      ProgressIncreasing(filters, k - 1, passDate);
      if Eligible(filters[k - 1], passDate) {
        ProgressRange(filters, k - 1, passDate);
        FractionLess(k - 1, k, |filters|);
        assert r == p + [(k as real) / (|filters| as real)];
        forall i, j | 0 <= i < j < |r|
          ensures r[i] < r[j]
        {
          assert r[i] == p[i];
          if j == |p| {
            assert p[i] in p;
          } else {
            assert r[j] == p[j];
          }
        }
      } else {
        assert r == p;
      }
    }
  }

  /** Every progress value lies in (0, 1]. */
  lemma ProgressBounds(filters: seq<map<string, FilterValue>>, k: nat, passDate: bool)
    requires k <= |filters|
    ensures forall x :: x in Progress(filters, k, passDate) ==> 0.0 < x <= 1.0
  {
    ProgressRange(filters, k, passDate);
    if 0 < |filters| {
      FractionAtMostOne(k, |filters|);
    }
  }

  lemma FractionAtMostOne(a: nat, total: nat)
    requires a <= total && 0 < total
    ensures (a as real) / (total as real) <= 1.0
  {
  }

  /** When more than the batch is listed, the progress never reaches 1. */
  lemma ProgressBelowOne(filters: seq<map<string, FilterValue>>, k: nat, passDate: bool)
    requires k < |filters|
    ensures forall x :: x in Progress(filters, k, passDate) ==> x < 1.0
  {
    ProgressRange(filters, k, passDate);
    FractionLess(k, |filters|, |filters|);
  }

  /** With `pass_date` off nothing is sent, so no progress is reported. */
  lemma {:induction false} NoProgressWithoutPassDate(filters: seq<map<string, FilterValue>>, k: nat)
    requires k <= |filters|
    ensures Progress(filters, k, false) == []
  {
    if k > 0 {
      NoProgressWithoutPassDate(filters, k - 1);
    }
  }

  /**
   * The filters of the first `k` articles once the batch has visited them,
   * when they were `before`.
   */
  ghost function Tagged(before: seq<map<string, FilterValue>>, articles: seq<Article>, k: nat, filterKey: string,
                        settings: Settings, passDate: bool, judge: Judge, toFloat: JsonValue -> Option<real>)
    : (r: seq<map<string, FilterValue>>)
    requires k <= |before| && |before| == |articles|
    ensures |r| == k
  {
    if k == 0 then []
    else
      Tagged(before, articles, k - 1, filterKey, settings, passDate, judge, toFloat)
      + [before[k - 1][filterKey := Verdict(before[k - 1], articles[k - 1].newsletter, settings, passDate, judge, toFloat)]]
  }

  /** Each visited article's filters gain its verdict under the key. */
  lemma {:induction false} TaggedAt(before: seq<map<string, FilterValue>>, articles: seq<Article>, k: nat, filterKey: string,
                                    settings: Settings, passDate: bool, judge: Judge, toFloat: JsonValue -> Option<real>)
    requires k <= |before| && |before| == |articles|
    ensures forall i :: 0 <= i < k ==>
      Tagged(before, articles, k, filterKey, settings, passDate, judge, toFloat)[i] ==
      before[i][filterKey := Verdict(before[i], articles[i].newsletter, settings, passDate, judge, toFloat)]
  {
    if k > 0 {
      var prev := Tagged(before, articles, k - 1, filterKey, settings, passDate, judge, toFloat);
      var next := Tagged(before, articles, k, filterKey, settings, passDate, judge, toFloat);
      TaggedAt(before, articles, k - 1, filterKey, settings, passDate, judge, toFloat);
      assert forall i :: 0 <= i < k - 1 ==> next[i] == prev[i];
    }
  }

  /** Visiting one more article leaves the earlier ones as they were. */
  lemma TaggedGrow(before: seq<map<string, FilterValue>>, articles: seq<Article>, k: nat, filterKey: string,
                   settings: Settings, passDate: bool, judge: Judge, toFloat: JsonValue -> Option<real>)
    requires k < |before| && |before| == |articles|
    ensures var next := Tagged(before, articles, k + 1, filterKey, settings, passDate, judge, toFloat);
      && (forall i :: 0 <= i < k ==> next[i] == Tagged(before, articles, k, filterKey, settings, passDate, judge, toFloat)[i])
      && next[k] == before[k][filterKey := Verdict(before[k], articles[k].newsletter, settings, passDate, judge, toFloat)]
  {
  }

  /**
   * One visited article: an eligible one is sent to the provider and gets
   * the verdict, any other gets the filtered-out record. Returns whether
   * the article was eligible, that is whether progress is reported for it.
   */
  method TagArticle(n: Article, settings: Settings, filterKey: string, passDate: bool,
                    judge: Judge, toFloat: JsonValue -> Option<real>) returns (sent: bool)
    modifies n`filters
    ensures sent == Eligible(old(n.filters), passDate)
    ensures n.filters == old(n.filters)[filterKey :=
      Verdict(old(n.filters), n.newsletter, settings, passDate, judge, toFloat)]
  {
    if passDate && DateFilterKey in n.filters && n.filters[DateFilterKey] == Flag(true) {
      var result := AiNewsletterFilter(Context(n.newsletter), settings, judge, toFloat);
      n.filters := n.filters[filterKey := Fields(result)];
      sent := true;
    } else {
      n.filters := n.filters[filterKey := Fields(FilteredOut)];
      sent := false;
    }
  }

  /**
   * `filter_newsletters_with_ai`: each of the first `BatchLimit` articles
   * gets its verdict under `filterKey`, its other filters are kept, and
   * later articles are untouched; the progress values reported are returned.
   */
  method FilterNewslettersWithAi(articles: seq<Article>, settings: Settings, filterKey: string, passDate: bool,
                                 judge: Judge, toFloat: JsonValue -> Option<real>) returns (progress: seq<real>)
    requires Distinct(articles)
    modifies articles`filters
    ensures forall i :: 0 <= i < Visited(|articles|) ==>
      articles[i].filters == old(articles[i].filters)[filterKey :=
        Verdict(old(articles[i].filters), articles[i].newsletter, settings, passDate, judge, toFloat)]
    ensures forall i :: Visited(|articles|) <= i < |articles| ==> articles[i].filters == old(articles[i].filters)
    ensures progress == Progress(old(FiltersOf(articles)), Visited(|articles|), passDate)
  {
    ghost var before := FiltersOf(articles);
    var total := |articles|;
    var visited := if total < BatchLimit then total else BatchLimit;
    progress := [];
    for idx := 0 to visited
      invariant forall i :: 0 <= i < idx ==>
        articles[i].filters == Tagged(before, articles, idx, filterKey, settings, passDate, judge, toFloat)[i]
      invariant forall i :: idx <= i < |articles| ==> articles[i].filters == before[i]
      invariant progress == Progress(before, idx, passDate)
    {
      var n := articles[idx];
      assert forall i :: 0 <= i < |articles| && i != idx ==> articles[i] != n;
      var sent := TagArticle(n, settings, filterKey, passDate, judge, toFloat);
      TaggedGrow(before, articles, idx, filterKey, settings, passDate, judge, toFloat);
      if sent {
        progress := progress + [(idx + 1) as real / total as real];
      }
    }
    TaggedAt(before, articles, visited, filterKey, settings, passDate, judge, toFloat);
  }
}
