/**
 * The dashboard's filter logic: the writers that record a date or keyword
 * result on every article, the AND-composition that decides which articles
 * are shown, the list of filter names offered for selection, the per-tag
 * view, and the selection flags read by the export.
 */
module Dashboard {
  import opened Wrappers
  import opened Records
  import opened Articles
  import Sequences
  import Sorting

  /** The key under which the date filter stores its flag. */
  const DateFilterKey := "date_filter"

  /**
   * `(not start or day >= start) and (not end or day <= end)`: an absent
   * bound does not constrain.
   */
  function InDateRange(day: int, start: Option<int>, end: Option<int>): (r: bool)
    ensures start.None? && end.None? ==> r
    ensures start.Some? && end.Some? && start.value > end.value ==> !r
    ensures start == end == Some(day) ==> r
    ensures start.Some? && day < start.value ==> !r
    ensures end.Some? && end.value < day ==> !r
    ensures r <==> (start.None? || start.value <= day) && (end.None? || day <= end.value)
  {
    (match start case None => true case Some(s) => day >= s)
    && (match end case None => true case Some(e) => day <= e)
  }

  /** A range inside another: every day the inner one accepts, the outer one accepts too. */
  lemma NarrowerRange(day: int, start: Option<int>, end: Option<int>, outerStart: Option<int>, outerEnd: Option<int>)
    requires outerStart.None? || (start.Some? && outerStart.value <= start.value)
    requires outerEnd.None? || (end.Some? && end.value <= outerEnd.value)
    ensures InDateRange(day, start, end) ==> InDateRange(day, outerStart, outerEnd)
  {
  }

  /** The range test, in terms of the publication day of one article. */
  function DateVerdict(n: Newsletter, start: Option<int>, end: Option<int>): FilterValue
  {
    Flag(InDateRange(n.publicationDate.day, start, end))
  }

  /**
   * `apply_date_filter`: every article gets the flag under `date_filter`;
   * its other filters are left as they were. An article listed twice gets
   * the same flag twice.
   */
  method ApplyDateFilter(articles: seq<Article>, start: Option<int>, end: Option<int>)
    modifies articles`filters
    ensures forall a :: a in articles ==>
      a.filters == old(a.filters)[DateFilterKey := DateVerdict(a.newsletter, start, end)]
  {
    for i := 0 to |articles|
      invariant forall k :: 0 <= k < i ==>
        articles[k].filters == old(articles[k].filters)[DateFilterKey := DateVerdict(articles[k].newsletter, start, end)]
      invariant forall k :: i <= k < |articles| && articles[k] !in articles[..i] ==>
        articles[k].filters == old(articles[k].filters)
    {
      var a := articles[i];
      a.filters := a.filters[DateFilterKey := DateVerdict(a.newsletter, start, end)];
    }
  }

  /** ASCII `str.lower` on one character. */
  function LowerChar(c: char): char
  {
    if 'A' <= c <= 'Z' then (c as int + 32) as char else c
  }

  /** `str.lower`, character by character. */
  function Lower(s: string): (r: string)
    ensures |r| == |s|
    ensures forall i :: 0 <= i < |s| ==> r[i] == LowerChar(s[i])
  {
    seq(|s|, i requires 0 <= i < |s| => LowerChar(s[i]))
  }

  /** `k` occurs in `t` starting at position `i`. */
  predicate OccursAt(k: string, t: string, i: int)
  {
    0 <= i <= |t| - |k| && t[i..i + |k|] == k
  }

  /** Python's `k in t` on strings: `k` occurs contiguously in `t`. */
  predicate IsSubstring(k: string, t: string)
  {
    exists i :: 0 <= i <= |t| - |k| && OccursAt(k, t, i)
  }

  /** `keyword.lower() in title.lower()`. */
  predicate KeywordMatches(keyword: string, title: string)
  {
    IsSubstring(Lower(keyword), Lower(title))
  }

  /** What the keyword filter stores: a record holding only `match`. */
  function KeywordVerdict(keyword: string, n: Newsletter): (r: FilterValue)
    ensures r.Fields? && r.record.Keys == {"match"}
    ensures Holds(r) <==> KeywordMatches(keyword, n.title)
  {
    Fields(map["match" := JBool(KeywordMatches(keyword, n.title))])
  }

  /** A title that contains the keyword as typed matches it. */
  lemma LiteralOccurrenceMatches(keyword: string, title: string)
    requires IsSubstring(keyword, title)
    ensures KeywordMatches(keyword, title)
  {
    var i :| 0 <= i <= |title| - |keyword| && OccursAt(keyword, title, i);
    var lt := Lower(title);
    assert |lt| == |title|;
    assert lt[i..i + |keyword|] == Lower(keyword) by {
      forall j | 0 <= j < |keyword|
        ensures lt[i..i + |keyword|][j] == Lower(keyword)[j]
      {
        assert title[i..i + |keyword|][j] == title[i + j];
      }
    }
    assert OccursAt(Lower(keyword), lt, i);
  }

  /** Lower-casing twice is lower-casing once. */
  lemma LowerIdempotent(s: string)
    ensures Lower(Lower(s)) == Lower(s)
  {
    forall i | 0 <= i < |s|
      ensures Lower(Lower(s))[i] == Lower(s)[i]
    {
      assert LowerChar(LowerChar(s[i])) == LowerChar(s[i]);
    }
  }

  /**
   * The match ignores ASCII case on both sides: in the keyword, and in
   * titles that agree once lower-cased.
   */
  lemma MatchIgnoresCase(keyword: string, title: string, title2: string)
    requires Lower(title) == Lower(title2)
    ensures KeywordMatches(keyword, title) <==> KeywordMatches(keyword, title2)
    ensures KeywordMatches(Lower(keyword), title) <==> KeywordMatches(keyword, title)
  {
    LowerIdempotent(keyword);
  }

  /**
   * `apply_keyword_filter`: every article gets `{"match": m}` under the
   * keyword as typed (not lower-cased); its other filters are left as they
   * were. The list itself is returned.
   */
  method ApplyKeywordFilter(articles: seq<Article>, keyword: string) returns (r: seq<Article>)
    modifies articles`filters
    ensures r == articles
    ensures forall a :: a in articles ==>
      a.filters == old(a.filters)[keyword := KeywordVerdict(keyword, a.newsletter)]
  {
    for i := 0 to |articles|
      invariant forall k :: 0 <= k < i ==>
        articles[k].filters == old(articles[k].filters)[keyword := KeywordVerdict(keyword, articles[k].newsletter)]
      invariant forall k :: i <= k < |articles| && articles[k] !in articles[..i] ==>
        articles[k].filters == old(articles[k].filters)
    {
      var a := articles[i];
      a.filters := a.filters[keyword := KeywordVerdict(keyword, a.newsletter)];
    }
    r := articles;
  }

  /** Every selected filter name is present and holds. */
  predicate PassesAll(filters: map<string, FilterValue>, selected: seq<string>): (r: bool)
    ensures selected == [] ==> r
    ensures forall f :: f in selected && f !in filters ==> !r
    ensures forall f :: f in selected && f in filters && !Holds(filters[f]) ==> !r
    ensures (forall i :: 0 <= i < |selected| ==> selected[i] in filters && Holds(filters[selected[i]])) ==> r
  {
    forall f :: f in selected ==> f in filters && Holds(filters[f])
  }

  /** Passing a one-name selection is the per-tag test. */
  lemma PassesOne(filters: map<string, FilterValue>, tag: string)
    ensures PassesAll(filters, [tag]) <==> tag in filters && Holds(filters[tag])
  {
    assert tag in [tag];
  }

  /** The articles that pass every selected filter, in their original order. */
  function Kept(articles: seq<Article>, selected: seq<string>): (r: seq<Article>)
    reads articles`filters
    ensures |r| <= |articles|
  {
    if articles == [] then
      []
    else
      (if PassesAll(articles[0].filters, selected) then [articles[0]] else [])
      + Kept(articles[1..], selected)
  }

  /** An article is kept exactly when it is listed and passes every selected filter. */
  lemma {:induction false} KeptMembers(articles: seq<Article>, selected: seq<string>, a: Article)
    ensures a in Kept(articles, selected) <==> a in articles && PassesAll(a.filters, selected)
  {
    if articles != [] {
      KeptMembers(articles[1..], selected, a);
      assert articles == [articles[0]] + articles[1..];
    }
  }

  /** One step of `Kept` from position `i` of the list. */
  lemma KeptStep(articles: seq<Article>, selected: seq<string>, i: nat)
    requires i < |articles|
    ensures Kept(articles[i..], selected)
      == (if PassesAll(articles[i].filters, selected) then [articles[i]] else []) + Kept(articles[i + 1..], selected)
  {
    assert articles[i..][1..] == articles[i + 1..];
  }

  /** Moving the head of the remaining part onto the part already kept. */
  lemma AppendKept(r: seq<Article>, a: Article, rest: seq<Article>)
    ensures r + ([a] + rest) == (r + [a]) + rest
  {
  }

  /** The kept articles keep their relative order. */
  lemma {:induction false} KeptIsSubsequence(articles: seq<Article>, selected: seq<string>)
    ensures Sequences.IsSubsequence(Kept(articles, selected), articles)
  {
    if articles != [] {
      var rest := Kept(articles[1..], selected);
      KeptIsSubsequence(articles[1..], selected);
      assert articles == [articles[0]] + articles[1..];
      if PassesAll(articles[0].filters, selected) {
        assert Kept(articles, selected) == [articles[0]] + rest;
        Sequences.SubsequenceCons(articles[0], rest, articles[1..]);
      } else {
        assert Kept(articles, selected) == rest;
        Sequences.SubsequenceSkip(articles[0], rest, articles[1..]);
      }
    }
  }

  /** With nothing selected every article is kept. */
  lemma {:induction false} KeptNothingSelected(articles: seq<Article>)
    ensures Kept(articles, []) == articles
  {
    if articles != [] {
      KeptNothingSelected(articles[1..]);
    }
  }

  /**
   * Selecting more filter names only shrinks the result: what a larger
   * selection keeps is a subsequence of what a smaller one keeps.
   */
  lemma {:induction false} KeptAntitone(articles: seq<Article>, fewer: seq<string>, more: seq<string>)
    requires forall f :: f in fewer ==> f in more
    ensures Sequences.IsSubsequence(Kept(articles, more), Kept(articles, fewer))
  {
    if articles != [] {
      var a := articles[0];
      var restMore := Kept(articles[1..], more);
      var restFewer := Kept(articles[1..], fewer);
      KeptAntitone(articles[1..], fewer, more);
      if PassesAll(a.filters, more) {
        assert PassesAll(a.filters, fewer);
        assert Kept(articles, more) == [a] + restMore;
        assert Kept(articles, fewer) == [a] + restFewer;
        Sequences.SubsequenceCons(a, restMore, restFewer);
      } else if PassesAll(a.filters, fewer) {
        assert Kept(articles, more) == restMore;
        assert Kept(articles, fewer) == [a] + restFewer;
        Sequences.SubsequenceSkip(a, restMore, restFewer);
      } else {
        assert Kept(articles, more) == restMore;
        assert Kept(articles, fewer) == restFewer;
      }
    }
  }

  /**
   * `filter_articles`: the input list itself when nothing is selected,
   * otherwise the articles for which every selected filter holds, in order.
   */
  method FilterArticles(articles: seq<Article>, selected: seq<string>) returns (r: seq<Article>)
    ensures selected == [] ==> r == articles
    ensures r == Kept(articles, selected)
  {
    if selected == [] {
      KeptNothingSelected(articles);
      return articles;
    }
    r := [];
    for i := 0 to |articles|
      invariant r + Kept(articles[i..], selected) == Kept(articles, selected)
    {
      KeptStep(articles, selected, i);
      if PassesAll(articles[i].filters, selected) {
        AppendKept(r, articles[i], Kept(articles[i + 1..], selected));
        r := r + [articles[i]];
      } else {
        assert Kept(articles[i..], selected) == Kept(articles[i + 1..], selected);
      }
    }
    assert articles[|articles|..] == [];
    assert r + [] == r;
  }

  /**
   * The filter names offered for selection: the union of the keys of every
   * article's filters, each once, sorted.
   */
  method OfferedFilterNames(articles: seq<Article>) returns (names: seq<string>)
    ensures Sorting.StrictlySorted(names)
    ensures forall k :: k in names <==> exists a :: a in articles && k in a.filters
  {
    var unique: set<string> := {};
    for i := 0 to |articles|
      invariant forall k :: k in unique <==> exists j :: 0 <= j < i && k in articles[j].filters
    {
      unique := unique + articles[i].filters.Keys;
    }
    names := Sorting.SortStrings(unique);
  }

  /**
   * `show_articles_by_tag`: the articles whose value under the tag holds,
   * in order, and how many there are.
   */
  method ArticlesByTag(articles: seq<Article>, tag: string) returns (shown: seq<Article>, count: nat)
    ensures shown == Kept(articles, [tag])
    ensures count == |shown|
  {
    shown := [];
    count := 0;
    for i := 0 to |articles|
      invariant shown + Kept(articles[i..], [tag]) == Kept(articles, [tag])
      invariant count == |shown|
    {
      KeptStep(articles, [tag], i);
      var a := articles[i];
      PassesOne(a.filters, tag);
      if tag in a.filters && Holds(a.filters[tag]) {
        AppendKept(shown, a, Kept(articles[i + 1..], [tag]));
        shown := shown + [a];
        count := count + 1;
      } else {
        assert Kept(articles[i..], [tag]) == Kept(articles[i + 1..], [tag]);
      }
    }
    assert articles[|articles|..] == [];
    assert shown + [] == shown;
  }

  /** One article is shown under a tag exactly when its value there holds. */
  lemma ShownUnderTag(articles: seq<Article>, tag: string, a: Article)
    ensures a in Kept(articles, [tag]) <==> a in articles && tag in a.filters && Holds(a.filters[tag])
  {
    KeptMembers(articles, [tag], a);
  }

  /**
   * Select all (`value` true) and deselect all (`value` false): the flag is
   * set on every filtered article and on no other.
   */
  method SetAllSelected(filtered: seq<Article>, value: bool)
    modifies filtered`userSelected
    ensures forall a :: a in filtered ==> a.userSelected == value
  {
    for i := 0 to |filtered|
      invariant forall k :: 0 <= k < i ==> filtered[k].userSelected == value
    {
      filtered[i].userSelected := value;
    }
  }

  /** The articles the export writes: the selected ones, in order. */
  function ExportSelection(articles: seq<Article>): (r: seq<Article>)
    reads articles`userSelected
    ensures |r| <= |articles|
    ensures forall i :: 0 <= i < |r| ==> r[i].userSelected
  {
    if articles == [] then
      []
    else
      (if articles[0].userSelected then [articles[0]] else [])
      + ExportSelection(articles[1..])
  }

  /** An article is exported exactly when it is listed and selected. */
  lemma {:induction false} ExportMembers(articles: seq<Article>, a: Article)
    ensures a in ExportSelection(articles) <==> a in articles && a.userSelected
  {
    if articles != [] {
      ExportMembers(articles[1..], a);
      assert articles == [articles[0]] + articles[1..];
    }
  }

  /** The export keeps the order of the article list. */
  lemma {:induction false} ExportIsSubsequence(articles: seq<Article>)
    ensures Sequences.IsSubsequence(ExportSelection(articles), articles)
  {
    if articles != [] {
      var rest := ExportSelection(articles[1..]);
      ExportIsSubsequence(articles[1..]);
      assert articles == [articles[0]] + articles[1..];
      if articles[0].userSelected {
        assert ExportSelection(articles) == [articles[0]] + rest;
        Sequences.SubsequenceCons(articles[0], rest, articles[1..]);
      } else {
        assert ExportSelection(articles) == rest;
        Sequences.SubsequenceSkip(articles[0], rest, articles[1..]);
      }
    }
  }

  /**
   * Select all on the filtered articles, then export: every filtered article
   * is exported, and nothing outside the list changes its flag.
   */
  method SelectAllThenExport(articles: seq<Article>, selected: seq<string>) returns (exported: seq<Article>)
    modifies articles`userSelected
    ensures forall a :: a in Kept(articles, selected) ==> a in exported
    ensures forall a :: a in exported ==> a in articles
  {
    var filtered := FilterArticles(articles, selected);
    forall a | a in filtered
      ensures a in articles
    {
      KeptMembers(articles, selected, a);
    }
    assert forall i :: 0 <= i < |filtered| ==> filtered[i] in articles;
    SetAllSelected(filtered, true);
    exported := ExportSelection(articles);
    forall a | a in Kept(articles, selected)
      ensures a in exported
    {
      KeptMembers(articles, selected, a);
      ExportMembers(articles, a);
    }
    forall a | a in exported
      ensures a in articles
    {
      ExportMembers(articles, a);
    }
  }
}
