/**
 * Text clean-up applied to feed entries: removal of HTML tags (the pattern
 * `<[^>]+>`), title cleaning, and extraction of the domain from a link
 * (the first capture of `https?://([^/]+)`), plus the field defaults each
 * feed entry gets.
 */
module Ingest {
  import opened Wrappers
  import opened Records
  import Sequences

  /** The first position at or after `from` that holds `c`. */
  function IndexOf(s: string, c: char, from: nat): (r: Option<nat>)
    decreases |s| - from
    ensures r.Some? ==> from <= r.value < |s| && s[r.value] == c
    ensures r.Some? ==> forall k :: from <= k < r.value ==> s[k] != c
    ensures r.None? ==> forall k :: from <= k < |s| ==> s[k] != c
  {
    if from >= |s| then None
    else if s[from] == c then Some(from)
    else IndexOf(s, c, from + 1)
  }

  /**
   * The length of the tag that starts at `s[0]`, if one does: a `<`, one or
   * more characters other than `>`, then `>`.
   */
  function TagLength(s: string): (r: Option<nat>)
    ensures r.Some? ==> 3 <= r.value <= |s| && s[0] == '<' && s[r.value - 1] == '>'
    ensures r.Some? ==> forall k :: 1 <= k < r.value - 1 ==> s[k] != '>'
    ensures r.None? <==> s == [] || s[0] != '<' || (|s| >= 2 && s[1] == '>') || '>' !in s[1..]
  {
    if |s| < 2 || s[0] != '<' || s[1] == '>' then None
    else match IndexOf(s, '>', 2)
      case Some(q) => Some(q + 1)
      case None => None
  }

  /**
   * `re.sub(r"<[^>]+>", "", s)`: the scan goes left to right; where a tag
   * starts it is dropped and the scan resumes after it, otherwise the
   * character is kept.
   */
  function StripHtmlTags(s: string): (r: string)
    decreases |s|
    ensures |r| <= |s|
    ensures forall c :: c in r ==> c in s
  {
    if s == [] then ""
    else match TagLength(s)
      case Some(m) => StripHtmlTags(s[m..])
      case None => [s[0]] + StripHtmlTags(s[1..])
  }

  /** No tag starts anywhere in `s`. */
  predicate TagFree(s: string)
  {
    forall i :: 0 <= i < |s| ==> TagLength(s[i..]).None?
  }

  /** The output keeps the input's characters in their order, deleting some. */
  lemma {:induction false} StripIsSubsequence(s: string)
    ensures Sequences.IsSubsequence(StripHtmlTags(s), s)
    decreases |s|
  {
    if s == [] {
    } else {
      match TagLength(s)
      case Some(m) =>
        StripIsSubsequence(s[m..]);
        Sequences.SubsequenceOfSuffix(StripHtmlTags(s[m..]), s, m);
      case None =>
        StripIsSubsequence(s[1..]);
        Sequences.SubsequenceCons(s[0], StripHtmlTags(s[1..]), s[1..]);
        assert [s[0]] + s[1..] == s;
    }
  }

  /** A text in which no tag starts is returned unchanged. */
  lemma {:induction false} StripTagFree(s: string)
    requires TagFree(s)
    ensures StripHtmlTags(s) == s
    decreases |s|
  {
    if s != [] {
      assert s[0..] == s;
      assert TagLength(s).None?;
      forall i | 0 <= i < |s| - 1
        ensures TagLength(s[1..][i..]).None?
      {
        assert s[1..][i..] == s[i + 1..];
      }
      StripTagFree(s[1..]);
    }
  }

  /** No tag starts anywhere in the output. */
  lemma {:induction false} StripOutputTagFree(s: string)
    ensures TagFree(StripHtmlTags(s))
    decreases |s|
  {
    if s != [] {
      match TagLength(s)
      case Some(m) =>
        StripOutputTagFree(s[m..]);
      case None =>
        var t := StripHtmlTags(s[1..]);
        var r := [s[0]] + t;
        StripOutputTagFree(s[1..]);
        assert r == StripHtmlTags(s);
        forall i | 0 <= i < |r|
          ensures TagLength(r[i..]).None?
        {
          if i == 0 {
            assert r[0..] == r;
            assert r[1..] == t;
            if s[0] == '<' {
              if |s| >= 2 && s[1] == '>' {
                assert TagLength(s[1..]).None?;
                assert t == ['>'] + StripHtmlTags(s[2..]);
              } else {
                assert '>' !in t;
              }
            }
          } else {
            assert r[i..] == t[i - 1..];
          }
        }
    }
  }

  /** Stripping twice is stripping once. */
  lemma StripIdempotent(s: string)
    ensures StripHtmlTags(StripHtmlTags(s)) == StripHtmlTags(s)
  {
    StripOutputTagFree(s);
    StripTagFree(StripHtmlTags(s));
  }

  /** Text without `<` is returned unchanged; so is `<>`, which is not a tag. */
  lemma StripWithoutTags(s: string)
    requires '<' !in s || s == "<>"
    ensures StripHtmlTags(s) == s
  {
    forall i | 0 <= i < |s|
      ensures TagLength(s[i..]).None?
    {
      assert s[i..][0] == s[i];
    }
    StripTagFree(s);
  }

  /** The marker `clean_title` deletes. */
  const StatMarker := "STAT+:"

  /** `s.replace("STAT+:", "")`: left-to-right, non-overlapping deletion. */
  function RemoveStat(s: string): (r: string)
    decreases |s|
    ensures |r| <= |s|
  {
    if |s| >= |StatMarker| && s[..|StatMarker|] == StatMarker then RemoveStat(s[|StatMarker|..])
    else if s == [] then ""
    else [s[0]] + RemoveStat(s[1..])
  }

  /** Text shorter than the marker is left as it is. */
  lemma {:induction false} RemoveStatShort(s: string)
    requires |s| < |StatMarker|
    ensures RemoveStat(s) == s
  {
    if s != [] {
      RemoveStatShort(s[1..]);
      assert s == [s[0]] + s[1..];
    }
  }

  /** A character that does not start the marker is kept, and the scan moves on. */
  lemma RemoveStatKeeps(s: string)
    requires |s| >= |StatMarker| && s[..|StatMarker|] != StatMarker
    ensures RemoveStat(s) == [s[0]] + RemoveStat(s[1..])
  {
  }

  /** A marker at the front is deleted, and the scan resumes after it. */
  lemma RemoveStatDrops(s: string)
    requires |s| >= |StatMarker| && s[..|StatMarker|] == StatMarker
    ensures RemoveStat(s) == RemoveStat(s[|StatMarker|..])
  {
  }

  /** The marker starts at position `i` of `s`. */
  predicate MarkerAt(s: string, i: nat)
  {
    i + |StatMarker| <= |s| && s[i..i + |StatMarker|] == StatMarker
  }

  /** The marker starts nowhere in `s`. */
  predicate MarkerFree(s: string)
  {
    forall i: nat :: i < |s| ==> !MarkerAt(s, i)
  }

  /** Text in which the marker does not occur is left as it is. */
  lemma {:induction false} RemoveStatMarkerFree(s: string)
    requires MarkerFree(s)
    ensures RemoveStat(s) == s
    decreases |s|
  {
    if |s| < |StatMarker| {
      RemoveStatShort(s);
    } else {
      assert !MarkerAt(s, 0);
      assert s[0..|StatMarker|] == s[..|StatMarker|];
      RemoveStatKeeps(s);
      forall i: nat | i < |s[1..]|
        ensures !MarkerAt(s[1..], i)
      {
        assert !MarkerAt(s, i + 1);
        if i + |StatMarker| <= |s[1..]| {
          assert s[1..][i..i + |StatMarker|] == s[i + 1..i + 1 + |StatMarker|];
        }
      }
      RemoveStatMarkerFree(s[1..]);
      assert s == [s[0]] + s[1..];
    }
  }

  /** The output keeps the input's characters in their order, deleting some. */
  lemma {:induction false} RemoveStatIsSubsequence(s: string)
    ensures Sequences.IsSubsequence(RemoveStat(s), s)
    decreases |s|
  {
    if |s| >= |StatMarker| && s[..|StatMarker|] == StatMarker {
      RemoveStatDrops(s);
      RemoveStatIsSubsequence(s[|StatMarker|..]);
      Sequences.SubsequenceOfSuffix(RemoveStat(s[|StatMarker|..]), s, |StatMarker|);
    } else if s != [] {
      assert RemoveStat(s) == [s[0]] + RemoveStat(s[1..]);
      RemoveStatIsSubsequence(s[1..]);
      Sequences.SubsequenceCons(s[0], RemoveStat(s[1..]), s[1..]);
      assert s == [s[0]] + s[1..];
    }
  }

  /**
   * Deleting the marker can join the text around it into a new marker, so
   * the result of `clean_title` may still contain `STAT+:`.
   */
  lemma MarkerCanReform()
    ensures RemoveStat("STSTAT+:AT+:") == StatMarker
  {
    var s := "STSTAT+:AT+:";
    assert s[..6][2] != StatMarker[2];
    RemoveStatKeeps(s);
    assert s[1..][..6][0] != StatMarker[0];
    RemoveStatKeeps(s[1..]);
    assert s[1..][1..] == s[2..];
    assert s[2..][..6] == StatMarker;
    RemoveStatDrops(s[2..]);
    assert s[2..][6..] == "AT+:";
    RemoveStatShort("AT+:");
  }

  /** So a title that `clean_title` has cleaned can still be exactly the marker. */
  lemma CleanedTitleCanBeMarker()
    ensures CleanTitle("STSTAT+:AT+:") == StatMarker
  {
    StripWithoutTags("STSTAT+:AT+:");
    MarkerCanReform();
    MarkerUnchangedByTrim();
  }

  /** The marker has no whitespace at either end, so `strip()` keeps it. */
  lemma MarkerUnchangedByTrim()
    ensures Trim(StatMarker) == StatMarker
  {
    assert !IsSpace('S') && !IsSpace(':');
    assert LeadingSpaces(StatMarker) == 0;
    assert TrailingSpaces(StatMarker) == 0;
  }

  /**
   * The ranges of characters, both ends included, that Python's
   * `str.isspace` accepts and `str.strip()` therefore removes.
   */
  const SpaceRanges: seq<(char, char)> := [
    ('\t', '\r'), ('\U{1C}', ' '), ('\U{85}', '\U{85}'), ('\U{A0}', '\U{A0}'), ('\U{1680}', '\U{1680}'),
    ('\U{2000}', '\U{200A}'), ('\U{2028}', '\U{2029}'), ('\U{202F}', '\U{202F}'), ('\U{205F}', '\U{205F}'),
    ('\U{3000}', '\U{3000}')
  ]

  predicate InRanges(c: char, ranges: seq<(char, char)>)
  {
    ranges != [] && ((ranges[0].0 <= c <= ranges[0].1) || InRanges(c, ranges[1..]))
  }

  /** What Python's `str.strip()` removes. */
  predicate IsSpace(c: char)
  {
    InRanges(c, SpaceRanges)
  }

  /** The number of whitespace characters at the front of `s`. */
  function LeadingSpaces(s: string): (n: nat)
    ensures n <= |s|
    ensures forall k :: 0 <= k < n ==> IsSpace(s[k])
    ensures n == |s| || !IsSpace(s[n])
  {
    if s != [] && IsSpace(s[0]) then
      var m := LeadingSpaces(s[1..]);
      assert forall k :: 1 <= k < 1 + m ==> s[k] == s[1..][k - 1];
      1 + m
    else
      0
  }

  /** The number of whitespace characters at the end of `s`. */
  function TrailingSpaces(s: string): (n: nat)
    ensures n <= |s|
    ensures forall k :: |s| - n <= k < |s| ==> IsSpace(s[k])
    ensures n == |s| || !IsSpace(s[|s| - n - 1])
  {
    if s != [] && IsSpace(s[|s| - 1]) then
      var m := TrailingSpaces(s[..|s| - 1]);
      assert forall k :: 0 <= k < |s| - 1 ==> s[k] == s[..|s| - 1][k];
      1 + m
    else
      0
  }

  /**
   * `s.strip()`: the middle of `s` once the whitespace at both ends is
   * gone; what is left starts and ends with a non-space character.
   */
  function Trim(s: string): (r: string)
    ensures |r| <= |s|
    ensures r == [] || (!IsSpace(r[0]) && !IsSpace(r[|r| - 1]))
  {
    var i := LeadingSpaces(s);
    var j := |s| - TrailingSpaces(s);
    if i < j then s[i..j] else ""
  }

  /**
   * What `strip` removes is whitespace: the result is the part of `s`
   * after its leading spaces, and only spaces follow it.
   */
  lemma TrimSpan(s: string)
    ensures var i := LeadingSpaces(s);
      && i + |Trim(s)| <= |s| && Trim(s) == s[i..i + |Trim(s)|]
      && (forall k :: 0 <= k < i ==> IsSpace(s[k]))
      && (forall k :: i + |Trim(s)| <= k < |s| ==> IsSpace(s[k]))
  {
  }

  /** `clean_title`: tags stripped first, then every marker deleted, then trimmed. */
  function CleanTitle(s: string): (r: string)
    ensures |r| <= |s|
    ensures r == [] || (!IsSpace(r[0]) && !IsSpace(r[|r| - 1]))
  {
    Trim(RemoveStat(StripHtmlTags(s)))
  }

  /** The length of `https://` or `http://` at the front of `s`, if either is there. */
  function SchemeLength(s: string): (r: Option<nat>)
    ensures r.Some? ==> r.value <= |s| && (s[..r.value] == "https://" || s[..r.value] == "http://")
    ensures r.None? <==> !(|s| >= 8 && s[..8] == "https://") && !(|s| >= 7 && s[..7] == "http://")
  {
    if |s| >= 8 && s[..8] == "https://" then Some(8)
    else if |s| >= 7 && s[..7] == "http://" then Some(7)
    else None
  }

  /** The longest prefix of `s` without `/`: what the greedy `[^/]+` takes. */
  function HostPrefix(s: string): (r: string)
    ensures |r| <= |s| && r == s[..|r|] && '/' !in r
    ensures |r| == |s| || s[|r|] == '/'
  {
    if s == [] || s[0] == '/' then "" else [s[0]] + HostPrefix(s[1..])
  }

  /** The domain captured by a match of the pattern that starts at `s[0]`, if one does. */
  function DomainAt(s: string): (r: Option<string>)
    ensures r.None? <==> SchemeLength(s).None? || HostPrefix(s[SchemeLength(s).value..]) == ""
    ensures r.Some? ==> r.value != "" && '/' !in r.value
    ensures r.Some? ==> var m := SchemeLength(s).value;
      && m + |r.value| <= |s| && s[m..m + |r.value|] == r.value
      && (m + |r.value| == |s| || s[m + |r.value|] == '/')
  {
    match SchemeLength(s)
    case None => None
    case Some(m) =>
      var h := HostPrefix(s[m..]);
      if h == "" then None else Some(h)
  }

  /** The least position in `p..n` (both ends included) that satisfies `ok`, if any. */
  function FirstWhere(ok: nat -> bool, p: nat, n: nat): (r: Option<nat>)
    requires p <= n
    decreases n - p
    ensures r.None? ==> forall q :: p <= q <= n ==> !ok(q)
    ensures r.Some? ==> p <= r.value <= n && ok(r.value)
    ensures r.Some? ==> forall q :: p <= q < r.value ==> !ok(q)
  {
    if ok(p) then Some(p)
    else if p == n then None
    else FirstWhere(ok, p + 1, n)
  }

  /**
   * The domain of a link: the capture of the leftmost match, or `None` when
   * the pattern matches nowhere. A domain is never empty and has no `/`.
   */
  function ExtractDomain(url: string): (r: Option<string>)
    ensures r.Some? ==> r.value != "" && '/' !in r.value
    ensures r.None? <==> forall q :: 0 <= q <= |url| ==> DomainAt(url[q..]).None?
    ensures r.Some? ==> exists q ::
      && 0 <= q <= |url| && DomainAt(url[q..]) == r
      && forall q' :: 0 <= q' < q ==> DomainAt(url[q'..]).None?
  {
    var starts := (q: nat) => q <= |url| && DomainAt(url[q..]).Some?;
    assert forall q :: 0 <= q <= |url| ==> (starts(q) <==> DomainAt(url[q..]).Some?);
    match FirstWhere(starts, 0, |url|)
    case None => None
    case Some(q) => DomainAt(url[q..])
  }

  /** One parsed feed entry: field name to text, as `entry.get(...)` sees it. */
  type FeedEntry = map<string, string>

  /** `entry.get(key, "")`. */
  function Field(e: FeedEntry, key: string): string
  {
    if key in e then e[key] else ""
  }

  /**
   * The fields of the `Newsletter` record; `title`, `content` and
   * `publication_date` have no default.
   */
  const NewsletterFields: set<string> := {"title", "content", "publication_date", "url"}
  const RequiredFields: set<string> := {"title", "content", "publication_date"}

  /**
   * Calling the `Newsletter` constructor with the keyword arguments
   * `keywords`: it raises `TypeError` (here `None`) for an unknown keyword
   * or a missing required one, and otherwise builds the record, whose `url`
   * defaults to `None` when it is not passed.
   */
  function MakeNewsletter(keywords: set<string>, title: string, content: string, date: DateTime, url: string)
    : (r: Option<Newsletter>)
    ensures r.Some? <==> RequiredFields <= keywords <= NewsletterFields
    ensures r.Some? ==> r.value.title == title && r.value.content == content && r.value.publicationDate == date
    ensures r.Some? && "url" in keywords ==> r.value.url == Some(url)
    ensures r.Some? && "url" !in keywords ==> r.value.url.None?
  {
    if RequiredFields <= keywords <= NewsletterFields then
      Some(Newsletter(title, content, date, if "url" in keywords then Some(url) else None))
    else None
  }

  /**
   * One article per entry, in feed order, or `None` as soon as one entry
   * raises: the ingest loop appends each entry's article, and an exception
   * ends the whole call.
   */
  function IngestWith<T>(entries: seq<FeedEntry>, entry: FeedEntry -> Option<T>): (r: Option<seq<T>>)
    ensures r.Some? <==> forall i :: 0 <= i < |entries| ==> entry(entries[i]).Some?
    ensures r.Some? ==> |r.value| == |entries|
    ensures r.Some? ==> forall i :: 0 <= i < |entries| ==> r.value[i] == entry(entries[i]).value
  {
    if entries == [] then Some([])
    else match entry(entries[0])
      case None => None
      case Some(a) =>
        match IngestWith(entries[1..], entry)
        case None =>
          assert forall i :: 1 <= i < |entries| ==> entries[i] == entries[1..][i - 1];
          None
        case Some(rest) =>
          assert forall i :: 1 <= i < |entries| ==> entries[i] == entries[1..][i - 1];
          Some([a] + rest)
  }

  /** The keywords the ingest loop passes to `Newsletter`, `domain` among them. */
  const PassedKeywords: set<string> := {"title", "content", "publication_date", "url", "domain"}

  /**
   * One entry as the code is written: the date is parsed first (`parseDate`
   * yields `None` where the parser raises), then `Newsletter` is called
   * with a `domain` keyword the record does not have.
   */
  function EntryAsWritten(e: FeedEntry, parseDate: string -> Option<DateTime>): (r: Option<Newsletter>)
    ensures r.None?
  {
    match parseDate(Field(e, "published"))
    case None => None
    case Some(d) =>
      assert "domain" in PassedKeywords && "domain" !in NewsletterFields;
      MakeNewsletter(PassedKeywords, CleanTitle(Field(e, "title")), Field(e, "summary"), d, Field(e, "link"))
  }

  /** The ingest as written: every feed with at least one entry raises. */
  lemma AsWrittenFailsOnEveryFeed(entries: seq<FeedEntry>, parseDate: string -> Option<DateTime>)
    ensures var r := IngestWith(entries, (e: FeedEntry) => EntryAsWritten(e, parseDate));
      (entries == [] ==> r == Some([])) && (entries != [] ==> r.None?)
  {
    if entries != [] {
      assert EntryAsWritten(entries[0], parseDate).None?;
    }
  }

  /** An ingested article together with the domain parsed from its link. */
  datatype IngestedArticle = IngestedArticle(newsletter: Newsletter, domain: Option<string>)

  /**
   * The article built from one entry, as intended: the cleaned title
   * (empty when the entry has none), the `summary` as content, the
   * `published` text read by `parseDate`, the `link` as url (empty when
   * missing), and the domain of the link kept beside the record. It fails
   * exactly when the date does not parse.
   */
  function EntryToArticle(e: FeedEntry, parseDate: string -> Option<DateTime>): (r: Option<IngestedArticle>)
    ensures r.None? <==> parseDate(Field(e, "published")).None?
    ensures r.Some? ==> r.value.newsletter.publicationDate == parseDate(Field(e, "published")).value
    ensures r.Some? ==> r.value.newsletter.title == CleanTitle(Field(e, "title"))
    ensures r.Some? && "title" !in e ==> r.value.newsletter.title == ""
    ensures r.Some? ==> r.value.newsletter.content == Field(e, "summary")
    ensures r.Some? ==> r.value.newsletter.url == Some(Field(e, "link"))
    ensures r.Some? ==> r.value.domain == ExtractDomain(Field(e, "link"))
  {
    match parseDate(Field(e, "published"))
    case None => None
    case Some(d) =>
      var link := Field(e, "link");
      var n := MakeNewsletter(NewsletterFields, CleanTitle(Field(e, "title")), Field(e, "summary"), d, link);
      Some(IngestedArticle(n.value, ExtractDomain(link)))
  }

  /** The intended ingest: one article per entry, in feed order, unless a date does not parse. */
  function IngestEntries(entries: seq<FeedEntry>, parseDate: string -> Option<DateTime>)
    : (r: Option<seq<IngestedArticle>>)
    ensures r.None? <==> exists i :: 0 <= i < |entries| && parseDate(Field(entries[i], "published")).None?
    ensures r.Some? ==> |r.value| == |entries|
    ensures r.Some? ==> forall i :: 0 <= i < |entries| ==> Some(r.value[i]) == EntryToArticle(entries[i], parseDate)
  {
    IngestWith(entries, (e: FeedEntry) => EntryToArticle(e, parseDate))
  }

  /**
   * Ingesting one more entry appends its article, or fails when its date
   * does not parse; a feed that already failed stays failed.
   */
  lemma IngestAppend(entries: seq<FeedEntry>, e: FeedEntry, parseDate: string -> Option<DateTime>)
    ensures IngestEntries(entries + [e], parseDate) ==
      match (IngestEntries(entries, parseDate), EntryToArticle(e, parseDate))
      case (Some(rs), Some(a)) => Some(rs + [a])
      case _ => None
  {
    IngestWithAppend(entries, e, (x: FeedEntry) => EntryToArticle(x, parseDate));
  }

  /** The same step for any per-entry conversion. */
  lemma IngestWithAppend<T>(entries: seq<FeedEntry>, e: FeedEntry, entry: FeedEntry -> Option<T>)
    ensures IngestWith(entries + [e], entry) ==
      match (IngestWith(entries, entry), entry(e))
      case (Some(rs), Some(a)) => Some(rs + [a])
      case _ => None
  {
    var all := entries + [e];
    assert forall i :: 0 <= i < |entries| ==> all[i] == entries[i];
    assert all[|entries|] == e;
    match (IngestWith(entries, entry), entry(e))
    case (Some(rs), Some(a)) =>
      var r := IngestWith(all, entry);
      assert r.Some?;
      assert r.value == rs + [a];
    case (None, _) =>
      var i :| 0 <= i < |entries| && entry(entries[i]).None?;
      assert all[i] == entries[i];
    case (_, None) =>
  }
}
