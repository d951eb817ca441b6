# Smart newsletter dashboard, modelled in Dafny

This project models the logic of a small newsletter dashboard written in
Python. The dashboard reads articles from an RSS feed, tags them with filters,
lets the reader select and export them, and groups them by similarity. The
model covers the parts that work without the UI or the network:

- **Dashboard filters** (`app.py`). `Dashboard` models them.
  - The date and keyword filter writers. Each records a result in every
    article's `filters` map, in place.
  - The AND-composition that decides which articles are shown.
  - The sorted list of filter names offered for selection.
  - The per-tag view.
  - Select all / deselect all, and the list the export writes.
- **AI tagger** (`src/llm_tagging.py`). `LlmTagging` models it.
  - The prompt layout.
  - Provider selection from the chosen name and the credentials.
  - The fallback records written when no provider is usable or a call fails.
  - Coercion of the reported confidence.
  - The batch loop. It visits at most 30 articles, sends only those that
    passed the date filter, writes each verdict under the filter key, and
    reports progress.
- **Greedy grouping** (`src/grouping.py`). `Grouping` models it over a given
  similarity matrix.
- **Stores.** Three in-memory stores of subscriptions, newsletters and users.
  Each is a class over a list field that its methods append to, overwrite and
  delete from.
- **Feed text handling** (`src/ingest.py`). `Ingest` models it.
  - Removal of HTML tags.
  - Title cleaning.
  - Extraction of the domain from a link.
  - The ingest loop: the field defaults each feed entry gets, the parsed
    date, and the record built from them. As written the loop passes the
    record a field it does not have (see Findings); the model proves that
    and also models the evidently intended loop.
- **E-mail formatter** (`src/formatter.py`). `Formatter` models it.

State that the source changes in place stays in place:

- An article is a `class` whose `filters` map and `userSelected` flag the
  filter writers, the AI batch and the selection methods assign.
- Each store is a `class` whose list field its methods reassign.

Each such method's postcondition gives the new state in terms of a
specification function of the old state. The properties of that function are
proved as lemmas. Examples: first-match search and removal for the stores, the
`Kept` filter for the dashboard, the `GreedyGrouping` predicate for the
grouping. Pure code becomes functions with lemmas about them.

The following become parameters:

- The provider call, including its `json.loads`, is a function from the
  provider and prompt to a parsed object or an error text.
- Python's `float()` is a partial function.
- The cosine similarity matrix is a given matrix.
- Date parsing and `strftime` formatting are given functions.

Timestamps carry a calendar day number. That number is what the date filter
compares.

Where the code and its documentation disagree, the model follows the code.

- `filter_newsletters_with_ai` is documented as returning the filtered list.
  The code returns nothing, so the model returns only the progress values it
  reports.
- The offered filter names are sorted with `sorted`. The model sorts them in
  code-point order.

## Model

| member | source | states |
|---|---|---|
| Articles.Article.constructor | app.py:150-151 | a new article has no filters and is not selected |
| Dashboard.InDateRange | app.py:53-56 | a day is accepted iff it is on or after the start (when given) and on or before the end (when given): no bounds accept every day, a start after the end accepts none, a one-day range accepts its day |
| Dashboard.NarrowerRange | app.py:53-56 | a range inside another accepts only days the outer one accepts |
| Dashboard.ApplyDateFilter | app.py:50-56 | every listed article's filters gain the range verdict under `date_filter`, and its other filters are unchanged |
| Dashboard.Lower | app.py:62-65 | lower-casing keeps the length and maps each character on its own |
| Dashboard.KeywordVerdict | app.py:65-66 | the keyword record has exactly the `match` field, and it holds iff the lower-cased keyword occurs in the lower-cased title |
| Dashboard.LiteralOccurrenceMatches | app.py:62-65 | a title that contains the keyword as typed matches it |
| Dashboard.MatchIgnoresCase | app.py:62-65 | titles that differ only in ASCII case match the same keywords, and a keyword matches what its lower-cased form matches |
| Dashboard.LowerIdempotent | app.py:62-65 | lower-casing twice is lower-casing once |
| Dashboard.ApplyKeywordFilter | app.py:61-67 | every listed article's filters gain the keyword record under the keyword as typed, other filters are unchanged, and the same list is returned |
| Articles.Holds | app.py:116-118 | a filter value holds iff it is exactly `True`, or a record whose `match` is exactly `True`: `False`, a record with another `match` value, and a record without `match` do not |
| Dashboard.PassesAll | app.py:116-120 | the empty selection passes; a selected name that is missing or whose value does not hold fails the article; an article for which every selected name is present and holds passes |
| Dashboard.KeptMembers | app.py:114-122 | an article is kept iff it is listed and every selected name is present and holds for it |
| Dashboard.KeptIsSubsequence | app.py:114-122 | the kept articles are a subsequence of the list: order is preserved |
| Dashboard.KeptNothingSelected | app.py:111-113 | with nothing selected every article is kept |
| Dashboard.KeptAntitone | app.py:116-121 | selecting more names keeps a subsequence of what fewer names keep |
| Dashboard.FilterArticles | app.py:111-122 | returns the input list when nothing is selected, otherwise exactly the kept articles in order |
| Dashboard.OfferedFilterNames | app.py:102-108 | the offered names are strictly sorted and are exactly the keys present in some article's filters |
| Dashboard.ArticlesByTag | app.py:7-17 | the articles shown under a tag are the ones kept by the one-name selection, and the count is their number |
| Dashboard.ShownUnderTag | app.py:8-12 | an article is shown under a tag iff it is listed, has the tag and its value there holds |
| Dashboard.SetAllSelected | app.py:165-170 | every filtered article ends with the flag given (true for select all, false for deselect all) |
| Dashboard.ExportSelection | app.py:178 | the export list is no longer than the list shown and holds only selected articles |
| Dashboard.ExportMembers | app.py:178 | an article is exported iff it is listed and selected |
| Dashboard.ExportIsSubsequence | app.py:178 | the export keeps the order of the list |
| Dashboard.SelectAllThenExport | app.py:165-178 | after select all, every shown article is exported and nothing unlisted is |
| Sorting.LessIrreflexive | app.py:108 | string order is irreflexive |
| Sorting.LessTransitive | app.py:108 | string order is transitive |
| Sorting.LessTotal | app.py:108 | two different strings are ordered one way or the other |
| Sorting.InsertSorted | app.py:108 | inserting a new name into a sorted list gives a sorted list of the old names plus it |
| Sorting.SortStrings | app.py:108 | `sorted` of a set is strictly increasing and holds exactly the set's elements |
| Sequences.FindKey | src/user_store.py:12-16 | the search finds the first position whose key matches, or none when no element matches |
| Sequences.Lookup | src/newsletter_store.py:11-15 | the element found has the key and sits at a position before which no element has the key; none is found iff no element has the key |
| Sequences.RemoveAt | src/subscription_store.py:30 | deleting a position keeps the elements before it and shifts those after it down by one |
| Sequences.FindKeyIs | src/user_store.py:12-16 | a matching position with no earlier match is what the search finds |
| Sequences.FindAfterAppend | src/user_store.py:9-16 | after an append, a search for the new element's key finds an earlier match if there was one, otherwise the new element at the end |
| Sequences.FindAfterAppendOther | src/user_store.py:9-16 | appending an element with another key changes no search result |
| Sequences.FindAfterReplace | src/user_store.py:18-23 | after an update, the search finds the replacement at the same position |
| Sequences.FindAfterRemove | src/user_store.py:25-30 | after a delete, the search finds the next duplicate (shifted down by one) or nothing |
| SubscriptionStore.SubscriptionStore.constructor | src/subscription_store.py:6-7 | a new store is empty |
| SubscriptionStore.SubscriptionStore.Create | src/subscription_store.py:9-10 | the subscription is appended and the earlier ones are unchanged |
| SubscriptionStore.SubscriptionStore.Read | src/subscription_store.py:12-16 | returns the first subscription with that user e-mail and newsletter title, or none |
| SubscriptionStore.SubscriptionStore.Update | src/subscription_store.py:18-25 | true iff there is a match; then the first match is replaced in place, otherwise nothing changes |
| SubscriptionStore.SubscriptionStore.Delete | src/subscription_store.py:27-32 | true iff there is a match; then the first match is removed and the rest keep their order, otherwise nothing changes |
| SubscriptionStore.SubscriptionStore.ListAll | src/subscription_store.py:34-35 | the copy equals the contents |
| NewsletterStore.NewsletterStore.constructor | src/newsletter_store.py:5-6 | a new store is empty |
| NewsletterStore.NewsletterStore.Create | src/newsletter_store.py:8-9 | the newsletter is appended and the earlier ones are unchanged |
| NewsletterStore.NewsletterStore.Read | src/newsletter_store.py:11-15 | returns the first newsletter with that title, or none |
| NewsletterStore.NewsletterStore.Update | src/newsletter_store.py:17-22 | true iff the title is found; then the first match is replaced in place, whatever the replacement's own title, otherwise nothing changes |
| NewsletterStore.NewsletterStore.Delete | src/newsletter_store.py:24-29 | true iff the title is found; then the first match is removed and the rest keep their order, otherwise nothing changes |
| NewsletterStore.NewsletterStore.ListAll | src/newsletter_store.py:31-32 | the copy holds the same elements in the same order |
| UserStore.UserStore.constructor | src/user_store.py:6-7 | a new store is empty |
| UserStore.UserStore.Create | src/user_store.py:9-10 | the user is appended without a duplicate check |
| UserStore.UserStore.Read | src/user_store.py:12-16 | returns the first user with that e-mail, or none |
| UserStore.UserStore.Update | src/user_store.py:18-23 | true iff the e-mail is found; then the first match is replaced in place, otherwise nothing changes |
| UserStore.UserStore.Delete | src/user_store.py:25-30 | true iff the e-mail is found; then the first match is removed and the other users keep their order, otherwise nothing changes |
| UserStore.UserStore.ListAll | src/user_store.py:32-33 | the copy equals the contents |
| Formatter.UrlShown | src/formatter.py:9 | the URL line shows the url when it is present and non-empty, and `N/A` when it is absent or empty |
| Formatter.EmailLayout | src/formatter.py:5-11 | the subject, date and URL lines and the blank line with the content each sit at an offset fixed by the lengths of the parts before them |
| Formatter.FormatForEmail | src/formatter.py:5-11 | the e-mail is the `Subject: ` line with the title, the `Date: ` line with the formatted date, the `URL: ` line with the shown url, then a blank line, the content and a newline, each at its offset |
| Formatter.EmailDeterminesFields | src/formatter.py:5-11 | the e-mail determines the title, date line, url shown and content, given the lengths of the first three |
| Formatter.JoinEnds | src/formatter.py:15 | a join of blocks starts with the first block and ends with the last |
| Formatter.JoinAppend | src/formatter.py:15 | joining one more block adds exactly one separator and that block at the end |
| Formatter.Blocks | src/formatter.py:15 | one formatted block per newsletter, in input order |
| Formatter.FormatMultiple | src/formatter.py:14-15 | no newsletters give the empty text, and one newsletter gives its own e-mail |
| Formatter.FormatMultipleAppend | src/formatter.py:14-15 | k+1 newsletters give the first k, the separator, then the last one's e-mail: the blocks in order, joined by the separator |
| Ingest.IndexOf | src/ingest.py:15 | finds the first position from a start that holds the character, or reports there is none |
| Ingest.TagLength | src/ingest.py:15 | a tag starts at the front iff it opens with `<`, its next character is not `>`, and a `>` follows; the tag found ends at the first such `>` |
| Ingest.StripHtmlTags | src/ingest.py:14-15 | the output is never longer than the input and has only the input's characters |
| Ingest.StripIsSubsequence | src/ingest.py:14-15 | the output is the input with some characters deleted, order kept |
| Ingest.StripTagFree | src/ingest.py:15 | text in which no tag starts is returned unchanged |
| Ingest.StripOutputTagFree | src/ingest.py:15 | no tag starts anywhere in the output |
| Ingest.StripIdempotent | src/ingest.py:14-15 | stripping twice equals stripping once |
| Ingest.StripWithoutTags | src/ingest.py:15 | text without `<` is unchanged, and so is `<>`, which is not a tag |
| Ingest.RemoveStat | src/ingest.py:21 | deleting the marker never lengthens the text |
| Ingest.RemoveStatShort | src/ingest.py:21 | text shorter than the marker is left as it is |
| Ingest.RemoveStatMarkerFree | src/ingest.py:21 | text in which the marker occurs nowhere is left unchanged |
| Ingest.RemoveStatIsSubsequence | src/ingest.py:21 | the output is the input with some characters deleted, order kept |
| Ingest.MarkerCanReform | src/ingest.py:21 | deleting `STAT+:` from `STSTAT+:AT+:` leaves `STAT+:`: one pass of deletion can form a new marker |
| Ingest.CleanedTitleCanBeMarker | src/ingest.py:18-21 | cleaning the title `STSTAT+:AT+:` gives exactly `STAT+:`, so a cleaned title may still contain the marker |
| Ingest.LeadingSpaces | src/ingest.py:21 | counts exactly the whitespace run at the front: all spaces, and then the end or a non-space |
| Ingest.TrailingSpaces | src/ingest.py:21 | counts exactly the whitespace run at the end: all spaces, preceded by the start or a non-space |
| Ingest.Trim | src/ingest.py:21 | the stripped text is no longer than the input and is empty or starts and ends with a non-space |
| Ingest.TrimSpan | src/ingest.py:21 | the stripped text is the slice of the input after its leading spaces, and only spaces come before and after it |
| Ingest.CleanTitle | src/ingest.py:18-21 | the cleaned title is no longer than the raw one and has no whitespace at either end |
| Ingest.SchemeLength | src/ingest.py:65 | recognises `https://` or `http://` at the front and nothing else |
| Ingest.HostPrefix | src/ingest.py:65 | takes the longest `/`-free prefix: it stops at the end or just before a `/` |
| Ingest.DomainAt | src/ingest.py:65 | a match at the front exists iff a scheme is there and a non-empty `/`-free run follows it; the domain is that whole run, ended by the end of the text or a `/` |
| Ingest.FirstWhere | src/ingest.py:65 | finds the least position in the range with the property, or reports there is none |
| Ingest.ExtractDomain | src/ingest.py:65 | the domain is the capture of the leftmost match, and is absent iff the pattern matches nowhere; a domain is non-empty and has no `/` |
| Ingest.MakeNewsletter | src/newsletter.py:5-10 | the record's constructor succeeds iff the keywords include title, content and publication date and are all fields of the record; it then holds the title, content and date given, and the url given when `url` is passed, `None` when it is not |
| Ingest.IngestWith | src/ingest.py:56-88 | the loop yields one value per entry in feed order iff no entry raises |
| Ingest.EntryAsWritten | src/ingest.py:59-85 | an entry as written never yields a record: either the date does not parse or the constructor rejects the `domain` keyword |
| Ingest.AsWrittenFailsOnEveryFeed | src/ingest.py:56-88 | the ingest as written returns the empty list for an empty feed and raises for every other feed |
| Ingest.EntryToArticle | src/ingest.py:59-85 | fails iff the `published` text does not parse; otherwise the title is the cleaned title (empty when missing), the content the summary, the date the parsed one, the url the link, and the domain the one extracted from the link |
| Ingest.IngestEntries | src/ingest.py:56-88 | fails iff some entry's date does not parse; otherwise one article per entry, in feed order, each the entry's article |
| Ingest.IngestAppend | src/ingest.py:57-85 | one more entry appends its article, or fails the ingest when its date does not parse; a failed ingest stays failed |
| Ingest.IngestWithAppend | src/ingest.py:57-85 | the same step holds for any per-entry conversion |
| LlmTagging.LayoutOf | src/llm_tagging.py:23-28 | a prompt has the instructions first and the output format last; the filter text and the article sit at fixed offsets, so both can be read back |
| LlmTagging.PromptLayout | src/llm_tagging.py:13-28 | the prompt sent opens with the system instruction, ends with the output instruction, and holds the filter and the article at fixed offsets |
| LlmTagging.LayoutInjective | src/llm_tagging.py:23-28 | equal prompts for filters of equal length come from the same filter and article |
| LlmTagging.PromptDeterminesInputs | src/llm_tagging.py:13-28 | the prompt sent determines the filter (given its length) and the article |
| LlmTagging.SelectProvider | src/llm_tagging.py:29-104 | each provider is chosen iff its name matches exactly and its credentials are present (Vertex AI needs project and location, Ollama a URL); a chosen provider carries the name given |
| LlmTagging.Refusal | src/llm_tagging.py:103-104 | a fallback record has exactly `match`, `confidence` and `reason`, with `match` false, `confidence` 0.0 and the reason given |
| LlmTagging.CoerceConfidence | src/llm_tagging.py:41-45 | only `confidence` changes: when present it becomes the float conversion, or 0.0 when conversion fails, and an absent one stays absent |
| LlmTagging.CoerceIdempotent | src/llm_tagging.py:41-45 | coercing twice is coercing once when `float` of a number is that number |
| LlmTagging.AiNewsletterFilter | src/llm_tagging.py:4-104 | no usable provider gives the no-provider refusal; a failed call gives a refusal naming the provider and the error; a successful call gives the answer with its confidence coerced |
| LlmTagging.OnlySelectedProviderAsked | src/llm_tagging.py:29-104 | only the selected provider is asked, and only with the full prompt |
| LlmTagging.MatchNeedsAnswer | src/llm_tagging.py:29-104 | a matching verdict comes from a successful answer of the selected provider |
| LlmTagging.Eligible | src/llm_tagging.py:114 | an article is sent iff `pass_date` is on and its `date_filter` is exactly `True`; a missing date filter, or a record there even with `match` true, is not sent |
| LlmTagging.ContextLayout | src/llm_tagging.py:115 | the context is `Title: `, the title, `\nContent: `, the content and a newline, each at its offset |
| LlmTagging.ContextDeterminesArticle | src/llm_tagging.py:115 | the context determines the title and the content, given the title's length |
| LlmTagging.Visited | src/llm_tagging.py:111 | the batch visits the whole list or 30 articles, whichever is fewer |
| LlmTagging.ProgressRange | src/llm_tagging.py:110-127 | every progress value is positive and at most the fraction of the whole list visited so far |
| LlmTagging.ProgressIncreasing | src/llm_tagging.py:111-127 | the progress values strictly increase |
| LlmTagging.ProgressBounds | src/llm_tagging.py:110-127 | every progress value lies in (0, 1] |
| LlmTagging.ProgressBelowOne | src/llm_tagging.py:110-127 | when the list is longer than the part visited, progress never reaches 1 |
| LlmTagging.NoProgressWithoutPassDate | src/llm_tagging.py:114-127 | with `pass_date` off no article is sent and no progress is reported |
| LlmTagging.TagArticle | src/llm_tagging.py:112-129 | an article whose date flag is exactly true (with `pass_date` on) gets the provider's verdict under the key, any other gets the filtered-out record; other filters are unchanged, and the result says whether it was sent |
| LlmTagging.FilterNewslettersWithAi | src/llm_tagging.py:105-131 | each of the first 30 articles gets its verdict under the key with its other filters kept; later articles are untouched; the progress reported is `(idx + 1) / total` after each sent article |
| Grouping.GroupBySimilarity | src/grouping.py:8-25 | the result is the greedy grouping of the matrix at the threshold |
| Grouping.GrowGroup | src/grouping.py:17-22 | the group starts at the seed, increases, and holds exactly the later free indices more similar to the seed than the threshold; all of them are marked taken |
| Grouping.NewGroup | src/grouping.py:14-23 | a group grown from the first free index is the next greedy group, and the earlier groups are unchanged |
| Grouping.ClaimedMembers | src/grouping.py:13-22 | an index is marked taken iff some group holds it |
| Grouping.MembersOf | src/grouping.py:19-22 | a group's members are its seed and exactly the indices that join that seed |
| Grouping.Partition | src/grouping.py:13-23 | every index lies in exactly one group, and nothing else lies in any |
| Grouping.SeedsIncrease | src/grouping.py:14-18 | seeds strictly increase with the group id |
| Grouping.SeedAtLeastId | src/grouping.py:14-25 | the seed of group g is at least g |
| Grouping.GroupCount | src/grouping.py:11-25 | no items give no groups; otherwise there are between one and n groups |
| Grouping.AllSingletons | src/grouping.py:19-22 | when no pair exceeds the threshold, every item is its own group, in index order |
| Grouping.OneGroup | src/grouping.py:14-22 | when every item is similar enough to the first, there is one group of all items in order |
| Grouping.Unique | src/grouping.py:8-25 | the greedy grouping is determined by the matrix and the threshold |
| Grouping.TestExample | tests/test_grouping.py:9-13 | the test's five items at threshold 0.95 form the groups [0,1,2] and [3,4], of sizes three and two |
| Grouping.ChainNotTransitive | src/grouping.py:19-22 | with similarities 0.85, 0.85 and 0.5 (a matrix unit vectors can realise) at threshold 0.8, item 2 is similar to item 1 yet ends in a group of its own |

## Left out

- The Streamlit UI is not modelled: widgets, session state, progress-bar rendering, `st.write` output, and the expander layout of the per-tag view.
- The CSV export's pandas frame and download button are not modelled; only the list of exported articles is.
- Logging is not modelled.
- The provider SDK calls and `json.loads` are a parameter, because they are foreign calls.
  - A parsed result that is not a JSON object is not represented.
  - Nor is the OpenAI system message sent next to the prompt.
- Python's `float()` is a parameter. Numbers are exact reals, with no floating-point rounding.
- The embeddings and cosine similarity are not modelled, because they are floating-point numerics. Grouping takes a similarity matrix instead.
  - The concrete matrix of the grouping test holds the cosines rounded to five places.
- `web_search`, feed parsing, date parsing, fetching dates from web pages and `strftime` are not modelled. They are network I/O, or they become parameters.
- A publication date is compared as a calendar day number. Time zones and clock times are not modelled.
- Dashboard.Lower: lower-cases ASCII letters only; Unicode case mapping is not modelled.
- Ingest.IsSpace: uses a fixed table of the characters Python's `str.isspace` accepts.
- Ingest.EntryToArticle: date parsing is a parameter that yields `None` where `dateutil`'s parser raises (for instance on the empty text a missing `published` gives); the whole ingest then fails, as the exception ends the call.
- Ingest.EntryToArticle: a missing `summary` or `link` reads as the empty text, like `entry.get(key, "")`; a url is therefore always present.
- Ingest.IngestEntries: models the evidently intended ingest, which keeps the domain beside the record; the ingest as written is Ingest.EntryAsWritten (see Findings).
- LlmTagging.FilterNewslettersWithAi: requires that no article object occurs twice in the list. With an aliased article, a later visit would read a `date_filter` written by an earlier one.
- Articles.Article.constructor: a fresh article starts with an empty `filters` map and `userSelected` false. The `Newsletter` record (src/newsletter.py:5-10) has neither attribute. `user_selected` is added under a `hasattr` check (app.py:150-151), but `n.filters or {}` (app.py:52, src/llm_tagging.py:112) reads an attribute that is absent on a freshly ingested record and raises `AttributeError`; the model does not capture that failure. A `filters` of `None` is modelled as the empty map, as `or {}` treats it.
- Dashboard.SetAllSelected: one method models both select all and deselect all, since their loops differ only in the value written.
- The per-article checkbox loop of the display is not modelled. It copies UI state into `user_selected`.
- Grouping.GroupBySimilarity: the dictionary from group id to group is a sequence indexed by id.
- Grouping.GrowGroup and LlmTagging.TagArticle are the inner loop and the loop body of the source's functions, written as separate methods.

## Findings

| source | as written | input that shows it | evidently intended | confidence | as-written member | corrected member |
|---|---|---|---|---|---|---|
| src/ingest.py:78-84 | `Newsletter(..., domain=...)` is called, but the record (src/newsletter.py:5-10) has no `domain` field, so the call raises `TypeError` | any feed with one entry whose `published` date parses | keep the parsed domain beside the record | high; not executed | Ingest.AsWrittenFailsOnEveryFeed | Ingest.IngestEntries |
