/** Plain-text e-mail bodies for one newsletter or a list of them. */
module Formatter {
  import opened Wrappers
  import opened Records

  /** What separates two formatted newsletters in a combined e-mail. */
  const Separator := "\n\n---\n\n"

  /** The value of the `URL:` line: the url, or `N/A` when it is absent or empty. */
  function UrlShown(url: Option<string>): (r: string)
    ensures r != ""
    ensures url.Some? && url.value != "" ==> r == url.value
    ensures r == "N/A" <==> url.None? || url.value == "" || url.value == "N/A"
  {
    if url.Some? && url.value != "" then url.value else "N/A"
  }

  /** The e-mail text from its four parts, already rendered as strings. */
  function EmailText(title: string, date: string, url: string, content: string): string
  {
    "Subject: " + title + "\n"
    + "Date: " + date + "\n"
    + "URL: " + url + "\n"
    + "\n" + content + "\n"
  }

  /**
   * Each line of the e-mail sits at an offset fixed by the lengths of the
   * parts before it.
   */
  lemma EmailLayout(title: string, date: string, url: string, content: string)
    ensures var r := EmailText(title, date, url, content);
      var d := |title| + 10;
      var u := d + |date| + 7;
      var c := u + |url| + 6;
      && |r| == c + |content| + 2
      && r[..d] == "Subject: " + title + "\n"
      && r[d..u] == "Date: " + date + "\n"
      && r[u..c] == "URL: " + url + "\n"
      && r[c..] == "\n" + content + "\n"
  {
    var subject := "Subject: " + title + "\n";
    var dateLine := "Date: " + date + "\n";
    var urlLine := "URL: " + url + "\n";
    var body := "\n" + content + "\n";
    var r := EmailText(title, date, url, content);
    assert r == subject + dateLine + urlLine + body;
    assert (subject + dateLine + urlLine)[..|subject| + |dateLine|] == subject + dateLine;
  }

  /**
   * One newsletter as an e-mail: the subject, date and URL lines, a blank
   * line, then the content. `formatDate` renders the timestamp the way
   * `strftime('%A, %d %B %Y %H:%M')` does.
   */
  function FormatForEmail(n: Newsletter, formatDate: DateTime -> string): (r: string)
    ensures var d := |n.title| + 10;
      var u := d + |formatDate(n.publicationDate)| + 7;
      var c := u + |UrlShown(n.url)| + 6;
      && |r| == c + |n.content| + 2
      && r[..d] == "Subject: " + n.title + "\n"
      && r[d..u] == "Date: " + formatDate(n.publicationDate) + "\n"
      && r[u..c] == "URL: " + UrlShown(n.url) + "\n"
      && r[c..] == "\n" + n.content + "\n"
  {
    EmailLayout(n.title, formatDate(n.publicationDate), UrlShown(n.url), n.content);
    EmailText(n.title, formatDate(n.publicationDate), UrlShown(n.url), n.content)
  }

  /**
   * The e-mail can be read back: two e-mails that are equal, for titles,
   * rendered dates and shown URLs of equal lengths, have the same title,
   * date line, URL line and content.
   */
  lemma EmailDeterminesFields(n1: Newsletter, n2: Newsletter, formatDate: DateTime -> string)
    requires |n1.title| == |n2.title|
    requires |formatDate(n1.publicationDate)| == |formatDate(n2.publicationDate)|
    requires |UrlShown(n1.url)| == |UrlShown(n2.url)|
    requires FormatForEmail(n1, formatDate) == FormatForEmail(n2, formatDate)
    ensures n1.title == n2.title && n1.content == n2.content
    ensures formatDate(n1.publicationDate) == formatDate(n2.publicationDate)
    ensures UrlShown(n1.url) == UrlShown(n2.url)
  {
    var e := FormatForEmail(n1, formatDate);
    var d := |n1.title| + 10;
    assert ("Subject: " + n1.title + "\n")[9..d - 1] == n1.title;
    assert ("Subject: " + n2.title + "\n")[9..d - 1] == n2.title;
    var u := d + |formatDate(n1.publicationDate)| + 7;
    assert ("Date: " + formatDate(n1.publicationDate) + "\n")[6..u - d - 1] == formatDate(n1.publicationDate);
    assert ("Date: " + formatDate(n2.publicationDate) + "\n")[6..u - d - 1] == formatDate(n2.publicationDate);
    var c := u + |UrlShown(n1.url)| + 6;
    assert ("URL: " + UrlShown(n1.url) + "\n")[5..c - u - 1] == UrlShown(n1.url);
    assert ("URL: " + UrlShown(n2.url) + "\n")[5..c - u - 1] == UrlShown(n2.url);
    assert ("\n" + n1.content + "\n")[1..|n1.content| + 1] == n1.content;
    assert ("\n" + n2.content + "\n")[1..|n2.content| + 1] == n2.content;
  }

  /** Python's `sep.join(blocks)`. */
  function Join(blocks: seq<string>, sep: string): string
  {
    if blocks == [] then ""
    else if |blocks| == 1 then blocks[0]
    else blocks[0] + sep + Join(blocks[1..], sep)
  }

  /** A join of blocks starts with the first block and ends with the last one. */
  lemma {:induction false} JoinEnds(blocks: seq<string>, sep: string)
    requires blocks != []
    ensures var r := Join(blocks, sep);
      && |blocks[0]| <= |r| && r[..|blocks[0]|] == blocks[0]
      && |blocks[|blocks| - 1]| <= |r| && r[|r| - |blocks[|blocks| - 1]|..] == blocks[|blocks| - 1]
  {
    if |blocks| > 1 {
      var rest := Join(blocks[1..], sep);
      JoinEnds(blocks[1..], sep);
      assert Join(blocks, sep) == blocks[0] + sep + rest;
      assert (blocks[0] + sep + rest)[..|blocks[0]|] == blocks[0];
      assert (blocks[0] + sep + rest)[|blocks[0]| + |sep|..] == rest;
    }
  }

  /** Joining one more block adds exactly one separator and that block at the end. */
  lemma {:induction false} JoinAppend(blocks: seq<string>, b: string, sep: string)
    requires blocks != []
    ensures Join(blocks + [b], sep) == Join(blocks, sep) + sep + b
  {
    if |blocks| == 1 {
      assert (blocks + [b])[1..] == [b];
    } else {
      assert (blocks + [b])[1..] == blocks[1..] + [b];
      JoinAppend(blocks[1..], b, sep);
    }
  }

  /** The formatted blocks, one per newsletter, in input order. */
  function Blocks(ns: seq<Newsletter>, formatDate: DateTime -> string): (r: seq<string>)
    ensures |r| == |ns|
    ensures forall i :: 0 <= i < |ns| ==> r[i] == FormatForEmail(ns[i], formatDate)
  {
    seq(|ns|, i requires 0 <= i < |ns| => FormatForEmail(ns[i], formatDate))
  }

  /** All the newsletters' e-mails, separated by a `---` line. */
  function FormatMultiple(ns: seq<Newsletter>, formatDate: DateTime -> string): (r: string)
    ensures ns == [] ==> r == ""
    ensures |ns| == 1 ==> r == FormatForEmail(ns[0], formatDate)
  {
    Join(Blocks(ns, formatDate), Separator)
  }

  /**
   * A list of k+1 newsletters formats as the first k, the separator and the
   * last one's e-mail: by induction, the k blocks in input order joined by
   * the separator.
   */
  lemma FormatMultipleAppend(ns: seq<Newsletter>, n: Newsletter, formatDate: DateTime -> string)
    requires ns != []
    ensures FormatMultiple(ns + [n], formatDate)
      == FormatMultiple(ns, formatDate) + Separator + FormatForEmail(n, formatDate)
  {
    assert Blocks(ns + [n], formatDate) == Blocks(ns, formatDate) + [FormatForEmail(n, formatDate)];
    JoinAppend(Blocks(ns, formatDate), FormatForEmail(n, formatDate), Separator);
  }
}
