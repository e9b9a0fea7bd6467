/**
 * The APA-like citation string of one card. The source builds it by
 * successive appends to a local string under conditionals; here it is the
 * concatenation of those appends, one function per segment, in the order
 * the source appends them.
 */
module Apa {
  import opened BibEntry
  import opened Fields
  import opened Authors

  const DoiResolver: string := "https://doi.org/"

  /** `authorsAPA + ". "`, or nothing when the rewritten author string is empty. */
  function AuthorSegment(authors: string): (seg: string)
    ensures seg == "" <==> authors == ""
    ensures seg != "" ==> |seg| >= 3 && seg[..|seg| - 2] == RewriteAuthors(authors) && seg[|seg| - 2..] == ". "
  {
    var a := RewriteAuthors(authors);
    if a != "" then a + ". " else ""
  }

  /** `"(" + year + "). "`, or nothing without a year. */
  function YearSegment(year: string): (seg: string)
    ensures seg == "" <==> year == ""
    ensures seg != "" ==>
      && |seg| == |year| + 4 && seg[0] == '('
      && seg[1..|year| + 1] == year && seg[|year| + 1..] == "). "
  {
    if year != "" then "(" + year + "). " else ""
  }

  /** The emphasised venue with volume, issue and pages, only when a venue is known. */
  function VenueSegment(journal: string, volume: string, number: string, pages: string): (seg: string)
    ensures seg == "" <==> journal == ""
    ensures seg != "" ==>
      && |seg| >= |journal| + 10 && seg[..4] == "<em>" && seg[4..4 + |journal|] == journal
      && seg[4 + |journal|..9 + |journal|] == "</em>" && seg[|seg| - 1] == '.'
  {
    if journal != "" then
      "<em>" + journal + "</em>"
      + (if volume != "" then ", " + volume else "")
      + (if number != "" then "(" + number + ")" else "")
      + (if pages != "" then ", " + pages else "")
      + "."
    else ""
  }

  /** The trailing link: the DOI form when there is a DOI, else the plain URL. */
  function LinkSegment(doi: string, url: string): (seg: string)
    ensures seg == "" <==> doi == "" && url == ""
    ensures doi != "" ==>
      |seg| == 1 + |DoiResolver| + |doi| && seg[..1 + |DoiResolver|] == " " + DoiResolver
      && seg[1 + |DoiResolver|..] == doi
    ensures doi == "" && url != "" ==> |seg| == 1 + |url| && seg[0] == ' ' && seg[1..] == url
  {
    if doi != "" then " " + DoiResolver + doi
    else if url != "" then " " + url
    else ""
  }

  /** Authors, year and title: the part every citation has before its venue. */
  function Lead(f: Fields): (lead: string)
    ensures var p := |AuthorSegment(f.authors)| + |YearSegment(f.year)|;
      |lead| == p + |f.title| + 2 && lead[p..] == f.title + ". "
  {
    AuthorSegment(f.authors) + YearSegment(f.year) + f.title + ". "
  }

  function Citation(f: Fields): (apa: string)
    ensures var p := |AuthorSegment(f.authors)| + |YearSegment(f.year)|;
      |apa| >= p + |f.title| + 2 && apa[p..p + |f.title| + 2] == f.title + ". "
  {
    TitleKept(Lead(f), VenueSegment(f.journal, f.volume, f.number, f.pages), LinkSegment(f.doi, f.url),
      |AuthorSegment(f.authors)| + |YearSegment(f.year)|);
    Lead(f) + VenueSegment(f.journal, f.volume, f.number, f.pages) + LinkSegment(f.doi, f.url)
  }

  /** What follows position `p` of the lead stays in place when segments are appended. */
  lemma TitleKept(lead: string, v: string, l: string, p: nat)
    requires p <= |lead|
    ensures (lead + v + l)[p..|lead|] == lead[p..]
  {
  }

  /** The citation a card shows for a record's tags. */
  function EntryCitation(tags: Tags): string {
    Citation(Extract(tags))
  }

  /**
   * With no authors, year, venue or link, the citation is the title and a
   * period; volume, issue, pages, PDF and code do not matter then.
   */
  lemma TitleOnly(f: Fields)
    requires f.authors == "" && f.year == "" && f.journal == "" && f.doi == "" && f.url == ""
    ensures Citation(f) == f.title + ". "
  {
  }

  /**
   * A record holding none of author, year, journal, booktitle, doi and url
   * (or holding them empty) cites as its title, and as "Untitled. " when the
   * title is missing too.
   */
  lemma EntryTitleOnly(tags: Tags)
    requires Absent(tags, "author") && Absent(tags, "year") && Absent(tags, "journal")
    requires Absent(tags, "booktitle") && Absent(tags, "doi") && Absent(tags, "url")
    ensures EntryCitation(tags) == Extract(tags).title + ". "
    ensures Absent(tags, "title") ==> EntryCitation(tags) == "Untitled. "
    ensures DistinctKeys(tags) ==> forall i :: 0 <= i < |tags| && tags[i].0 == "title" && tags[i].1 != "" ==>
      EntryCitation(tags) == tags[i].1 + ". "
  {
    TitleOnly(Extract(tags));
  }

  /**
   * With a DOI the link is the DOI form: the URL is ignored entirely, and the
   * citation is the link-free citation followed by " https://doi.org/" + doi.
   */
  lemma DoiWinsOverUrl(f: Fields, otherUrl: string)
    requires f.doi != ""
    ensures Citation(f.(url := otherUrl)) == Citation(f)
    ensures Citation(f) == Citation(f.(doi := "", url := "")) + " " + DoiResolver + f.doi
  {
  }

  /** Without a DOI, a URL adds exactly " " + url at the end. */
  lemma UrlWithoutDoi(f: Fields)
    requires f.doi == "" && f.url != ""
    ensures Citation(f) == Citation(f.(url := "")) + " " + f.url
  {
  }

  /** Volume, issue and pages contribute nothing without a journal or booktitle. */
  lemma VenueDetailsNeedJournal(f: Fields, volume: string, number: string, pages: string)
    requires f.journal == ""
    ensures Citation(f.(volume := volume, number := number, pages := pages)) == Citation(f)
  {
  }

  /**
   * With a venue, the venue segment stands between the title and the link:
   * `<em>J</em>`, then ", volume", "(number)" and ", pages" for those present,
   * then a period.
   */
  lemma VenueSegmentShape(f: Fields)
    requires f.journal != ""
    ensures Citation(f) ==
      Citation(f.(journal := "", doi := "", url := ""))
      + ("<em>" + f.journal + "</em>"
         + (if f.volume != "" then ", " + f.volume else "")
         + (if f.number != "" then "(" + f.number + ")" else "")
         + (if f.pages != "" then ", " + f.pages else "")
         + ".")
      + LinkSegment(f.doi, f.url)
  {
    var g := f.(journal := "", doi := "", url := "");
    assert Lead(g) == Lead(f);
    assert Citation(g) == Lead(f) + [] + [];
    DropEmpty(Lead(f));
  }

  /** Appending two empty segments changes nothing. */
  lemma DropEmpty(s: string)
    ensures s + [] + [] == s
  {
  }

  /** The author segment leads the citation. */
  lemma AuthorsLead(f: Fields)
    ensures Citation(f) == AuthorSegment(f.authors) + Citation(f.(authors := ""))
  {
    var g := f.(authors := "");
    var y, t := YearSegment(f.year), f.title + ". ";
    var v, l := VenueSegment(f.journal, f.volume, f.number, f.pages), LinkSegment(f.doi, f.url);
    CitationParts(f);
    CitationParts(g);
    assert AuthorSegment(g.authors) == [];
    Regroup(AuthorSegment(f.authors), y, t, v, l);
  }

  /**
   * A journal article by two authors with a volume, pages and a DOI, such as
   * "A, B. (2020). X. <em>J</em>, 3, 1-10. https://doi.org/10.1/xyz".
   */
  lemma JournalArticle(f: Fields, a: string, b: string)
    requires SpaceFree(a) && SpaceFree(b) && f.authors == a + " and " + b
    requires f.year != "" && f.journal != "" && f.volume != "" && f.number == "" && f.pages != ""
    requires f.doi != ""
    ensures Citation(f) ==
      (a + ", " + b + ". ") + ("(" + f.year + "). ") + (f.title + ". ")
      + ("<em>" + f.journal + "</em>" + ", " + f.volume + ", " + f.pages + ".")
      + (" " + DoiResolver + f.doi)
  {
    TwoAuthors(a, b);
    assert AuthorSegment(f.authors) == a + ", " + b + ". ";
    VenueWithVolumeAndPages(f.journal, f.volume, f.pages);
    CitationParts(f);
  }

  /** The venue segment without an issue number. */
  lemma VenueWithVolumeAndPages(j: string, v: string, p: string)
    requires j != "" && v != "" && p != ""
    ensures VenueSegment(j, v, "", p) == "<em>" + j + "</em>" + ", " + v + ", " + p + "."
  {
    var e := "<em>" + j + "</em>" + ", " + v;
    assert e + "" == e;
  }

  /** The citation laid out segment by segment. */
  lemma CitationParts(f: Fields)
    ensures Citation(f) ==
      AuthorSegment(f.authors) + YearSegment(f.year) + (f.title + ". ")
      + VenueSegment(f.journal, f.volume, f.number, f.pages) + LinkSegment(f.doi, f.url)
  {
  }

  /** With the authors gone, the year segment leads, and the title with its period follows. */
  lemma YearThenTitle(f: Fields)
    requires f.authors == ""
    ensures Citation(f) == YearSegment(f.year) + Citation(f.(year := ""))
    ensures Citation(f.(year := "")) ==
      f.title + ". " + VenueSegment(f.journal, f.volume, f.number, f.pages) + LinkSegment(f.doi, f.url)
  {
    var v, l := VenueSegment(f.journal, f.volume, f.number, f.pages), LinkSegment(f.doi, f.url);
    var y, t := YearSegment(f.year), f.title + ". ";
    assert AuthorSegment("") == [];
    assert Citation(f) == [] + y + t + v + l;
    assert Citation(f.(year := "")) == [] + [] + t + v + l;
    RegroupYear(y, t, v, l);
  }

  /** An author string without separator appears unchanged before its period. */
  lemma PlainAuthorsUnchanged(f: Fields)
    requires f.authors != "" && !HasSeparator(f.authors)
    ensures AuthorSegment(f.authors) == f.authors + ". "
    ensures Citation(f)[..|f.authors| + 2] == f.authors + ". "
  {
    RewriteUnchangedIff(f.authors);
    AuthorsLead(f);
  }

  /** Concatenation regrouped around a leading segment. */
  lemma Regroup(a: string, y: string, t: string, v: string, l: string)
    ensures a + y + t + v + l == a + ([] + y + t + v + l)
  {
  }

  /** Concatenation regrouped around the year segment. */
  lemma RegroupYear(y: string, t: string, v: string, l: string)
    ensures [] + y + t + v + l == y + ([] + [] + t + v + l)
    ensures [] + [] + t + v + l == t + v + l
  {
  }
}
