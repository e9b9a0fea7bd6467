/**
 * Field extraction with fallbacks: the block of `const x = tags.x || ...`
 * declarations at the top of each card. `title` defaults to "Untitled",
 * `journal` falls back to `booktitle`, `code` to `github`, and every other
 * field defaults to the empty string.
 */
module Fields {
  import opened BibEntry

  datatype Fields = Fields(
    title: string, authors: string, year: string,
    journal: string, volume: string, number: string, pages: string,
    url: string, pdf: string, code: string, doi: string)

  const Untitled: string := "Untitled"

  /**
   * Independent reading of `tags.k || dflt`: `v` is the non-empty value the
   * record holds for `k`, or `dflt` when `k` is absent or empty.
   */
  ghost predicate Resolves(tags: Tags, k: string, dflt: string, v: string) {
    || (v != "" && Holds(tags, k, v))
    || (Absent(tags, k) && v == dflt)
  }

  /** Independent reading of `tags.k1 || tags.k2 || dflt`. */
  ghost predicate ResolvesEither(tags: Tags, k1: string, k2: string, dflt: string, v: string) {
    || (v != "" && Holds(tags, k1, v))
    || (Absent(tags, k1) && Resolves(tags, k2, dflt, v))
  }

  /** JavaScript `a || b` on strings. */
  function OrElse(a: string, b: string): (r: string)
    ensures r == a || r == b
    ensures r == "" <==> a == "" && b == ""
    ensures a != "" ==> r == a
  {
    if a != "" then a else b
  }

  function Extract(tags: Tags): (f: Fields)
    ensures f.title != ""
    ensures DistinctKeys(tags) ==>
      && Resolves(tags, "title", Untitled, f.title)
      && Resolves(tags, "author", "", f.authors)
      && Resolves(tags, "year", "", f.year)
      && ResolvesEither(tags, "journal", "booktitle", "", f.journal)
      && Resolves(tags, "volume", "", f.volume)
      && Resolves(tags, "number", "", f.number)
      && Resolves(tags, "pages", "", f.pages)
      && Resolves(tags, "url", "", f.url)
      && Resolves(tags, "pdf", "", f.pdf)
      && ResolvesEither(tags, "code", "github", "", f.code)
      && Resolves(tags, "doi", "", f.doi)
  {
    Fields(
      title := OrElse(Lookup(tags, "title"), Untitled),
      authors := Lookup(tags, "author"),
      year := Lookup(tags, "year"),
      journal := OrElse(Lookup(tags, "journal"), Lookup(tags, "booktitle")),
      volume := Lookup(tags, "volume"),
      number := Lookup(tags, "number"),
      pages := Lookup(tags, "pages"),
      url := Lookup(tags, "url"),
      pdf := Lookup(tags, "pdf"),
      code := OrElse(Lookup(tags, "code"), Lookup(tags, "github")),
      doi := Lookup(tags, "doi"))
  }

  /** With distinct keys, `tags.k || dflt` has one reading only. */
  lemma ResolvesUnique(tags: Tags, k: string, dflt: string, v: string, w: string)
    requires DistinctKeys(tags)
    requires Resolves(tags, k, dflt, v) && Resolves(tags, k, dflt, w)
    ensures v == w
  {
    if v != "" && Holds(tags, k, v) && w != "" && Holds(tags, k, w) {
      var i :| 0 <= i < |tags| && tags[i] == (k, v);
      var j :| 0 <= j < |tags| && tags[j] == (k, w);
      assert i == j;
    }
  }

  /** With distinct keys, `tags.k1 || tags.k2 || dflt` has one reading only. */
  lemma ResolvesEitherUnique(tags: Tags, k1: string, k2: string, dflt: string, v: string, w: string)
    requires DistinctKeys(tags)
    requires ResolvesEither(tags, k1, k2, dflt, v) && ResolvesEither(tags, k1, k2, dflt, w)
    ensures v == w
  {
    var vHeld, wHeld := v != "" && Holds(tags, k1, v), w != "" && Holds(tags, k1, w);
    if vHeld && wHeld {
      var i :| 0 <= i < |tags| && tags[i] == (k1, v);
      var j :| 0 <= j < |tags| && tags[j] == (k1, w);
      assert i == j;
    } else if !vHeld && !wHeld {
      ResolvesUnique(tags, k2, dflt, v, w);
    }
  }

  /** `journal` takes `booktitle` when `journal` is absent or empty. */
  lemma JournalFallsBackToBooktitle(tags: Tags, b: string)
    requires DistinctKeys(tags)
    requires Absent(tags, "journal") && Holds(tags, "booktitle", b)
    ensures Extract(tags).journal == b
  {
  }

  /** `code` takes `github` when `code` is absent or empty. */
  lemma CodeFallsBackToGithub(tags: Tags, g: string)
    requires DistinctKeys(tags)
    requires Absent(tags, "code") && Holds(tags, "github", g)
    ensures Extract(tags).code == g
  {
  }

  /** A missing or empty title reads as "Untitled". */
  lemma MissingTitleIsUntitled(tags: Tags)
    requires Absent(tags, "title")
    ensures Extract(tags).title == Untitled
  {
  }
}
