# Publication list rendering, modelled in Dafny

`js/publications.js` renders a bibliography on a personal web page. It
fetches a `.bib` file, parses it with an external BibTeX library, and
appends one card per record to a container. Each card shows four things:

- an APA-like citation;
- a collapsible row of action buttons (Paper, PDF, Code, DOI, and always
  "Copy BibTeX");
- the record re-serialised as BibTeX, which the copy control copies;
- an id that ties the toggle arrow to its collapsible row.

This project models the deterministic core of that per-record work over an
already-parsed record `(entryType, citationKey, tags)`:

- **Field extraction** (`Fields`): JavaScript `||` treats a missing tag and
  an empty tag alike. `title` defaults to `Untitled`, `journal` falls back
  to `booktitle`, `code` falls back to `github`, and every other field
  defaults to the empty string. The tag object is an ordered sequence of
  `(key, value)` pairs in the order the parser produced them (`BibEntry`).
  A JavaScript object lists integer-like keys first, and the model does
  not reorder them (see "Left out").
- **Author rewrite** (`Authors`): the global replacement of `\s+and\s+` by
  `", "`. It is a leftmost greedy scan over the ECMAScript `\s` set
  (WhiteSpace and LineTerminator code points).
- **Citation** (`Apa`): the optional segments in their fixed order. These
  are the authors, `(year).`, the title, the emphasised venue with volume,
  issue and pages, and the trailing link, which prefers the DOI over the URL.
- **BibTeX text** (`BibTeX`): `@type{key,` followed by one `  k = {v}` line
  per tag in tag order, separated by `,\n`, and closed by a newline and `}`.
  A reader for that layout is the partner of the writer, and the two form a
  proved round trip.
- **Action row** (`Actions`): one link per present field in the order
  Paper, PDF, Code, DOI, then "Copy BibTeX".
- **Per-entry loop** (`Publications`): a method that appends one card per
  record, in parser order. Each card has the collapse id
  `actions-<container>-<idx>`, where `idx` is written in decimal
  (`Decimal`). The collapse ids never repeat.

## Model

| member | source | states |
|---|---|---|
| BibEntry.Lookup | js/publications.js:13-23 | A non-empty value read for key `k` is a value the record holds under `k`. A key that is missing or empty reads as `""`. With distinct keys the value read is the one stored under `k`. |
| Fields.Extract | js/publications.js:11-23 | The title is never empty. With distinct keys, every field matches the independent reading of `tags.k \|\| dflt`: the held non-empty value, else the default. For journal the reading is `journal \|\| booktitle`, and for code it is `code \|\| github`. |
| Fields.OrElse | js/publications.js:16 | JavaScript `a \|\| b` on strings: the result is one of the two, it is empty only when both are, and a non-empty `a` wins. |
| Fields.ResolvesUnique | js/publications.js:13-23 | With distinct keys, the reading of `tags.k \|\| dflt` has exactly one value, so that reading is a specification, not a relation. |
| Fields.ResolvesEitherUnique | js/publications.js:16 | With distinct keys, the two-key fallback `tags.k1 \|\| tags.k2 \|\| ""` has exactly one value. |
| Fields.JournalFallsBackToBooktitle | js/publications.js:16 | When `journal` is absent or empty, the journal field is the record's `booktitle`. |
| Fields.CodeFallsBackToGithub | js/publications.js:22 | When `code` is absent or empty, the code field is the record's `github`. |
| Fields.MissingTitleIsUntitled | js/publications.js:13 | An absent or empty title reads as `Untitled`. |
| Authors.SpaceRun | js/publications.js:26 | The greedy `\s+` run at the front: every character in it is whitespace, and the next character is not. |
| Authors.SeparatorAt | js/publications.js:26 | The length of a match of `\s+and\s+` anchored at the front is at least five and fits in the string, and the match starts with whitespace. What the match consists of is stated by `SeparatorFound` and `SeparatorAtMeaning`. |
| Authors.SeparatorFound | js/publications.js:26 | A reported match is the whole leading whitespace run, then `and`, then a non-empty whitespace run taken whole: the character after the match is not whitespace. |
| Authors.SeparatorAtMeaning | js/publications.js:26 | The matcher answers `None` exactly when no split into at least one whitespace character, `and` and at least one whitespace character matches the front of the string. Both directions are proved. |
| Authors.RewriteAuthors | js/publications.js:26 | The rewrite never lengthens the author string, and it maps exactly the empty string to the empty string. |
| Authors.RewriteChangesAtMatch | js/publications.js:26 | A match at the front always changes the string, because its first character becomes a comma. |
| Authors.RewriteUnchangedIff | js/publications.js:26 | The rewrite leaves an author string unchanged exactly when the string holds no `\s+and\s+` match at any position. Both directions are proved. |
| Authors.WordStep | js/publications.js:26 | A non-space character is copied through by the scan. |
| Authors.SpaceFreePrefix | js/publications.js:26 | A prefix without whitespace is copied through unchanged, and the rest is rewritten on its own. |
| Authors.SingleSpacedMatch | js/publications.js:26 | `" and "` before a non-space character is a match of length exactly five. |
| Authors.SingleSpacedSeparator | js/publications.js:26 | `" and "` before a non-space character becomes `", "`. |
| Authors.SpaceBeforeWord | js/publications.js:26 | A single space before a space-free word is not a match and is kept. |
| Authors.TwoAuthors | js/publications.js:26 | `a and b`, for names without whitespace, becomes `a, b`. |
| Authors.LeadingAndKept | js/publications.js:26 | For a space-free name `b`, `and b` with no whitespace before `and` is kept as it is. |
| Authors.DoubledAnd | js/publications.js:26 | For a space-free name `b`, ` and and b` becomes `, and b`. |
| Authors.RepeatedAndSurvives | js/publications.js:26 | For space-free names `a` and `b`, `a and and b` becomes `a, and b`: the global scan consumes the space before the second `and`, so a separator word can survive the rewrite. |
| Apa.AuthorSegment | js/publications.js:26-29 | The author segment is empty exactly when the author string is. Otherwise it is the author string after the `\s+and\s+` rewrite, followed by `". "`. |
| Apa.YearSegment | js/publications.js:30 | The year segment is empty exactly when there is no year, and otherwise it is `(`, the year, then `). `. |
| Apa.VenueSegment | js/publications.js:32-38 | The venue segment is empty exactly when there is no journal or booktitle. Otherwise it starts with `<em>`, the venue and `</em>`, and ends with a period. |
| Apa.LinkSegment | js/publications.js:39-43 | The link segment is empty exactly when there is neither a DOI nor a URL. With a DOI it is a space, `https://doi.org/` and the DOI. With a URL and no DOI it is a space followed by the URL. |
| Apa.Lead | js/publications.js:29-31 | The title and `". "` come right after the author and year segments, and end the lead. |
| Apa.Citation | js/publications.js:28-43 | The title followed by `". "` stands in the citation right after the author and year segments. |
| Apa.TitleOnly | js/publications.js:28-31 | With no authors, year, venue, DOI or URL, the citation is exactly `title + ". "`. |
| Apa.EntryTitleOnly | js/publications.js:13-31 | For a record whose author, year, journal, booktitle, DOI and URL tags are all absent or empty, the citation is its title plus `". "`. That is `"Untitled. "` when the title is missing too. |
| Apa.DoiWinsOverUrl | js/publications.js:39-40 | With a DOI the URL has no influence on the citation. The citation is the link-free citation followed by `" https://doi.org/" + doi`. |
| Apa.UrlWithoutDoi | js/publications.js:41-42 | Without a DOI, a URL appends exactly `" " + url`. |
| Apa.VenueDetailsNeedJournal | js/publications.js:32-38 | Without a journal or booktitle, volume, number and pages do not change the citation. |
| Apa.JournalArticle | js/publications.js:26-43 | A journal article by two space-free authors `a and b` with year, title, journal, volume, pages and DOI but no issue number cites as `a, b. (year). title. <em>journal</em>, volume, pages. https://doi.org/doi`. For instance, "A and B", 2020, X, J, 3, 1-10 and 10.1/xyz give `A, B. (2020). X. <em>J</em>, 3, 1-10. https://doi.org/10.1/xyz`. |
| Apa.VenueWithVolumeAndPages | js/publications.js:32-38 | Without an issue number, the venue segment is `<em>J</em>, volume, pages.`. |
| Apa.CitationParts | js/publications.js:28-43 | Helper of `AuthorsLead` and `JournalArticle`. The citation is the author, year, title, venue and link segments, in that order. |
| Apa.VenueSegmentShape | js/publications.js:32-38 | With a venue, the text between the title and the link is `<em>J</em>`, then `, volume`, `(number)` and `, pages` for those present, then a period. |
| Apa.AuthorsLead | js/publications.js:29 | The author segment comes first, followed by the citation of the same record without authors. |
| Apa.YearThenTitle | js/publications.js:30-31 | Without authors, the year segment leads, followed by `title. `, the venue segment and the link, in that order. |
| Apa.PlainAuthorsUnchanged | js/publications.js:26-29 | An author string without a separator match appears unchanged, followed by `". "`, at the start of the citation. |
| Decimal.NatToString | js/publications.js:54 | The decimal text of an index is non-empty and made of digits, with no leading zero. |
| Decimal.ParseNatToString | js/publications.js:54 | Reading the decimal text back gives the index. |
| Decimal.NatToStringInjective | js/publications.js:54 | Distinct indices have distinct decimal texts. |
| BibTeX.IndexOf | js/publications.js:46-51 | Helper of the BibTeX reader, not an operation of the page. The first-occurrence search returns a position no larger than the length. Every earlier character differs from the one searched for, and the result is the character's position when it is found. |
| BibTeX.Serialise | js/publications.js:46-51 | The BibTeX text starts with `"@" + entryType + "{" + citationKey + ",\n"` and ends with `"\n}"`. Its reader `Parse` takes it back to the record (`ParseSerialise`). |
| BibTeX.ParseTagLineOf | js/publications.js:49 | A `  k = {v}` line reads back as the tag `(k, v)` when `k` has no space. |
| BibTeX.ParseTagLinesOf | js/publications.js:48-49 | When no tag key holds a space, the tag lines read back as the tags, one per line, in tag order. |
| BibTeX.SplitJoin | js/publications.js:50 | For a non-empty list of lines none of which holds a newline, splitting the `,\n`-joined lines gives back the lines. |
| BibTeX.ParseBlockOf | js/publications.js:48-51 | When no tag key holds a space or a newline and no tag value holds a newline, the text after the header line reads back as the full tag sequence. That includes the empty sequence and tags with empty values. |
| BibTeX.ParseSerialise | js/publications.js:46-51 | Every record whose type has no `{`, whose key has no newline, and whose tag keys (no space or newline) and values (no newline) are plain reads back unchanged from its BibTeX text. That covers all tags, in order, including empty ones. |
| BibTeX.SerialiseInjective | js/publications.js:46-51 | Two such records with the same BibTeX text are the same record. |
| Actions.Buttons | js/publications.js:90-144 | The row has one action per present link field plus one, and the last action is "Copy BibTeX" copying the given text. Every earlier action is a link whose field is present. Its caption is "Paper", "PDF", "Code" or "DOI" by kind, and its target is that field, or `https://doi.org/` + doi for the DOI. |
| Actions.BeforeMonotone | js/publications.js:90-130 | The number of links that come before a kind is non-decreasing in the kind's place in the order Paper, PDF, Code, DOI. |
| Actions.ButtonPosition | js/publications.js:90-130 | The link at position `i` has exactly `i` present links of earlier kinds before it. |
| Actions.ButtonsOrdered | js/publications.js:90-130 | The links appear strictly in the order Paper, PDF, Code, DOI. |
| Actions.ButtonsComplete | js/publications.js:90-130 | Every present link field shows its link, with its target. |
| Actions.ButtonShownIff | js/publications.js:90-130 | A link of a kind is shown exactly when the field behind it is present. |
| Actions.OnlyCopyWithoutLinks | js/publications.js:132-144 | A record with no url, pdf, code or doi gets the "Copy BibTeX" control alone. |
| Publications.RenderEntry | js/publications.js:10-146 | A card shows its record's citation and carries its record's BibTeX text. Its action row is the record's button row, ending with a copy control for that same text and holding at most five actions. Its collapse id is `actions-<container>-<idx>`. |
| Publications.CardBibtexReadsBack | js/publications.js:46-51 | For every serialisable record, the text a card's copy control copies reads back as that card's own record. |
| Publications.RenderAll | js/publications.js:10-146 | The expected card list has one card per entry. |
| Publications.RenderBibtexList | js/publications.js:10-147 | The loop produces exactly one card per entry, in parser order: card `i` is the card of entry `i` at index `i`. No two cards share a collapse id. |
| Publications.RenderBibtexFile | js/publications.js:148-152 | When fetching or parsing fails, the outcome is a failure notice naming the `.bib` path. Otherwise it is one card per parsed entry, in order. |
| Publications.CollapseId | js/publications.js:54 | A collapse id is `actions-`, the container name and a dash, followed by a non-empty run of decimal digits. |
| Publications.SplitAtLastDash | js/publications.js:54 | Helper of the collapse-id proof, not an operation of the page. `p + "-" + d` splits uniquely when `d` has no dash. |
| Publications.CollapseIdInjective | js/publications.js:54 | `actions-<container>-<idx>` determines both the container and the index. |
| Publications.CollapseIdsDistinct | js/publications.js:54 | Within one container, distinct indices give distinct collapse ids. |
| Publications.ListsDoNotCollide | js/publications.js:157-160 | A card of the journal list and a card of the conference list never share a collapse id. |

## Left out

- Fetching the `.bib` file and reading its text (js/publications.js:3-4) are network I/O. The model starts from what they yield.
- `bibtexParse.toJSON` (js/publications.js:6) is an external library. Its output, a sequence of records, is the model's input. A fetch or parse that throws reaches the model as `parsed == None` in `RenderBibtexFile`, and the model does not separate the two. An HTTP error status does not make `fetch` throw: the error page's text goes to the parser like any other text.
- A missing container is not modelled, and the container is assumed to exist. Without it, line 8 throws, the catch looks the container up again (line 150), and line 151 throws out of the catch. The call then rejects and no failure notice appears, a path the `Outcome` type does not represent.
- The DOM work is left out: the container lookup and clearing, `createElement`, the card markup and its Bootstrap collapse attributes, `target`/`rel` and the CSS classes (js/publications.js:7-8, 56-90). A card, its buttons and the notice are modelled as data. The citation is modelled as the string placed into the card, `<em>` tags included. Browser HTML parsing of that string is not modelled.
- The clipboard write, the "Copied!" label and its `setTimeout` reset, and `console.error` (js/publications.js:134-143, 149) are asynchronous browser side effects. The model keeps only the text the copy control copies.
- The `DOMContentLoaded` wiring (js/publications.js:157-160) is kept only as the two container names, `JournalList` and `ConferenceList`.
- `entry.entryTags || {}` (js/publications.js:11): a record without tags is the empty tag sequence. The model does not represent a missing `entryTags` separately.
- `BibEntry.Lookup` returns the value of the first pair with the key. A JavaScript object cannot hold a key twice, so the properties that depend on it take distinct keys as a hypothesis.
- Fields.Extract: the reading of each field is stated only for records with distinct keys. That is every record a JavaScript object can represent.
- Object key order: a JavaScript object lists integer-like keys (such as `"2019"`) first, in numeric order, and then the other keys in insertion order. The model keeps the parser's order for all keys.
- Strings are sequences of Unicode scalar values, not of UTF-16 code units. A character outside the Basic Multilingual Plane is one `char` in the model and two code units in JavaScript. No such character is in `\s`, so the author rewrite is unaffected, but lengths and positions in the model count such a character once.
- The `apa +=` updates (js/publications.js:28-43) are modelled as one concatenation of segment functions in the same order. No mutable local holds the partial citation.
- BibTeX.ParseSerialise: the round trip is proved only for records the layout can represent unambiguously, namely:
  - no `{` in the type;
  - no newline in the key;
  - no space or newline in a tag key;
  - no newline in a value.

  The writer itself accepts every record.
- The buttons and cards are built by appending to DOM nodes. The buttons are modelled as one value-level list, and the cards as a `seq` that the loop extends.
