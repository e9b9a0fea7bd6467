/**
 * `renderBibtexList`: one card per parsed entry, in parser order. Each card
 * carries the citation text, the BibTeX text its copy control copies, the
 * action row and the id of its collapsible row, `actions-<container>-<idx>`.
 * A failed fetch or parse replaces the whole list with a
 * failure notice naming the source.
 */
module Publications {
  import opened Wrappers
  import opened BibEntry
  import opened Fields
  import opened Decimal
  import Apa
  import BibTeX
  import Actions

  datatype Card = Card(citation: string, bibtex: string, buttons: seq<Actions.Action>, collapseId: string)

  datatype Outcome = Rendered(cards: seq<Card>) | Failure(bibPath: string)

  /** `actions-<container>-<idx>`: the container's name, then the index in decimal. */
  function CollapseId(containerId: string, idx: nat): (id: string)
    ensures var p := "actions-" + containerId + "-";
      |id| > |p| && id[..|p|] == p && forall i :: |p| <= i < |id| ==> IsDigit(id[i])
  {
    "actions-" + containerId + "-" + NatToString(idx)
  }

  /** The card of entry number `idx` in container `containerId`. */
  function RenderEntry(e: Entry, containerId: string, idx: nat): (card: Card)
    ensures |card.buttons| >= 1 && card.buttons[|card.buttons| - 1] == Actions.CopyBibTeX(card.bibtex)
    ensures |card.buttons| <= 5
    ensures card.citation == Apa.EntryCitation(e.tags)
    ensures card.bibtex == BibTeX.Serialise(e)
    ensures card.buttons == Actions.Buttons(Extract(e.tags), card.bibtex)
    ensures card.collapseId == CollapseId(containerId, idx)
  {
    var f := Extract(e.tags);
    var bibtex := BibTeX.Serialise(e);
    Card(Apa.Citation(f), bibtex, Actions.Buttons(f, bibtex), CollapseId(containerId, idx))
  }

  /** The text a card's copy control copies reads back as the card's own record. */
  lemma CardBibtexReadsBack(e: Entry, containerId: string, idx: nat)
    requires BibTeX.Serialisable(e)
    ensures BibTeX.Parse(RenderEntry(e, containerId, idx).bibtex) == Some(e)
  {
    BibTeX.ParseSerialise(e);
  }

  /** The cards the loop is to produce, one per entry, in order. */
  function RenderAll(entries: seq<Entry>, containerId: string): (cards: seq<Card>)
    ensures |cards| == |entries|
  {
    seq(|entries|, i requires 0 <= i < |entries| => RenderEntry(entries[i], containerId, i))
  }

  /** The `entries.forEach` loop: cards appended in order, one per entry. */
  method RenderBibtexList(entries: seq<Entry>, containerId: string) returns (cards: seq<Card>)
    ensures |cards| == |entries|
    ensures forall i :: 0 <= i < |entries| ==> cards[i] == RenderEntry(entries[i], containerId, i)
    ensures forall i, j :: 0 <= i < j < |cards| ==> cards[i].collapseId != cards[j].collapseId
  {
    ghost var spec := RenderAll(entries, containerId);
    cards := [];
    for idx := 0 to |entries|
      invariant cards == spec[..idx]
    {
      var card := RenderEntry(entries[idx], containerId, idx);
      AppendNext(cards, card, spec);
      cards := cards + [card];
    }
    assert cards == spec;
    forall i, j | 0 <= i < j < |cards|
      ensures cards[i].collapseId != cards[j].collapseId
    {
      CollapseIdsDistinct(containerId, i, j);
    }
  }

  /** Appending the next expected item extends the finished prefix by one. */
  lemma AppendNext<T>(done: seq<T>, x: T, spec: seq<T>)
    requires |done| < |spec| && done == spec[..|done|] && x == spec[|done|]
    ensures done + [x] == spec[..|done| + 1]
  {
  }

  /**
   * One render call: `parsed` is what fetching and parsing `bibPath` gave,
   * `None` when the fetch or the parse threw. The container is assumed to
   * exist: without it the source's own failure path throws as well.
   */
  method RenderBibtexFile(bibPath: string, containerId: string, parsed: Option<seq<Entry>>)
    returns (out: Outcome)
    ensures parsed.None? ==> out == Failure(bibPath)
    ensures parsed.Some? ==> out.Rendered? && |out.cards| == |parsed.value|
    ensures parsed.Some? ==> forall i :: 0 <= i < |parsed.value| ==>
      out.cards[i] == RenderEntry(parsed.value[i], containerId, i)
  {
    match parsed
    case None =>
      out := Failure(bibPath);
    case Some(entries) =>
      var cards := RenderBibtexList(entries, containerId);
      out := Rendered(cards);
  }

  /** `p + "-" + d` splits uniquely at its last dash when `d` has none. */
  lemma SplitAtLastDash(p1: string, d1: string, p2: string, d2: string)
    requires '-' !in d1 && '-' !in d2
    requires p1 + ['-'] + d1 == p2 + ['-'] + d2
    ensures p1 == p2 && d1 == d2
  {
    var s := p1 + ['-'] + d1;
    assert s[|p1|] == '-';
    assert s[|p2|] == (p2 + ['-'] + d2)[|p2|] == '-';
    assert |p1| == |p2|;
    assert s[..|p1|] == p1 && s[..|p2|] == p2;
    assert s[|p1| + 1..] == d1 && s[|p2| + 1..] == d2;
  }

  /** The collapse id determines both the container and the index. */
  lemma CollapseIdInjective(c1: string, i1: nat, c2: string, i2: nat)
    requires CollapseId(c1, i1) == CollapseId(c2, i2)
    ensures c1 == c2 && i1 == i2
  {
    var d1, d2 := NatToString(i1), NatToString(i2);
    var p1, p2 := "actions-" + c1, "actions-" + c2;
    assert '-' !in d1 && '-' !in d2;
    SplitAtLastDash(p1, d1, p2, d2);
    assert p1[8..] == c1 && p2[8..] == c2;
    if i1 != i2 {
      NatToStringInjective(i1, i2);
    }
  }

  /** Within one container, distinct indices give distinct collapse ids. */
  lemma CollapseIdsDistinct(containerId: string, i: nat, j: nat)
    requires i != j
    ensures CollapseId(containerId, i) != CollapseId(containerId, j)
  {
    if CollapseId(containerId, i) == CollapseId(containerId, j) {
      CollapseIdInjective(containerId, i, containerId, j);
    }
  }

  /** The two bibliography lists of the page. */
  const JournalList: string := "journal-list"
  const ConferenceList: string := "conference-list"

  /** Cards of the journal list and of the conference list never share a collapse id. */
  lemma ListsDoNotCollide(i: nat, j: nat)
    ensures CollapseId(JournalList, i) != CollapseId(ConferenceList, j)
  {
    assert JournalList[0] != ConferenceList[0];
    if CollapseId(JournalList, i) == CollapseId(ConferenceList, j) {
      CollapseIdInjective(JournalList, i, ConferenceList, j);
    }
  }
}
