/**
 * The action row of a card: a link for each of the paper URL, the PDF, the
 * code and the DOI that the record has, in that order, and always a
 * "Copy BibTeX" control last, which copies the card's BibTeX text.
 */
module Actions {
  import opened Fields
  import Apa

  datatype LinkKind = Paper | Pdf | Code | Doi

  datatype Action = Link(kind: LinkKind, caption: string, href: string) | CopyBibTeX(text: string)

  /** The text on a link button. */
  function Label(k: LinkKind): string {
    match k
    case Paper => "Paper"
    case Pdf => "PDF"
    case Code => "Code"
    case Doi => "DOI"
  }

  /** Position of each kind in the row. */
  function Rank(k: LinkKind): nat {
    match k
    case Paper => 0
    case Pdf => 1
    case Code => 2
    case Doi => 3
  }

  /** The field whose presence shows the link. */
  function Source(f: Fields, k: LinkKind): string {
    match k
    case Paper => f.url
    case Pdf => f.pdf
    case Code => f.code
    case Doi => f.doi
  }

  /** Where the link points: the field itself, or the DOI resolver for a DOI. */
  function Target(f: Fields, k: LinkKind): string {
    if k == Doi then Apa.DoiResolver + f.doi else Source(f, k)
  }

  /** How many of the four link fields are present. */
  function PresentLinks(f: Fields): nat {
    (if f.url != "" then 1 else 0) + (if f.pdf != "" then 1 else 0)
    + (if f.code != "" then 1 else 0) + (if f.doi != "" then 1 else 0)
  }

  function Buttons(f: Fields, bibtex: string): (bs: seq<Action>)
    ensures |bs| == PresentLinks(f) + 1
    ensures bs[|bs| - 1] == CopyBibTeX(bibtex)
    ensures forall i :: 0 <= i < |bs| - 1 ==>
      && bs[i].Link? && Source(f, bs[i].kind) != ""
      && bs[i].caption == Label(bs[i].kind) && bs[i].href == Target(f, bs[i].kind)
  {
    (if f.url != "" then [Link(Paper, "Paper", f.url)] else [])
    + (if f.pdf != "" then [Link(Pdf, "PDF", f.pdf)] else [])
    + (if f.code != "" then [Link(Code, "Code", f.code)] else [])
    + (if f.doi != "" then [Link(Doi, "DOI", Apa.DoiResolver + f.doi)] else [])
    + [CopyBibTeX(bibtex)]
  }

  /** How many present links come before a link of kind `k` in the row. */
  function Before(f: Fields, k: LinkKind): nat {
    (if f.url != "" && Rank(k) > 0 then 1 else 0) + (if f.pdf != "" && Rank(k) > 1 then 1 else 0)
    + (if f.code != "" && Rank(k) > 2 then 1 else 0)
  }

  lemma BeforeMonotone(f: Fields, k: LinkKind, l: LinkKind)
    requires Rank(k) <= Rank(l)
    ensures Before(f, k) <= Before(f, l)
  {
  }

  /** The link at position `i` has exactly `i` present links before it. */
  lemma ButtonPosition(f: Fields, bibtex: string, i: nat)
    requires i < |Buttons(f, bibtex)| - 1
    ensures Before(f, Buttons(f, bibtex)[i].kind) == i
  {
  }

  /** The links appear in the fixed order Paper, PDF, Code, DOI. */
  lemma ButtonsOrdered(f: Fields, bibtex: string)
    ensures var bs := Buttons(f, bibtex);
      forall i, j :: 0 <= i < j < |bs| - 1 ==> Rank(bs[i].kind) < Rank(bs[j].kind)
  {
    var bs := Buttons(f, bibtex);
    forall i, j | 0 <= i < j < |bs| - 1
      ensures Rank(bs[i].kind) < Rank(bs[j].kind)
    {
      ButtonPosition(f, bibtex, i);
      ButtonPosition(f, bibtex, j);
      if Rank(bs[j].kind) <= Rank(bs[i].kind) {
        BeforeMonotone(f, bs[j].kind, bs[i].kind);
      }
    }
  }

  /** Every present link field shows its link, pointing at its target. */
  lemma ButtonsComplete(f: Fields, bibtex: string, k: LinkKind)
    requires Source(f, k) != ""
    ensures exists i :: 0 <= i < |Buttons(f, bibtex)| - 1 && Buttons(f, bibtex)[i] == Link(k, Label(k), Target(f, k))
  {
    assert Buttons(f, bibtex)[Before(f, k)] == Link(k, Label(k), Target(f, k));
  }

  /** The row has a link of kind `k` exactly when the field behind it is present. */
  lemma ButtonShownIff(f: Fields, bibtex: string, k: LinkKind)
    ensures (exists i :: 0 <= i < |Buttons(f, bibtex)| - 1 && Buttons(f, bibtex)[i].kind == k) <==> Source(f, k) != ""
  {
    if Source(f, k) != "" {
      ButtonsComplete(f, bibtex, k);
    }
  }

  /** A record with no link fields gets the "Copy BibTeX" control alone. */
  lemma OnlyCopyWithoutLinks(f: Fields, bibtex: string)
    requires f.url == "" && f.pdf == "" && f.code == "" && f.doi == ""
    ensures Buttons(f, bibtex) == [CopyBibTeX(bibtex)]
  {
  }
}
