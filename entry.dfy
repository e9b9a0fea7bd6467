/**
 * A parsed bibliography record as the external BibTeX parser hands it over:
 * the entry type (`article`, `inproceedings`, ...), the citation key and the
 * tag object. The tags are an ordered sequence of (key, value) pairs in the
 * order the parser produced them; a JavaScript object would list integer-like
 * keys first, and that reordering is not modelled.
 */
module BibEntry {

  type Tag = (string, string)
  type Tags = seq<Tag>

  datatype Entry = Entry(entryType: string, citationKey: string, tags: Tags)

  /** A JavaScript object never holds the same key twice. */
  ghost predicate DistinctKeys(tags: Tags) {
    forall i, j :: 0 <= i < j < |tags| ==> tags[i].0 != tags[j].0
  }

  /** The record holds the value `v` under key `k`. */
  ghost predicate Holds(tags: Tags, k: string, v: string) {
    exists i :: 0 <= i < |tags| && tags[i] == (k, v)
  }

  /** Key `k` is missing, or present with the empty string: JavaScript `||` treats both alike. */
  ghost predicate Absent(tags: Tags, k: string) {
    forall i :: 0 <= i < |tags| && tags[i].0 == k ==> tags[i].1 == ""
  }

  /**
   * `tags.k || ""`: the value stored under `k`, or the empty string when
   * the key is missing.
   */
  function Lookup(tags: Tags, k: string): (v: string)
    ensures v != "" ==> Holds(tags, k, v)
    ensures Absent(tags, k) ==> v == ""
    ensures DistinctKeys(tags) ==>
      forall i :: 0 <= i < |tags| && tags[i].0 == k ==> v == tags[i].1
  {
    if tags == [] then ""
    else if tags[0].0 == k then tags[0].1
    else Lookup(tags[1..], k)
  }
}
