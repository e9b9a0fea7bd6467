/**
 * The BibTeX re-serialisation behind the "Copy BibTeX" button:
 * `@type{key,\n` followed by one `  k = {v}` line per tag, in tag order,
 * joined by `,\n`, then `\n}`. Values are written as they are, without
 * escaping. A decoder for this layout is the serialiser's inverse on every
 * record whose text cannot be confused with the layout itself.
 */
module BibTeX {
  import opened Wrappers
  import opened BibEntry

  function TagLine(t: Tag): string {
    "  " + t.0 + " = {" + t.1 + "}"
  }

  /** `Array.prototype.join`: the items with `sep` between neighbours. */
  function Join(xs: seq<string>, sep: string): string
    decreases |xs|
  {
    if |xs| == 0 then ""
    else if |xs| == 1 then xs[0]
    else xs[0] + sep + Join(xs[1..], sep)
  }

  /** `Object.entries(tags).map(([k, v]) => ...)`. */
  function TagLines(tags: Tags): seq<string> {
    seq(|tags|, i requires 0 <= i < |tags| => TagLine(tags[i]))
  }

  /**
   * The text the copy control copies: it opens with the `@type{key,` header
   * line and closes with a newline and `}`.
   */
  function Serialise(e: Entry): (s: string)
    ensures var h := "@" + e.entryType + "{" + e.citationKey + ",\n";
      |s| >= |h| + 2 && s[..|h|] == h && s[|s| - 2..] == "\n}"
  {
    "@" + e.entryType + "{" + e.citationKey + ",\n" + Join(TagLines(e.tags), ",\n") + "\n}"
  }

  // ---------------------------------------------------------------------
  // Reading the layout back

  /** Index of the first `c` in `s`, or `|s|` when there is none. */
  function IndexOf(s: string, c: char): (i: nat)
    ensures i <= |s|
    ensures i < |s| ==> s[i] == c
    ensures forall j :: 0 <= j < i ==> s[j] != c
  {
    if s == [] then 0 else if s[0] == c then 0 else 1 + IndexOf(s[1..], c)
  }

  /** Reads `  k = {v}`, where the key ends at the first space. */
  function ParseTagLine(l: string): Option<Tag> {
    if |l| < 2 || l[0] != ' ' || l[1] != ' ' then None
    else
      var body := l[2..];
      var k := IndexOf(body, ' ');
      if |body| < k + 5 || body[k..k + 4] != " = {" || body[|body| - 1] != '}' then None
      else Some((body[..k], body[k + 4..|body| - 1]))
  }

  /** Splits a tag block at each `,\n`; the lines themselves hold no newline. */
  function SplitTagBlock(b: string): Option<seq<string>>
    decreases |b|
  {
    var i := IndexOf(b, '\n');
    if i == |b| then Some([b])
    else if i == 0 || b[i - 1] != ',' then None
    else match SplitTagBlock(b[i + 1..])
      case None => None
      case Some(rest) => Some([b[..i - 1]] + rest)
  }

  function ParseTagLines(ls: seq<string>): Option<Tags>
    decreases |ls|
  {
    if ls == [] then Some([])
    else match (ParseTagLine(ls[0]), ParseTagLines(ls[1..]))
      case (Some(t), Some(ts)) => Some([t] + ts)
      case _ => None
  }

  /** Reads `\n}`-terminated tag block text after the header. */
  function ParseBlock(rest: string): Option<Tags> {
    if |rest| < 2 || rest[|rest| - 2] != '\n' || rest[|rest| - 1] != '}' then None
    else
      var block := rest[..|rest| - 2];
      if block == [] then Some([])
      else match SplitTagBlock(block)
        case None => None
        case Some(ls) => ParseTagLines(ls)
  }

  function Parse(s: string): Option<Entry> {
    if s == [] || s[0] != '@' then None
    else
      var t := s[1..];
      var i := IndexOf(t, '{');
      if i == |t| then None
      else
        var r := t[i + 1..];
        var j := IndexOf(r, '\n');
        if j == |r| || j == 0 || r[j - 1] != ',' then None
        else match ParseBlock(r[j + 1..])
          case None => None
          case Some(tags) => Some(Entry(t[..i], r[..j - 1], tags))
  }

  /**
   * The records the layout can be read back from: no `{` in the entry type,
   * no newline in the citation key, and tag keys without spaces or newlines
   * over values without newlines.
   */
  ghost predicate Serialisable(e: Entry) {
    && '{' !in e.entryType
    && '\n' !in e.citationKey
    && forall i :: 0 <= i < |e.tags| ==>
         ' ' !in e.tags[i].0 && '\n' !in e.tags[i].0 && '\n' !in e.tags[i].1
  }

  // ---------------------------------------------------------------------
  // The round trip

  /** The first `c` of `a + [c] + b` is the one after `a` when `a` has none. */
  lemma IndexOfSplit(a: string, c: char, b: string)
    requires c !in a
    ensures IndexOf(a + [c] + b, c) == |a|
    ensures (a + [c] + b)[..|a|] == a && (a + [c] + b)[|a| + 1..] == b
  {
    var s := a + [c] + b;
    var i := IndexOf(s, c);
    assert s[|a|] == c;
  }

  /** Without a `c` in `s`, the search runs to the end. */
  lemma NoIndexOf(s: string, c: char)
    requires c !in s
    ensures IndexOf(s, c) == |s|
  {
  }

  lemma ParseTagLineOf(t: Tag)
    requires ' ' !in t.0
    ensures ParseTagLine(TagLine(t)) == Some(t)
  {
    var l := TagLine(t);
    var body := l[2..];
    assert body == t.0 + [' '] + ("= {" + t.1 + "}");
    IndexOfSplit(t.0, ' ', "= {" + t.1 + "}");
    var k := |t.0|;
    assert body[k..k + 4] == " = {";
    assert body[k + 4..|body| - 1] == t.1;
  }

  lemma {:induction false} ParseTagLinesOf(tags: Tags)
    requires forall i :: 0 <= i < |tags| ==> ' ' !in tags[i].0
    ensures ParseTagLines(TagLines(tags)) == Some(tags)
    decreases |tags|
  {
    if tags != [] {
      var ls := TagLines(tags);
      ParseTagLineOf(tags[0]);
      assert ls[1..] == TagLines(tags[1..]);
      ParseTagLinesOf(tags[1..]);
      assert [tags[0]] + tags[1..] == tags;
    }
  }

  lemma {:induction false} SplitJoin(ls: seq<string>)
    requires ls != []
    requires forall i :: 0 <= i < |ls| ==> '\n' !in ls[i]
    ensures SplitTagBlock(Join(ls, ",\n")) == Some(ls)
    decreases |ls|
  {
    var b := Join(ls, ",\n");
    if |ls| == 1 {
      assert b == ls[0];
      NoIndexOf(b, '\n');
      assert ls == [b];
    } else {
      var x := ls[0] + [','];
      var rest := Join(ls[1..], ",\n");
      assert b == x + ['\n'] + rest;
      IndexOfSplit(x, '\n', rest);
      assert b[..|x| - 1] == ls[0];
      SplitJoin(ls[1..]);
      assert [ls[0]] + ls[1..] == ls;
    }
  }

  /** The tag block of a serialisable record reads back as its tags. */
  lemma ParseBlockOf(tags: Tags)
    requires forall i :: 0 <= i < |tags| ==> ' ' !in tags[i].0 && '\n' !in tags[i].0 && '\n' !in tags[i].1
    ensures ParseBlock(Join(TagLines(tags), ",\n") + "\n}") == Some(tags)
  {
    var ls := TagLines(tags);
    var block := Join(ls, ",\n");
    var rest := block + "\n}";
    assert rest[..|rest| - 2] == block;
    if tags == [] {
      assert block == [];
    } else {
      forall i | 0 <= i < |ls| ensures '\n' !in ls[i] {
        assert ls[i] == "  " + tags[i].0 + " = {" + tags[i].1 + "}";
      }
      SplitJoin(ls);
      ParseTagLinesOf(tags);
      assert block != [] by { assert |block| >= |ls[0]|; }
    }
  }

  /** The serialised text, cut where the reader cuts it. */
  lemma SerialiseShape(e: Entry)
    ensures Serialise(e) ==
      ['@'] + (e.entryType + ['{'] + (e.citationKey + [','] + ['\n'] + (Join(TagLines(e.tags), ",\n") + "\n}")))
  {
  }

  /** A serialisable record reads back from its BibTeX text unchanged. */
  lemma ParseSerialise(e: Entry)
    requires Serialisable(e)
    ensures Parse(Serialise(e)) == Some(e)
  {
    var rest := Join(TagLines(e.tags), ",\n") + "\n}";
    var r := e.citationKey + [','] + ['\n'] + rest;
    var t := e.entryType + ['{'] + r;
    var s := Serialise(e);
    assert s[1..] == t && s[0] == '@' by { SerialiseShape(e); }
    IndexOfSplit(e.entryType, '{', r);
    IndexOfSplit(e.citationKey + [','], '\n', rest);
    assert r[..|e.citationKey|] == e.citationKey;
    ParseBlockOf(e.tags);
  }

  /** Two serialisable records with the same BibTeX text are the same record. */
  lemma SerialiseInjective(d: Entry, e: Entry)
    requires Serialisable(d) && Serialisable(e)
    requires Serialise(d) == Serialise(e)
    ensures d == e
  {
    ParseSerialise(d);
    ParseSerialise(e);
  }
}
