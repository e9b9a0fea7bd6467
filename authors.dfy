/**
 * The author rewrite `authors.replace(/\s+and\s+/g, ", ")`: a global,
 * left-to-right scan that replaces each maximal whitespace run, the word
 * `and` and the following maximal whitespace run by a comma and a space.
 */
module Authors {
  import opened Wrappers

  /**
   * ECMAScript `\s`: the WhiteSpace code points (TAB, VT, FF, SPACE, NBSP,
   * ZWNBSP and the other Zs space separators) and the LineTerminator code
   * points (LF, CR, LS, PS).
   */
  predicate IsSpace(c: char) {
    c in SpaceChars || '\U{2000}' <= c <= '\U{200A}'
  }

  /** The `\s` code points outside the U+2000..U+200A block. */
  const SpaceChars: set<char> := {
    '\t', '\n', '\U{000B}', '\U{000C}', '\r', ' ', '\U{00A0}', '\U{1680}',
    '\U{2028}', '\U{2029}', '\U{202F}', '\U{205F}', '\U{3000}', '\U{FEFF}'
  }

  /** Length of the whitespace run at the start of `s` (what a greedy `\s+` takes). */
  function SpaceRun(s: string): (n: nat)
    ensures n <= |s|
    ensures forall i :: 0 <= i < n ==> IsSpace(s[i])
    ensures n < |s| ==> !IsSpace(s[n])
  {
    if s != [] && IsSpace(s[0]) then 1 + SpaceRun(s[1..]) else 0
  }

  /**
   * `\s+and\s+` matches the front of `s` with `a` whitespace characters
   * before `and` and `b` after it.
   */
  ghost predicate MatchesAt(s: string, a: int, b: int) {
    && 1 <= a && 1 <= b && a + 3 + b <= |s|
    && (forall i :: 0 <= i < a ==> IsSpace(s[i]))
    && s[a..a + 3] == "and"
    && (forall i :: a + 3 <= i < a + 3 + b ==> IsSpace(s[i]))
  }

  /**
   * Length of the match of `\s+and\s+` anchored at the start of `s`, if any.
   * The leading `\s+` can only be followed by `a` once it has taken the
   * whole run, so backtracking never finds a shorter match, and the trailing
   * greedy `\s+` takes its whole run.
   */
  function SeparatorAt(s: string): (m: Option<nat>)
    ensures m.Some? ==> 5 <= m.value <= |s| && IsSpace(s[0])
  {
    var lead := SpaceRun(s);
    if lead == 0 || |s| < lead + 3 || s[lead..lead + 3] != "and" then None
    else
      var trail := SpaceRun(s[lead + 3..]);
      if trail == 0 then None else Some(lead + 3 + trail)
  }

  /** A match the matcher reports consists of both runs, taken whole, around `and`. */
  lemma SeparatorFound(s: string)
    requires SeparatorAt(s).Some?
    ensures var a := SpaceRun(s); var n := SeparatorAt(s).value;
      MatchesAt(s, a, n - a - 3) && (n == |s| || !IsSpace(s[n]))
  {
    FoundRuns(s);
    var lead := SpaceRun(s);
    var trail := SpaceRun(s[lead + 3..]);
    FoundParts(s, lead, trail);
  }

  /** The two runs the matcher measured when it reports a match. */
  lemma FoundRuns(s: string)
    requires SeparatorAt(s).Some?
    ensures var lead := SpaceRun(s);
      && lead >= 1 && |s| >= lead + 3 && s[lead..lead + 3] == "and"
      && SpaceRun(s[lead + 3..]) >= 1
      && SeparatorAt(s).value == lead + 3 + SpaceRun(s[lead + 3..])
  {
  }

  /** The runs the matcher measures form a match, and the trailing one is whole. */
  lemma FoundParts(s: string, lead: nat, trail: nat)
    requires lead == SpaceRun(s) && lead >= 1 && |s| >= lead + 3 && s[lead..lead + 3] == "and"
    requires trail == SpaceRun(s[lead + 3..]) && trail >= 1
    ensures MatchesAt(s, lead, trail)
    ensures lead + 3 + trail == |s| || !IsSpace(s[lead + 3 + trail])
  {
    TrailRun(s, lead + 3, trail);
  }

  /** The matcher answers `None` exactly when no match of `\s+and\s+` starts at the front. */
  lemma SeparatorAtMeaning(s: string)
    ensures SeparatorAt(s).None? <==> forall a, b :: !MatchesAt(s, a, b)
  {
    if SeparatorAt(s).None? {
      NoMatchWithout(s);
    } else {
      SeparatorFound(s);
    }
  }

  /** What the trailing run says about the characters of `s` after position `k`. */
  lemma TrailRun(s: string, k: nat, n: nat)
    requires k <= |s| && n == SpaceRun(s[k..])
    ensures k + n <= |s|
    ensures forall i :: k <= i < k + n ==> IsSpace(s[i])
    ensures k + n < |s| ==> !IsSpace(s[k + n])
  {
    forall i | k <= i < k + n ensures IsSpace(s[i]) {
      assert s[i] == s[k..][i - k];
    }
    if k + n < |s| {
      assert s[k + n] == s[k..][n];
    }
  }

  /** Any match has the whole leading run before `and` and a non-empty run after it. */
  lemma MatchShape(s: string, a: int, b: int)
    requires MatchesAt(s, a, b)
    ensures a == SpaceRun(s) && |s| >= a + 3 && s[a..a + 3] == "and"
    ensures SpaceRun(s[a + 3..]) >= 1
  {
    var n := SpaceRun(s);
    assert s[a] == 'a' by { assert s[a..a + 3][0] == s[a]; }
    assert !IsSpace(s[a]) by { assert !IsSpace('a'); }
    assert n == a;
    var t := s[a + 3..];
    assert t != [] && IsSpace(t[0]) by { assert t[0] == s[a + 3]; }
  }

  /** `SeparatorAt` answers `None` only where no match exists. */
  lemma NoMatchWithout(s: string)
    requires SpaceRun(s) == 0 || |s| < SpaceRun(s) + 3 || s[SpaceRun(s)..SpaceRun(s) + 3] != "and"
      || SpaceRun(s[SpaceRun(s) + 3..]) == 0
    ensures forall a, b :: !MatchesAt(s, a, b)
  {
    forall a, b | MatchesAt(s, a, b) ensures false {
      MatchShape(s, a, b);
    }
  }

  /** The string holds a separator match starting at some position. */
  ghost predicate HasSeparator(s: string) {
    exists i :: 0 <= i < |s| && SeparatorAt(s[i..]).Some?
  }

  function RewriteAuthors(s: string): (r: string)
    ensures |r| <= |s|
    ensures r == [] <==> s == []
    decreases |s|
  {
    if s == [] then []
    else match SeparatorAt(s)
      case Some(n) => ", " + RewriteAuthors(s[n..])
      case None => [s[0]] + RewriteAuthors(s[1..])
  }

  /** A match at the front changes the first character to a comma. */
  lemma RewriteChangesAtMatch(s: string)
    requires s != [] && SeparatorAt(s).Some?
    ensures RewriteAuthors(s) != s
  {
    assert RewriteAuthors(s)[0] == ',';
    assert !IsSpace(',');
  }

  /** With no match at the front, `s` holds a match exactly when its tail does. */
  lemma HasSeparatorTail(s: string)
    requires s != [] && SeparatorAt(s).None?
    ensures HasSeparator(s) <==> HasSeparator(s[1..])
  {
    if HasSeparator(s) {
      var i :| 0 <= i < |s| && SeparatorAt(s[i..]).Some?;
      assert i != 0 by { assert s[0..] == s; }
      assert s[1..][i - 1..] == s[i..];
    }
    if HasSeparator(s[1..]) {
      var i :| 0 <= i < |s| - 1 && SeparatorAt(s[1..][i..]).Some?;
      assert s[1..][i..] == s[i + 1..];
    }
  }

  /**
   * The rewrite leaves its input unchanged exactly when the input holds no
   * separator match ("A and B" changes, "Alpha Andersen" does not).
   */
  lemma {:induction false} RewriteUnchangedIff(s: string)
    ensures RewriteAuthors(s) == s <==> !HasSeparator(s)
    decreases |s|
  {
    if s != [] {
      if SeparatorAt(s).Some? {
        RewriteChangesAtMatch(s);
        assert HasSeparator(s) by { assert s[0..] == s; }
      } else {
        RewriteUnchangedIff(s[1..]);
        UnchangedStep(s);
      }
    }
  }

  /** Where no match starts, the string is unchanged exactly when its tail is. */
  lemma UnchangedStep(s: string)
    requires s != [] && SeparatorAt(s).None?
    requires RewriteAuthors(s[1..]) == s[1..] <==> !HasSeparator(s[1..])
    ensures RewriteAuthors(s) == s <==> !HasSeparator(s)
  {
    HasSeparatorTail(s);
    CopyStep(s);
    assert s == [s[0]] + s[1..];
  }

  /** The string has no whitespace at all, as a single name or word. */
  predicate SpaceFree(s: string) {
    forall i :: 0 <= i < |s| ==> !IsSpace(s[i])
  }

  /** One step of the scan at a position where no match starts. */
  lemma CopyStep(s: string)
    requires s != [] && SeparatorAt(s).None?
    ensures RewriteAuthors(s) == [s[0]] + RewriteAuthors(s[1..])
  {
  }

  /** One step of the scan at a position where a match starts. */
  lemma MatchStep(s: string, n: nat)
    requires SeparatorAt(s) == Some(n)
    ensures RewriteAuthors(s) == ", " + RewriteAuthors(s[n..])
  {
  }

  /** A non-space character is copied through by the scan. */
  lemma WordStep(c: char, t: string)
    requires !IsSpace(c)
    ensures RewriteAuthors([c] + t) == [c] + RewriteAuthors(t)
  {
    var s := [c] + t;
    assert s[0] == c && s[1..] == t;
    CopyStep(s);
  }

  /** A space-free prefix is copied through unchanged. */
  lemma {:induction false} SpaceFreePrefix(a: string, t: string)
    requires SpaceFree(a)
    ensures RewriteAuthors(a + t) == a + RewriteAuthors(t)
    decreases |a|
  {
    if a == [] {
      assert a + t == t;
    } else {
      var rest := a[1..];
      assert SpaceFree(rest) by {
        forall i | 0 <= i < |rest| ensures !IsSpace(rest[i]) {
          assert rest[i] == a[i + 1];
        }
      }
      assert a + t == [a[0]] + (rest + t);
      WordStep(a[0], rest + t);
      SpaceFreePrefix(rest, t);
      assert [a[0]] + (rest + RewriteAuthors(t)) == a + RewriteAuthors(t);
    }
  }

  /** `" and "` followed by a non-space is a separator match of length five. */
  lemma SingleSpacedMatch(x: string)
    requires x == [] || !IsSpace(x[0])
    ensures SeparatorAt(" and " + x) == Some(5)
  {
    var s := " and " + x;
    assert s[1..] == "and " + x;
    assert SpaceRun(s) == 1;
    assert s[4..] == " " + x && s[4..][1..] == x;
    assert SpaceRun(s[4..]) == 1;
    assert s[1..4] == "and";
  }

  /** `" and "` followed by a non-space is rewritten to a comma and a space. */
  lemma SingleSpacedSeparator(x: string)
    requires x == [] || !IsSpace(x[0])
    ensures RewriteAuthors(" and " + x) == ", " + RewriteAuthors(x)
  {
    SingleSpacedMatch(x);
    MatchStep(" and " + x, 5);
    assert (" and " + x)[5..] == x;
  }

  /** A single space before a space-free word starts no match. */
  lemma SpaceBeforeWord(b: string)
    requires SpaceFree(b)
    ensures RewriteAuthors(" " + b) == " " + b
  {
    var s := " " + b;
    assert s[1..] == b;
    assert SpaceRun(s) == 1 by { assert b == [] || !IsSpace(s[1]); }
    if |s| >= 4 && s[1..4] == "and" {
      assert s[4..] == b[3..];
      assert SpaceRun(s[4..]) == 0 by { assert b[3..] == [] || !IsSpace(b[3]); }
    }
    CopyStep(s);
    SpaceFreePrefix(b, []);
    assert b + [] == b;
  }

  /** Two names joined by " and " become "a, b". */
  lemma TwoAuthors(a: string, b: string)
    requires SpaceFree(a) && SpaceFree(b)
    ensures RewriteAuthors(a + " and " + b) == a + ", " + b
  {
    SpaceFreePrefix(a, " and " + b);
    assert a + " and " + b == a + (" and " + b);
    SingleSpacedSeparator(b);
    SpaceFreePrefix(b, []);
    assert b + [] == b;
  }

  /** "and " before a space-free word is not itself a match. */
  lemma LeadingAndKept(b: string)
    requires SpaceFree(b)
    ensures RewriteAuthors("and " + b) == "and " + b
  {
    SpaceBeforeWord(b);
    assert SpaceFree("and") by {
      assert !IsSpace('a') && !IsSpace('n') && !IsSpace('d');
    }
    PrefixThen("and", " " + b, " " + b);
    Assoc("and", " ", b);
    assert "and" + " " == "and ";
  }

  lemma Assoc(x: string, y: string, z: string)
    ensures (x + y) + z == x + (y + z)
  {
  }

  /** `" and "` before a rewritten text that starts with a non-space becomes `", "`. */
  lemma SeparatorThen(x: string, y: string)
    requires (x == [] || !IsSpace(x[0])) && RewriteAuthors(x) == y
    ensures RewriteAuthors(" and " + x) == ", " + y
  {
    SingleSpacedSeparator(x);
  }

  /** "and and b": the first match takes the space before the second `and`. */
  lemma DoubledAnd(b: string)
    requires SpaceFree(b)
    ensures RewriteAuthors(" and and " + b) == ", and " + b
  {
    var rest := "and " + b;
    assert rest[0] == 'a' && !IsSpace('a');
    LeadingAndKept(b);
    SeparatorThen(rest, rest);
    Assoc(" and ", "and ", b);
    assert " and " + "and " == " and and ";
    Assoc(", ", "and ", b);
    assert ", " + "and " == ", and ";
  }

  /**
   * A repeated separator word survives: the first match consumes the space
   * before the second `and`, so "a and and b" becomes "a, and b".
   */
  lemma RepeatedAndSurvives(a: string, b: string)
    requires SpaceFree(a) && SpaceFree(b)
    ensures RewriteAuthors(a + " and and " + b) == a + ", and " + b
  {
    DoubledAnd(b);
    PrefixThen(a, " and and " + b, ", and " + b);
    Assoc(a, " and and ", b);
    Assoc(a, ", and ", b);
  }

  /** A space-free prefix in front of a rewritten text is kept in front of the result. */
  lemma PrefixThen(a: string, x: string, y: string)
    requires SpaceFree(a) && RewriteAuthors(x) == y
    ensures RewriteAuthors(a + x) == a + y
  {
    SpaceFreePrefix(a, x);
  }
}
