/**
 * The drawing-name pattern `S-(\w)+-(?!ROOF)\w+-DWG-BAS(\.)dwg` of floorplans_to_gis.py,
 * recognised by hand. Because `\w` excludes `-` and `.`, both word runs of a match are
 * maximal, so the regex engine's backtracking never changes the outcome: from a given
 * start the pattern matches exactly `"S-" + A + "-" + B + "-DWG-BAS.dwg"`, where A and B
 * are maximal non-empty runs of word characters and B does not begin with `ROOF`.
 */
module DwgPattern {
  import opened Common

  /** `\w`, restricted to ASCII letters, digits and the underscore. */
  predicate IsWordChar(c: char) {
    ('a' <= c <= 'z') || ('A' <= c <= 'Z') || ('0' <= c <= '9') || c == '_'
  }

  predicate IsWord(w: string) {
    forall k :: 0 <= k < |w| ==> IsWordChar(w[k])
  }

  /** A character that can never be part of a match (a path separator, for one). */
  predicate IsBreak(c: char) {
    !IsWordChar(c) && c != '-' && c != '.'
  }

  /** The fixed tail of every match. */
  const Suffix: string := "-DWG-BAS.dwg"

  /** What the negative lookahead `(?!ROOF)` refuses at the start of the floor part. */
  const Excluded: string := "ROOF"

  /** The two variable parts of a matched name: building code A and floor B. */
  datatype Parts = Parts(building: string, floor: string)

  /** The text the pattern matches for the given parts (Python's `match.group()`). */
  function Spell(p: Parts): string {
    "S-" + p.building + "-" + p.floor + Suffix
  }

  predicate WellFormed(p: Parts) {
    && |p.building| > 0 && IsWord(p.building)
    && |p.floor| > 0 && IsWord(p.floor)
    && !(Excluded <= p.floor)
  }

  /** End of the maximal run of word characters that starts at i. */
  function WordRun(t: string, i: nat): (j: nat)
    requires i <= |t|
    ensures i <= j <= |t|
    ensures forall k :: i <= k < j ==> IsWordChar(t[k])
    ensures j == |t| || !IsWordChar(t[j])
    decreases |t| - i
  {
    if i < |t| && IsWordChar(t[i]) then WordRun(t, i + 1) else i
  }

  /** w occurs in t at position k. */
  predicate HasAt(t: string, k: nat, w: string) {
    k + |w| <= |t| && t[k..k + |w|] == w
  }

  /**
   * The pattern matched at the start of t (the `^`-anchored search of `dwg_selector`):
   * the parts of the match, or None.
   */
  function MatchPrefix(t: string): (r: Option<Parts>)
    ensures r.Some? ==> WellFormed(r.value) && Spell(r.value) <= t
  {
    if |t| < 2 || t[0] != 'S' || t[1] != '-' then None
    else
      var j := WordRun(t, 2);
      if j == 2 || j == |t| || t[j] != '-' then None
      else if HasAt(t, j + 1, Excluded) then None
      else
        var m := WordRun(t, j + 1);
        if m == j + 1 || !HasAt(t, m, Suffix) then None
        else
          SpelledAt(t, j, m);
          Some(Parts(t[2..j], t[j + 1..m]))
  }

  /** The pieces MatchPrefix checks, put together, spell a well-formed match at the start of t. */
  lemma SpelledAt(t: string, j: nat, m: nat)
    requires 2 < j && j + 1 < m && HasAt(t, m, Suffix)
    requires t[0] == 'S' && t[1] == '-' && t[j] == '-'
    requires forall k :: 2 <= k < j ==> IsWordChar(t[k])
    requires forall k :: j + 1 <= k < m ==> IsWordChar(t[k])
    requires !HasAt(t, j + 1, Excluded)
    ensures WellFormed(Parts(t[2..j], t[j + 1..m]))
    ensures Spell(Parts(t[2..j], t[j + 1..m])) <= t
  {
    var p := Parts(t[2..j], t[j + 1..m]);
    WordSlice(t, 2, j);
    WordSlice(t, j + 1, m);
    assert Spell(p) == t[..m + |Suffix|] by {
      assert t[..2] == "S-" && t[j..j + 1] == "-" && t[m..m + |Suffix|] == Suffix;
      assert t[..m + |Suffix|] == t[..2] + t[2..j] + t[j..j + 1] + t[j + 1..m] + t[m..m + |Suffix|];
    }
  }

  /** A stretch of word characters is a word. */
  lemma WordSlice(t: string, i: nat, j: nat)
    requires i <= j <= |t|
    requires forall k :: i <= k < j ==> IsWordChar(t[k])
    ensures IsWord(t[i..j])
  {
    assert forall k :: 0 <= k < j - i ==> t[i..j][k] == t[i + k];
  }

  /** A word followed by a non-word character is exactly the run WordRun finds. */
  lemma WordRunAt(t: string, i: nat, j: nat, w: string)
    requires i <= j < |t| && t[i..j] == w && IsWord(w) && !IsWordChar(t[j])
    ensures WordRun(t, i) == j
  {
    assert forall k :: i <= k < j ==> t[k] == w[k - i];
  }

  /** Where the pieces of a spelling sit. */
  lemma SpellShape(p: Parts)
    ensures var s, j, m := Spell(p), 2 + |p.building|, 3 + |p.building| + |p.floor|;
      && |s| == m + |Suffix| && s[0] == 'S' && s[1] == '-' && s[j] == '-'
      && s[2..j] == p.building && s[j + 1..m] == p.floor && s[m..] == Suffix
  {
    var s, j, m := Spell(p), 2 + |p.building|, 3 + |p.building| + |p.floor|;
    var x := "S-" + p.building + "-" + p.floor;
    assert s == x + Suffix;
    assert x[..j] == "S-" + p.building;
    assert s[2..j] == x[2..j];
    assert s[j + 1..m] == x[j + 1..m];
  }

  /** Every well-formed spelling at the start of t is what MatchPrefix finds. */
  lemma MatchPrefixComplete(p: Parts, t: string)
    requires WellFormed(p) && Spell(p) <= t
    ensures MatchPrefix(t) == Some(p)
  {
    var b, f := p.building, p.floor;
    var j, m := 2 + |b|, 3 + |b| + |f|;
    var s, n := Spell(p), m + |Suffix|;
    SpellShape(p);
    assert t[..n] == s;
    assert t[0] == 'S' && t[1] == '-' && t[j] == '-' && t[m] == '-' by {
      assert s[m] == s[m..][0];
      assert t[0] == s[0] && t[1] == s[1] && t[j] == s[j] && t[m] == s[m];
    }
    assert t[2..j] == b && t[j + 1..m] == f && t[m..n] == Suffix by {
      assert t[2..j] == s[2..j] && t[j + 1..m] == s[j + 1..m] && t[m..n] == s[m..];
    }
    WordRunAt(t, 2, j, b);
    WordRunAt(t, j + 1, m, f);
    FloorNotExcluded(t, j + 1, f);
  }

  /** A floor part followed by `-` that does not start with ROOF passes the lookahead. */
  lemma FloorNotExcluded(t: string, k: nat, floor: string)
    requires k + |floor| < |t| && t[k..k + |floor|] == floor && t[k + |floor|] == '-'
    requires !(Excluded <= floor)
    ensures !HasAt(t, k, Excluded)
  {
  }

  /** Acceptance, both directions: the anchored pattern matches iff t starts with a well-formed spelling. */
  lemma AcceptsIff(t: string)
    ensures MatchPrefix(t).Some? <==> exists p :: WellFormed(p) && Spell(p) <= t
  {
    if p :| WellFormed(p) && Spell(p) <= t {
      MatchPrefixComplete(p, t);
    }
  }

  /** The parts of a match are determined by the text: backtracking has no choice to make. */
  lemma PartsUnique(p: Parts, q: Parts, t: string)
    requires WellFormed(p) && Spell(p) <= t
    requires WellFormed(q) && Spell(q) <= t
    ensures p == q
  {
    MatchPrefixComplete(p, t);
    MatchPrefixComplete(q, t);
  }

  /** A match found by the unanchored search: where it starts and its parts. */
  datatype Hit = Hit(start: nat, parts: Parts)

  /**
   * Python's `re.search` of the pattern in s, trying the starts i, i + 1, ..., |s|
   * in order: the leftmost match at or after i.
   */
  function SearchFrom(s: string, i: nat): (r: Option<Hit>)
    requires i <= |s|
    ensures r.Some? ==> WellFormed(r.value.parts)
    decreases |s| - i
  {
    var here := MatchPrefix(s[i..]);
    if here.Some? then Some(Hit(i, here.value))
    else if i == |s| then None
    else SearchFrom(s, i + 1)
  }

  /**
   * What the search promises: a hit is a match at its start, no start before it
   * (from i on) matches, and no start at all matches when nothing is found.
   */
  lemma {:induction false} SearchFromLeftmost(s: string, i: nat)
    requires i <= |s|
    ensures var r := SearchFrom(s, i);
      && (r.Some? ==> i <= r.value.start <= |s| && MatchPrefix(s[r.value.start..]) == Some(r.value.parts))
      && (forall k :: i <= k <= |s| && (r.None? || k < r.value.start) ==> MatchPrefix(s[k..]).None?)
    decreases |s| - i
  {
    var here := MatchPrefix(s[i..]);
    if here.Some? {
      assert SearchFrom(s, i) == Some(Hit(i, here.value));
    } else if i == |s| {
      assert SearchFrom(s, i) == None;
    } else {
      assert SearchFrom(s, i) == SearchFrom(s, i + 1);
      SearchFromLeftmost(s, i + 1);
      var r := SearchFrom(s, i);
      forall k | i <= k <= |s| && (r.None? || k < r.value.start)
        ensures MatchPrefix(s[k..]).None?
      {
        if k == i {
          assert s[k..] == s[i..];
        }
      }
    }
  }

  /** The parts of the leftmost match in s, or None. */
  function Search(s: string): (r: Option<Parts>)
    ensures r.Some? ==> WellFormed(r.value)
  {
    var h := SearchFrom(s, 0);
    if h.Some? then Some(h.value.parts) else None
  }

  /** The text found by the unanchored search (`match.group()`), or None. */
  function Matched(s: string): (r: Option<string>)
    ensures r.Some? ==> var t := r.value;
      |t| >= 4 + |Suffix| && t[..2] == "S-" && t[|t| - |Suffix|..] == Suffix
  {
    var p := Search(s);
    if p.Some? then
      SpellShape(p.value);
      Some(Spell(p.value))
    else None
  }

  /**
   * The unanchored search, both directions: it finds some text iff the anchored pattern
   * matches at some start k, and then the text is the spelling matched at the leftmost such k.
   */
  lemma MatchedIff(s: string)
    ensures Matched(s).Some? <==> exists k :: 0 <= k <= |s| && MatchPrefix(s[k..]).Some?
    ensures Matched(s).Some? ==> exists k :: && 0 <= k <= |s| && MatchPrefix(s[k..]).Some?
                                            && Matched(s) == Some(Spell(MatchPrefix(s[k..]).value))
                                            && forall k' :: 0 <= k' < k ==> MatchPrefix(s[k'..]).None?
  {
    SearchFromLeftmost(s, 0);
  }

  /** The unanchored search finds a match that starts at the beginning of s. */
  lemma SearchAtStart(s: string)
    requires MatchPrefix(s).Some?
    ensures Search(s) == MatchPrefix(s)
  {
    assert s[0..] == s;
  }

  /** No match can contain a break character. */
  lemma SpellHasNoBreak(p: Parts, k: nat)
    requires WellFormed(p) && k < |Spell(p)|
    ensures !IsBreak(Spell(p)[k])
  {
    var a, b := |p.building|, |p.floor|;
    if 2 <= k < 2 + a {
      assert Spell(p)[k] == p.building[k - 2];
    } else if 3 + a <= k < 3 + a + b {
      assert Spell(p)[k] == p.floor[k - 3 - a];
    } else if 3 + a + b <= k {
      assert Spell(p)[k] == Suffix[k - 3 - a - b];
    }
  }

  /** Text after a break character cannot change what the anchored pattern matches before it. */
  lemma MatchPrefixBeforeBreak(t: string, u: string)
    requires t != [] && IsBreak(t[|t| - 1])
    ensures MatchPrefix(t + u) == MatchPrefix(t)
  {
    var r := MatchPrefix(t);
    if r.Some? {
      MatchPrefixComplete(r.value, t + u);
    } else if MatchPrefix(t + u).Some? {
      var p := MatchPrefix(t + u).value;
      if |Spell(p)| >= |t| {
        assert Spell(p)[|t| - 1] == t[|t| - 1];
        SpellHasNoBreak(p, |t| - 1);
      }
      assert Spell(p) <= t;
      MatchPrefixComplete(p, t);
    }
  }

  /** The search over p + q from a start inside q finds what the search over q finds. */
  lemma {:induction false} SearchFromShift(p: string, q: string, j: nat)
    requires j <= |q|
    ensures var r, h := SearchFrom(p + q, |p| + j), SearchFrom(q, j);
      r.Some? == h.Some? && (r.Some? ==> r.value == Hit(|p| + h.value.start, h.value.parts))
    decreases |q| - j
  {
    var s := p + q;
    assert s[|p| + j..] == q[j..];
    var here := MatchPrefix(q[j..]);
    if here.Some? {
      assert SearchFrom(s, |p| + j) == Some(Hit(|p| + j, here.value));
      assert SearchFrom(q, j) == Some(Hit(j, here.value));
    } else if j == |q| {
      assert SearchFrom(s, |p| + j) == None;
      assert SearchFrom(q, j) == None;
    } else {
      assert SearchFrom(s, |p| + j) == SearchFrom(s, |p| + j + 1);
      assert SearchFrom(q, j) == SearchFrom(q, j + 1);
      SearchFromShift(p, q, j + 1);
    }
  }

  /**
   * The search over p + q, started inside p, finds the leftmost match of p when p has
   * one, and otherwise the leftmost match of q, provided p ends with a break character.
   */
  lemma {:induction false} SearchFromConcat(p: string, q: string, i: nat)
    requires i <= |p|
    requires p == [] || IsBreak(p[|p| - 1])
    ensures var r, h := SearchFrom(p + q, i), SearchFrom(p, i);
      if h.Some? then r == h
      else r.Some? == SearchFrom(q, 0).Some? && (r.Some? ==> r.value.parts == SearchFrom(q, 0).value.parts)
    decreases |p| - i
  {
    if i == |p| {
      assert p[i..] == [];
      SearchFromShift(p, q, 0);
    } else {
      assert (p + q)[i..] == p[i..] + q;
      MatchPrefixBeforeBreak(p[i..], q);
      if MatchPrefix(p[i..]).None? {
        SearchFromConcat(p, q, i + 1);
      }
    }
  }

  /**
   * The search over p + q, when p is empty or ends with a break character (a path
   * separator): the leftmost match of p if p has one, otherwise the leftmost match of q.
   */
  lemma SearchConcat(p: string, q: string)
    requires p == [] || IsBreak(p[|p| - 1])
    ensures Search(p + q) == if Search(p).Some? then Search(p) else Search(q)
  {
    SearchFromConcat(p, q, 0);
  }

  /** The docstring's example drawing is selected, with building 170B and floor 01. */
  lemma ExampleAccepted()
    ensures MatchPrefix("S-170B-01-DWG-BAS.dwg") == Some(Parts("170B", "01"))
  {
    MatchPrefixComplete(Parts("170B", "01"), "S-170B-01-DWG-BAS.dwg");
  }

  /** A roof drawing is refused by the lookahead. */
  lemma ExampleRoofRejected()
    ensures MatchPrefix("S-100A-ROOF-DWG-BAS.dwg") == None
  {
    var t := "S-100A-ROOF-DWG-BAS.dwg";
    assert t[6] == '-';
    assert WordRun(t, 2) == 6;
    assert t[7..11] == Excluded;
  }
}
