/**
 * `gis_ready_files` of floorplans_to_gis.py: the decision whether a drawing is copied
 * to the GIS-ready folder. The copy itself is left to the file system.
 */
module CopyFilter {
  import opened Common
  import opened DwgPattern
  import opened PathEscape

  /** The effect `gis_ready_files` asks for: copy a file to a folder, or nothing. */
  datatype CopyAction = Copy(source: string, dest: string) | Skip

  /** The position of the first occurrence of x in s. */
  function FirstIndex(s: seq<string>, x: string): (k: nat)
    requires x in s
    ensures k < |s| && s[k] == x && x !in s[..k]
  {
    if s[0] == x then 0
    else
      var k := 1 + FirstIndex(s[1..], x);
      assert s[..k] == [s[0]] + s[1..][..k - 1];
      k
  }

  /** The first occurrence is the only position holding x with no x before it. */
  lemma FirstIndexAt(s: seq<string>, x: string, k: nat)
    requires k < |s| && s[k] == x && x !in s[..k]
    ensures FirstIndex(s, x) == k
  {
  }

  /** Appending to s moves no first occurrence of a value s already holds. */
  lemma FirstIndexSnoc(s: seq<string>, x: string, y: string)
    requires y in s
    ensures FirstIndex(s + [x], y) == FirstIndex(s, y)
  {
    var k := FirstIndex(s, y);
    assert (s + [x])[..k] == s[..k];
    FirstIndexAt(s + [x], y, k);
  }

  /**
   * `series.unique()`: the series' values, each once, in the order in which they first
   * appear in the series.
   */
  function Unique(series: seq<string>): (r: seq<string>)
    ensures forall i, j :: 0 <= i < j < |r| ==> r[i] != r[j]
    ensures forall x :: x in r <==> x in series
    ensures forall i, j :: 0 <= i < j < |r| ==> FirstIndex(series, r[i]) < FirstIndex(series, r[j])
  {
    if series == [] then []
    else
      var init, x := series[..|series| - 1], series[|series| - 1];
      assert series == init + [x];
      var u := Unique(init);
      forall y | y in u ensures FirstIndex(series, y) == FirstIndex(init, y) {
        FirstIndexSnoc(init, x, y);
      }
      if x in u then u
      else
        assert FirstIndex(series, x) == |init| by {
          FirstIndexAt(series, x, |init|);
        }
        u + [x]
  }

  /**
   * `gis_ready_files(dwg, dwg_filter, out_loc)`: the drawing is copied, from its path with
   * doubled backslashes collapsed, iff the unanchored search finds a match in its path and
   * the matched text is one of the filter's values.
   */
  function GisReadyFiles(dwg: string, filter: seq<string>, outLoc: string): (r: CopyAction)
    ensures r.Copy? <==> Matched(dwg).Some? && Matched(dwg).value in filter
    ensures r.Copy? ==> r.source == Unescape(dwg) && r.dest == outLoc
  {
    var found := Matched(dwg);
    if found.Some? && found.value in Unique(filter) then Copy(Unescape(dwg), outLoc) else Skip
  }

  /** Only the values the filter holds matter: their order and their duplicates do not. */
  lemma FilterOrderIrrelevant(dwg: string, f1: seq<string>, f2: seq<string>, outLoc: string)
    requires forall x :: x in f1 <==> x in f2
    ensures GisReadyFiles(dwg, f1, outLoc) == GisReadyFiles(dwg, f2, outLoc)
  {
    var found := Matched(dwg);
    if found.Some? {
      assert found.value in f1 <==> found.value in Unique(f1);
    }
  }
}
