/**
 * `cad_to_gis_obj` of floorplans_to_gis.py, apart from the conversion itself: the
 * feature-class path it hands to the GIS library, the default output workspace and
 * the output name derived from the drawing name.
 */
module GisNaming {
  import opened Common
  import opened DwgPattern

  /** The derived name, written directly from the parts of a match. */
  function NameOf(p: Parts): string {
    "S_" + p.building + "_" + p.floor + "_DWG_BAS"
  }

  /** `found[:-4].replace('-', '_')`. */
  function DeriveName(found: string): (r: string)
    ensures |found| >= 4 ==> |r| == |found| - 4
    ensures '-' !in r
  {
    ReplaceChar(DropLast(found, 4), '-', '_')
  }

  /** The replacement works character by character. */
  lemma ReplaceConcat(a: string, b: string)
    ensures ReplaceChar(a + b, '-', '_') == ReplaceChar(a, '-', '_') + ReplaceChar(b, '-', '_')
  {
    var l, r := ReplaceChar(a + b, '-', '_'), ReplaceChar(a, '-', '_') + ReplaceChar(b, '-', '_');
    assert forall k :: 0 <= k < |l| ==> l[k] == r[k] by {
      forall k | 0 <= k < |l| ensures l[k] == r[k] {
        if k >= |a| {
          assert (a + b)[k] == b[k - |a|];
        }
      }
    }
  }

  /** A word holds no hyphen. */
  lemma WordHasNoHyphen(w: string)
    requires IsWord(w)
    ensures '-' !in w
  {
  }

  /** The replacement on the text a match keeps once its extension is cut off. */
  lemma ReplaceInStem(b: string, f: string)
    requires '-' !in b && '-' !in f
    ensures ReplaceChar("S-" + b + "-" + f + "-DWG-BAS", '-', '_') == "S_" + b + "_" + f + "_DWG_BAS"
  {
    var x1, x2, x3 := "S-" + b, "S-" + b + "-", "S-" + b + "-" + f;
    assert ReplaceChar(x1, '-', '_') == "S_" + b by {
      ReplaceConcat("S-", b);
    }
    assert ReplaceChar(x2, '-', '_') == "S_" + b + "_" by {
      ReplaceConcat(x1, "-");
    }
    assert ReplaceChar(x3, '-', '_') == "S_" + b + "_" + f by {
      ReplaceConcat(x2, f);
    }
    assert ReplaceChar(x3 + "-DWG-BAS", '-', '_') == "S_" + b + "_" + f + "_DWG_BAS" by {
      ReplaceConcat(x3, "-DWG-BAS");
      SuffixStemReplaced();
    }
  }

  /** The fixed tail of the stem, `-DWG-BAS`, becomes `_DWG_BAS`. */
  lemma SuffixStemReplaced()
    ensures ReplaceChar("-DWG-BAS", '-', '_') == "_DWG_BAS"
  {
    var s, r := "-DWG-BAS", ReplaceChar("-DWG-BAS", '-', '_');
    assert s[0] == '-' && s[1] == 'D' && s[2] == 'W' && s[3] == 'G';
    assert s[4] == '-' && s[5] == 'B' && s[6] == 'A' && s[7] == 'S';
    assert r[0] == '_' && r[1] == 'D' && r[2] == 'W' && r[3] == 'G';
    assert r[4] == '_' && r[5] == 'B' && r[6] == 'A' && r[7] == 'S';
  }

  /**
   * The derived name of a match: the reference name, free of hyphens, four characters
   * shorter than the match.
   */
  lemma DeriveNameOfMatch(p: Parts)
    requires WellFormed(p)
    ensures DeriveName(Spell(p)) == NameOf(p)
    ensures '-' !in DeriveName(Spell(p))
    ensures |DeriveName(Spell(p))| == |Spell(p)| - 4
  {
    var b, f := p.building, p.floor;
    assert DropLast(Spell(p), 4) == "S-" + b + "-" + f + "-DWG-BAS";
    WordHasNoHyphen(b);
    WordHasNoHyphen(f);
    ReplaceInStem(b, f);
  }

  /** What `cad_to_gis_obj` passes to the feature-class conversion. */
  datatype Conversion = Conversion(source: string, outLoc: string, outName: Option<string>)

  /** `r'{}\\{}'.format(dwg, local_fc)`: a raw string, so two backslashes between the parts. */
  function FeatureSource(dwg: string, localFc: string): (r: string)
    ensures |r| == |dwg| + 2 + |localFc|
    ensures r[..|dwg|] == dwg && r[|dwg|..|dwg| + 2] == "\\\\" && r[|dwg| + 2..] == localFc
  {
    dwg + "\\\\" + localFc
  }

  /**
   * `cad_to_gis_obj(dwg, local_fc, out_loc, out_name)`: the location defaults to the
   * in-memory workspace; a given name is kept; otherwise the name is derived from the
   * leftmost match in the path, and stays None when there is none.
   */
  function CadToGisObj(dwg: string, localFc: string, outLoc: Option<string>, outName: Option<string>): (r: Conversion)
    ensures r.source == FeatureSource(dwg, localFc)
    ensures r.outLoc == (if outLoc.Some? then outLoc.value else InMemory)
    ensures outName.Some? ==> r.outName == outName
    ensures outName.None? ==> (r.outName.Some? <==> Search(dwg).Some?)
    ensures outName.None? && r.outName.Some? ==>
              && r.outName.value == NameOf(Search(dwg).value)
              && '-' !in r.outName.value
              && |r.outName.value| == |Matched(dwg).value| - 4
  {
    var loc := if outLoc.Some? then outLoc.value else InMemory;
    if outName.Some? then Conversion(FeatureSource(dwg, localFc), loc, outName)
    else if Matched(dwg).Some? then
      DeriveNameOfMatch(Search(dwg).value);
      Conversion(FeatureSource(dwg, localFc), loc, Some(DeriveName(Matched(dwg).value)))
    else Conversion(FeatureSource(dwg, localFc), loc, None)
  }

  /** A drawing name that starts with a match gets that match's name by default. */
  lemma DefaultNameOfDrawing(dwg: string, localFc: string, p: Parts)
    requires WellFormed(p) && Spell(p) <= dwg
    ensures CadToGisObj(dwg, localFc, None, None).outName == Some(NameOf(p))
  {
    MatchPrefixComplete(p, dwg);
    SearchAtStart(dwg);
  }

  /** The example in the source comment: S-170B-01-DWG-BAS.dwg becomes S_170B_01_DWG_BAS. */
  lemma ExampleDerivedName()
    ensures DeriveName("S-170B-01-DWG-BAS.dwg") == "S_170B_01_DWG_BAS"
  {
    var p := Parts("170B", "01");
    assert Spell(p) == "S-170B-01-DWG-BAS.dwg";
    assert NameOf(p) == "S_170B_01_DWG_BAS";
    DeriveNameOfMatch(p);
  }

  /** Converting S-200C-02-DWG-BAS.dwg's SPACEDATA with no name given yields S_200C_02_DWG_BAS. */
  lemma ExampleConversion()
    ensures var r := CadToGisObj("S-200C-02-DWG-BAS.dwg", "SPACEDATA", None, None);
      r.outName == Some("S_200C_02_DWG_BAS") && r.outLoc == InMemory
  {
    var p := Parts("200C", "02");
    assert Spell(p) == "S-200C-02-DWG-BAS.dwg";
    assert NameOf(p) == "S_200C_02_DWG_BAS";
    DefaultNameOfDrawing("S-200C-02-DWG-BAS.dwg", "SPACEDATA", p);
  }
}
