/**
 * `dwg_selector` of floorplans_to_gis.py with its default pattern: it walks a directory
 * tree and hands every file whose name matches the `^`-anchored pattern, as an absolute
 * path with doubled backslashes, to the callback `fn`, when one is given.
 * The walk itself is an input here: the `(root, files)` pairs `os.walk` yields, each root
 * already made absolute.
 */
module Selector {
  import opened Common
  import opened DwgPattern
  import opened PathEscape
  import CopyFilter
  import GisNaming

  /** One step of the walk: a directory, already absolute, and the names of its files. */
  datatype WalkEntry = WalkEntry(root: string, files: seq<string>)

  /** One walked file. */
  datatype FileRef = FileRef(root: string, name: string)

  predicate IsSep(c: char) {
    c == '\\' || c == '/'
  }

  /** The directory part of `os.path.join(root, name)` on Windows, for a plain file name. */
  function DirPrefix(root: string): (r: string)
    ensures r == [] || IsSep(r[|r| - 1])
    ensures root <= r && |r| <= |root| + 1
  {
    if root == [] || IsSep(root[|root| - 1]) then root else root + "\\"
  }

  /** `os.path.join(root, name)`: a separator is added unless the root already ends with one. */
  function JoinPath(root: string, name: string): (r: string)
    ensures |root| + |name| <= |r| <= |root| + 1 + |name|
  {
    DirPrefix(root) + name
  }

  /** The selector's test: the anchored pattern matches the file name. */
  predicate NameSelected(name: string) {
    MatchPrefix(name).Some?
  }

  /** What `fn` receives for a walked file: its joined path with every backslash doubled. */
  function DispatchPath(f: FileRef): (r: string)
    ensures |JoinPath(f.root, f.name)| <= |r|
  {
    Escape(JoinPath(f.root, f.name))
  }

  /** The joined path starts with the root and ends with the file name. */
  lemma JoinPathShape(root: string, name: string)
    ensures var r := JoinPath(root, name);
      root <= r && r[|r| - |name|..] == name
  {
  }

  /** Collapsing the doubled backslashes of a dispatched path gives back the walked file's path. */
  lemma DispatchPathRecovers(f: FileRef)
    ensures Unescape(DispatchPath(f)) == JoinPath(f.root, f.name)
  {
    UnescapeEscape(JoinPath(f.root, f.name));
  }

  /** The files of one walk entry, in the order `os.walk` lists them. */
  function EntryFiles(root: string, names: seq<string>): (r: seq<FileRef>)
    ensures |r| == |names|
    ensures forall k :: 0 <= k < |names| ==> r[k] == FileRef(root, names[k])
  {
    if names == [] then []
    else EntryFiles(root, names[..|names| - 1]) + [FileRef(root, names[|names| - 1])]
  }

  /** All walked files, entry after entry. */
  function WalkFiles(walk: seq<WalkEntry>): seq<FileRef>
  {
    if walk == [] then []
    else
      var last := walk[|walk| - 1];
      WalkFiles(walk[..|walk| - 1]) + EntryFiles(last.root, last.files)
  }

  /** The paths handed to `fn` for one file: its dispatch path if it is selected, else none. */
  function Dispatch(f: FileRef): seq<string> {
    if NameSelected(f.name) then [DispatchPath(f)] else []
  }

  /** The paths handed to `fn`, in walk order. */
  function Selection(files: seq<FileRef>): seq<string>
  {
    if files == [] then []
    else Selection(files[..|files| - 1]) + Dispatch(files[|files| - 1])
  }

  /**
   * `dwg_selector(fn, dwg_loc)` with the default pattern: the nested loops over the walk.
   * Returns the arguments of the calls to `fn`, in order; none when `fn` is None.
   */
  method DwgSelector(walk: seq<WalkEntry>, fnGiven: bool) returns (calls: seq<string>)
    ensures calls == if fnGiven then Selection(WalkFiles(walk)) else []
  {
    calls := [];
    var i := 0;
    while i < |walk|
      invariant 0 <= i <= |walk|
      invariant fnGiven ==> calls == Selection(WalkFiles(walk[..i]))
      invariant !fnGiven ==> calls == []
    {
      var entry := walk[i];
      ghost var before := WalkFiles(walk[..i]);
      var j := 0;
      assert before + EntryFiles(entry.root, entry.files[..0]) == before;
      while j < |entry.files|
        invariant 0 <= j <= |entry.files|
        invariant fnGiven ==> calls == Selection(before + EntryFiles(entry.root, entry.files[..j]))
        invariant !fnGiven ==> calls == []
      {
        var name := entry.files[j];
        ghost var done := before + EntryFiles(entry.root, entry.files[..j]);
        EntryStep(before, entry.root, entry.files, j);
        if MatchPrefix(name).Some? {
          var dwgPath := JoinPath(entry.root, name);
          dwgPath := Escape(dwgPath);
          if fnGiven {
            calls := calls + [dwgPath];
          }
        }
        j := j + 1;
      }
      assert entry.files[..|entry.files|] == entry.files;
      assert walk[..i + 1] == walk[..i] + [entry];
      WalkFilesSnoc(walk[..i], entry);
      i := i + 1;
    }
    assert walk[..|walk|] == walk;
  }

  /** One more file of the current entry: its dispatch is appended to the selection so far. */
  lemma EntryStep(before: seq<FileRef>, root: string, names: seq<string>, j: nat)
    requires j < |names|
    ensures Selection(before + EntryFiles(root, names[..j + 1]))
         == Selection(before + EntryFiles(root, names[..j])) + Dispatch(FileRef(root, names[j]))
  {
    assert names[..j + 1][..j] == names[..j];
    var done := before + EntryFiles(root, names[..j]);
    assert before + EntryFiles(root, names[..j + 1]) == done + [FileRef(root, names[j])];
    SelectionSnoc(done, FileRef(root, names[j]));
  }

  /** Walking one more entry appends its files. */
  lemma WalkFilesSnoc(walk: seq<WalkEntry>, e: WalkEntry)
    ensures WalkFiles(walk + [e]) == WalkFiles(walk) + EntryFiles(e.root, e.files)
  {
    assert (walk + [e])[..|walk|] == walk;
  }

  /** Appending one file appends its dispatch, if any. */
  lemma SelectionSnoc(fs: seq<FileRef>, f: FileRef)
    ensures Selection(fs + [f]) == Selection(fs) + Dispatch(f)
  {
    assert (fs + [f])[..|fs|] == fs;
  }

  /** Selection follows the walk: the paths for a + b are those for a, then those for b. */
  lemma {:induction false} SelectionAppend(a: seq<FileRef>, b: seq<FileRef>)
    ensures Selection(a + b) == Selection(a) + Selection(b)
    decreases |b|
  {
    if b == [] {
      assert a + b == a;
    } else {
      var b', last := b[..|b| - 1], b[|b| - 1];
      assert Selection(a + b) == Selection(a + b') + Dispatch(last) by {
        assert a + b == (a + b') + [last];
        SelectionSnoc(a + b', last);
      }
      assert Selection(b) == Selection(b') + Dispatch(last) by {
        assert b == b' + [last];
        SelectionSnoc(b', last);
      }
      SelectionAppend(a, b');
    }
  }

  /** One file is dispatched once if its name is selected, and never otherwise. */
  lemma SelectionSingle(f: FileRef)
    ensures Selection([f]) == if NameSelected(f.name) then [DispatchPath(f)] else []
  {
    assert [f][..0] == [];
  }

  /** A path is dispatched iff it is the dispatch path of some walked file whose name is selected. */
  lemma {:induction false} SelectionMembers(fs: seq<FileRef>, x: string)
    ensures x in Selection(fs) <==> exists k :: 0 <= k < |fs| && NameSelected(fs[k].name) && x == DispatchPath(fs[k])
  {
    if fs != [] {
      var init, last := fs[..|fs| - 1], fs[|fs| - 1];
      assert fs == init + [last];
      SelectionSnoc(init, last);
      SelectionMembers(init, x);
      assert forall k :: 0 <= k < |init| ==> fs[k] == init[k];
    }
  }

  /** No file of the walk is dispatched when no file name is selected. */
  lemma {:induction false} NothingSelected(fs: seq<FileRef>)
    requires forall k :: 0 <= k < |fs| ==> !NameSelected(fs[k].name)
    ensures Selection(fs) == []
  {
    if fs != [] {
      NothingSelected(fs[..|fs| - 1]);
    }
  }

  /** The walked files are exactly the (root, name) pairs of the walk's entries. */
  lemma {:induction false} WalkFilesMembers(walk: seq<WalkEntry>, f: FileRef)
    ensures f in WalkFiles(walk) <==>
      exists i, j :: 0 <= i < |walk| && 0 <= j < |walk[i].files| && f == FileRef(walk[i].root, walk[i].files[j])
  {
    if walk != [] {
      var init, last := walk[..|walk| - 1], walk[|walk| - 1];
      WalkFilesMembers(init, f);
      var es := EntryFiles(last.root, last.files);
      if f in WalkFiles(init) {
        var i, j :| 0 <= i < |init| && 0 <= j < |init[i].files| && f == FileRef(init[i].root, init[i].files[j]);
        assert walk[i] == init[i];
      } else if f in es {
        var j :| 0 <= j < |es| && es[j] == f;
        assert walk[|walk| - 1] == last;
      }
      if exists i, j :: 0 <= i < |walk| && 0 <= j < |walk[i].files| && f == FileRef(walk[i].root, walk[i].files[j]) {
        var i, j :| 0 <= i < |walk| && 0 <= j < |walk[i].files| && f == FileRef(walk[i].root, walk[i].files[j]);
        if i < |init| {
          assert init[i] == walk[i];
        } else {
          assert es[j] == f;
        }
      }
    }
  }

  /** A separator ends the directory part, so no match can run from it into the file name. */
  lemma EscapedPrefixBreaks(root: string)
    ensures var e := Escape(DirPrefix(root)); e == [] || IsBreak(e[|e| - 1])
  {
    if DirPrefix(root) != [] {
      EscapeLast(DirPrefix(root));
    }
  }

  /**
   * The unanchored search over a dispatched path finds the file name's own match, provided
   * the directory part of the path holds none.
   */
  lemma SearchOfDispatched(f: FileRef)
    requires NameSelected(f.name)
    requires Search(Escape(DirPrefix(f.root))).None?
    ensures Search(DispatchPath(f)) == MatchPrefix(f.name)
  {
    var e, en := Escape(DirPrefix(f.root)), Escape(f.name);
    assert DispatchPath(f) == e + en by {
      EscapeConcat(DirPrefix(f.root), f.name);
    }
    assert Search(e + en) == Search(en) by {
      EscapedPrefixBreaks(f.root);
      SearchConcat(e, en);
    }
    assert Search(en) == MatchPrefix(f.name) by {
      EscapedNameMatches(f.name);
      SearchAtStart(en);
    }
  }

  /** Doubling the backslashes of a selected name keeps its match, which holds no backslash. */
  lemma EscapedNameMatches(name: string)
    requires NameSelected(name)
    ensures MatchPrefix(Escape(name)) == MatchPrefix(name)
  {
    var p := MatchPrefix(name).value;
    var sp := Spell(p);
    var rest := name[|sp|..];
    assert name == sp + rest;
    assert Escape(name) == sp + Escape(rest) by {
      EscapeConcat(sp, rest);
      SpellHasNoBackslash(p);
      EscapeNoBackslash(sp);
    }
    assert sp <= Escape(name);
    MatchPrefixComplete(p, Escape(name));
  }

  /** A match holds no backslash. */
  lemma SpellHasNoBackslash(p: Parts)
    requires WellFormed(p)
    ensures '\\' !in Spell(p)
  {
    forall k | 0 <= k < |Spell(p)| ensures Spell(p)[k] != '\\' {
      SpellHasNoBreak(p, k);
    }
  }

  /**
   * The selector feeding the copy filter: a dispatched file is copied iff its name's match
   * is one of the filter's values, and what is copied is the walked file's own path.
   */
  lemma CopyOfDispatched(f: FileRef, filter: seq<string>, outLoc: string)
    requires NameSelected(f.name)
    requires Search(Escape(DirPrefix(f.root))).None?
    ensures CopyFilter.GisReadyFiles(DispatchPath(f), filter, outLoc) ==
      if Spell(MatchPrefix(f.name).value) in filter then CopyFilter.Copy(JoinPath(f.root, f.name), outLoc)
      else CopyFilter.Skip
  {
    SearchOfDispatched(f);
    UnescapeEscape(JoinPath(f.root, f.name));
  }

  /** The selector feeding the converter: with no name given, the output is named after the file's match. */
  lemma ConversionOfDispatched(f: FileRef, localFc: string)
    requires NameSelected(f.name)
    requires Search(Escape(DirPrefix(f.root))).None?
    ensures GisNaming.CadToGisObj(DispatchPath(f), localFc, None, None).outName ==
      Some(GisNaming.NameOf(MatchPrefix(f.name).value))
  {
    SearchOfDispatched(f);
  }

  /** Of two files of which only the first is selected, only the first is dispatched. */
  lemma SelectionFirstOfTwo(f: FileRef, g: FileRef)
    requires NameSelected(f.name) && !NameSelected(g.name)
    ensures Selection([f, g]) == [DispatchPath(f)]
  {
    assert [f, g] == [f] + [g];
    SelectionSnoc([f], g);
    SelectionSingle(f);
  }

  /** Of a drawing and its roof drawing in one folder, only the drawing is dispatched. */
  lemma ExampleDispatch(root: string)
    ensures var first, roof := FileRef(root, "S-100A-01-DWG-BAS.dwg"), FileRef(root, "S-100A-ROOF-DWG-BAS.dwg");
      Selection([first, roof]) == [DispatchPath(first)]
  {
    var first, roof := FileRef(root, "S-100A-01-DWG-BAS.dwg"), FileRef(root, "S-100A-ROOF-DWG-BAS.dwg");
    assert NameSelected(first.name) by {
      assert first.name == "S-" + "100A" + "-" + "01" + Suffix;
      MatchPrefixComplete(Parts("100A", "01"), first.name);
    }
    assert !NameSelected(roof.name) by {
      ExampleRoofRejected();
    }
    SelectionFirstOfTwo(first, roof);
  }

  /** A filter naming only that drawing has it copied, from its own path. */
  lemma ExampleCopy(root: string, outLoc: string)
    requires Search(Escape(DirPrefix(root))).None?
    ensures var first := FileRef(root, "S-100A-01-DWG-BAS.dwg");
      CopyFilter.GisReadyFiles(DispatchPath(first), ["S-100A-01-DWG-BAS.dwg"], outLoc)
        == CopyFilter.Copy(JoinPath(root, first.name), outLoc)
  {
    var first := FileRef(root, "S-100A-01-DWG-BAS.dwg");
    var p := Parts("100A", "01");
    assert first.name == "S-" + "100A" + "-" + "01" + Suffix;
    CopyOfNamedDrawing(first, p, [first.name], outLoc);
  }

  /** A file named exactly after a match that the filter lists is copied from its own path. */
  lemma CopyOfNamedDrawing(f: FileRef, p: Parts, filter: seq<string>, outLoc: string)
    requires WellFormed(p) && f.name == Spell(p) && Spell(p) in filter
    requires Search(Escape(DirPrefix(f.root))).None?
    ensures CopyFilter.GisReadyFiles(DispatchPath(f), filter, outLoc) == CopyFilter.Copy(JoinPath(f.root, f.name), outLoc)
  {
    MatchPrefixComplete(p, f.name);
    CopyOfDispatched(f, filter, outLoc);
  }
}
