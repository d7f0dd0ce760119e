/**
 * `lisp_dwg_runner` of floorplans_to_gis.py: the commands it sends to the active AutoCAD
 * document to open a drawing and run a LISP routine against it. AutoCAD itself is not
 * modelled; the document only records, in order, the commands sent to it.
 */
module LispRunner {
  import opened Common

  /** The active AutoCAD document, as far as this script can see it: a log of `SendCommand` calls. */
  class AcadDocument {
    var sent: seq<string>

    constructor ()
      ensures sent == []
    {
      sent := [];
    }

    /** `doc.SendCommand(command)`. */
    method SendCommand(command: string)
      modifies this
      ensures sent == old(sent) + [command]
    {
      sent := sent + [command];
    }
  }

  const OpenHead: string := "(command \"_.OPEN\" \""
  const OpenTail: string := "\" \"Y\")\n"
  const LoadHead: string := "(LOAD \""
  const LoadTail: string := "\")\n"
  const PushDbmod: string := "(acad-push-dbmod)\n"
  const PopDbmod: string := "(acad-pop-dbmod)\n"
  const SdiOn: string := "SDI 1\n"
  const FiledialogOff: string := "FILEDIA 0\n"
  const Save: string := "(command \"_.save\" \"\" \"N\")\n"

  /** `'(command "_.OPEN" "%s" "Y")\n' % dwg`. */
  function OpenCommand(dwg: string): (r: string)
    ensures |r| == |OpenHead| + |dwg| + |OpenTail|
    ensures r[..|OpenHead|] == OpenHead && r[|OpenHead|..|OpenHead| + |dwg|] == dwg
  {
    OpenHead + dwg + OpenTail
  }

  /** `'(LOAD "%s")\n' % lisp`. */
  function LoadCommand(lisp: string): (r: string)
    ensures |r| == |LoadHead| + |lisp| + |LoadTail|
    ensures r[..|LoadHead|] == LoadHead && r[|LoadHead|..|LoadHead| + |lisp|] == lisp
  {
    LoadHead + lisp + LoadTail
  }

  /** The commands `lisp_dwg_runner` sends, in order, in each mode. */
  function RunnerScript(dwg: string, lisp: string, readOnly: bool): (r: seq<string>)
    ensures |r| == if readOnly then 6 else 4
    ensures r[0] == OpenCommand(dwg) && LoadCommand(lisp) in r
    ensures Save in r <==> !readOnly
  {
    OnlySaveSaves(dwg, lisp);
    if readOnly then [OpenCommand(dwg), PushDbmod, SdiOn, FiledialogOff, LoadCommand(lisp), PopDbmod]
    else [OpenCommand(dwg), FiledialogOff, LoadCommand(lisp), Save]
  }

  /** `lisp_dwg_runner(dwg, lisp, read_only_mode=True)`, sending to the given document. */
  method LispDwgRunner(doc: AcadDocument, dwg: string, lisp: string, readOnly: bool := true)
    modifies doc
    ensures doc.sent == old(doc.sent) + RunnerScript(dwg, lisp, readOnly)
  {
    if readOnly {
      doc.SendCommand(OpenCommand(dwg));
      doc.SendCommand(PushDbmod);
      doc.SendCommand(SdiOn);
      doc.SendCommand(FiledialogOff);
      doc.SendCommand(LoadCommand(lisp));
      doc.SendCommand(PopDbmod);
    } else {
      doc.SendCommand(OpenCommand(dwg));
      doc.SendCommand(FiledialogOff);
      doc.SendCommand(LoadCommand(lisp));
      doc.SendCommand(Save);
    }
  }

  /** The text between a command's fixed head and tail, when it has them. */
  function Between(c: string, head: string, tail: string): (r: Option<string>)
    ensures r.Some? ==> c == head + r.value + tail
  {
    if |c| >= |head| + |tail| && c[..|head|] == head && c[|c| - |tail|..] == tail then
      var mid := c[|head|..|c| - |tail|];
      assert c == c[..|head|] + mid + c[|c| - |tail|..];
      Some(mid)
    else None
  }

  /** The OPEN command carries the drawing path, quoted, and nothing else varies. */
  lemma OpenCommandCarriesPath(dwg: string)
    ensures Between(OpenCommand(dwg), OpenHead, OpenTail) == Some(dwg)
    ensures OpenCommand(dwg)[|OpenHead| - 1] == '"' && OpenCommand(dwg)[|OpenHead| + |dwg|] == '"'
  {
    var c := OpenCommand(dwg);
    assert c[..|OpenHead|] == OpenHead;
    assert c[|c| - |OpenTail|..] == OpenTail;
    assert c[|OpenHead|..|c| - |OpenTail|] == dwg;
  }

  /** The LOAD command carries the routine's path, quoted. */
  lemma LoadCommandCarriesPath(lisp: string)
    ensures Between(LoadCommand(lisp), LoadHead, LoadTail) == Some(lisp)
    ensures LoadCommand(lisp)[|LoadHead| - 1] == '"' && LoadCommand(lisp)[|LoadHead| + |lisp|] == '"'
  {
    var c := LoadCommand(lisp);
    assert c[..|LoadHead|] == LoadHead;
    assert c[|c| - |LoadTail|..] == LoadTail;
    assert c[|LoadHead|..|c| - |LoadTail|] == lisp;
  }

  /** No OPEN or LOAD command is a save, whatever path it carries. */
  lemma OnlySaveSaves(dwg: string, lisp: string)
    ensures OpenCommand(dwg) != Save && LoadCommand(lisp) != Save
  {
    assert OpenCommand(dwg)[12] == 'O' && Save[12] == 's';
    assert LoadCommand(lisp)[1] == 'L' && Save[1] == 'c';
  }

  /**
   * Read-only mode: open, push the modification flag, single-document mode, no file
   * dialogs, load the routine, pop the flag; the drawing is never saved.
   */
  lemma ReadOnlyNeverSaves(dwg: string, lisp: string)
    ensures var s := RunnerScript(dwg, lisp, true);
      && s == [OpenCommand(dwg), PushDbmod, SdiOn, FiledialogOff, LoadCommand(lisp), PopDbmod]
      && Save !in s
  {
    OnlySaveSaves(dwg, lisp);
  }

  /** Read-write mode: open, no file dialogs, load the routine, and a single save, last. */
  lemma ReadWriteSavesLast(dwg: string, lisp: string)
    ensures var s := RunnerScript(dwg, lisp, false);
      && s == [OpenCommand(dwg), FiledialogOff, LoadCommand(lisp), Save]
      && s[|s| - 1] == Save && Save !in s[..|s| - 1]
  {
    OnlySaveSaves(dwg, lisp);
  }
}
