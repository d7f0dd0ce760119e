/**
 * `gis_obj_concatenate` of floorplans_to_gis.py, apart from the GIS library calls: the
 * workspace it lists, the output path of the merge and the fields it then deletes.
 */
module Merge {
  import opened Common

  /** The CAD fields removed from the merged output when no list is given. */
  const DefaultDropFields: seq<string> :=
    ["Entity", "Layer", "LyrColor", "LyrLnType", "LyrLineWt",
     "Color", "Linetype", "Elevation", "LineWt", "RefName"]

  /**
   * What the code assigns to the library's workspace setting: the in-memory workspace
   * when no workspace is given, and nothing (None: the setting is left as it was) when one is.
   */
  function WorkspaceAsWritten(workspace: Option<string>): (r: Option<string>)
    ensures workspace.None? ==> r == Some(InMemory)
    ensures workspace.Some? ==> r.None?
  {
    if workspace.None? then Some(InMemory) else None
  }

  /** A given workspace is ignored by the code as written. */
  lemma WorkspaceIgnored(folder: string)
    ensures WorkspaceAsWritten(Some(folder)) != Some(folder)
  {
  }

  /** The workspace setting as documented: the given folder, or the in-memory workspace. */
  function WorkspaceSetting(workspace: Option<string>): (r: Option<string>)
    ensures workspace.Some? ==> r == workspace
    ensures workspace.None? ==> r == Some(InMemory)
  {
    Some(if workspace.Some? then workspace.value else InMemory)
  }

  /** `'{}\{}'.format(out_loc, out_name)`: `\{` is not an escape, so one backslash joins them. */
  function OutputPath(outLoc: string, outName: string): (r: string)
    ensures |r| == |outLoc| + 1 + |outName|
    ensures r[..|outLoc|] == outLoc && r[|outLoc|] == '\\' && r[|outLoc| + 1..] == outName
  {
    outLoc + "\\" + outName
  }

  /** The position of the last backslash in s, if any. */
  function LastBackslash(s: string): (r: Option<nat>)
    ensures r.Some? ==> r.value < |s| && s[r.value] == '\\' && '\\' !in s[r.value + 1..]
    ensures r.None? ==> '\\' !in s
  {
    if s == [] then None
    else if s[|s| - 1] == '\\' then Some(|s| - 1)
    else
      var r := LastBackslash(s[..|s| - 1]);
      if r.Some? then
        assert s[r.value + 1..] == s[..|s| - 1][r.value + 1..] + [s[|s| - 1]];
        r
      else
        assert s == s[..|s| - 1] + [s[|s| - 1]];
        None
  }

  /** The output path split at its last backslash into location and name. */
  function SplitOutput(path: string): Option<(string, string)> {
    var k := LastBackslash(path);
    if k.Some? then Some((path[..k.value], path[k.value + 1..])) else None
  }

  /** The output path gives back its location and name, when the name holds no backslash. */
  lemma SplitOutputPath(outLoc: string, outName: string)
    requires '\\' !in outName
    ensures SplitOutput(OutputPath(outLoc, outName)) == Some((outLoc, outName))
  {
    var path := OutputPath(outLoc, outName);
    var k := LastBackslash(path);
    assert path[|outLoc|] == '\\';
    assert path[..|outLoc|] == outLoc;
    assert path[|outLoc| + 1..] == outName;
  }

  /** What `gis_obj_concatenate` sets up before merging. */
  datatype MergePlan = MergePlan(workspace: Option<string>, output: string, dropFields: seq<string>, overwrite: bool)

  /**
   * `gis_obj_concatenate(out_name, out_loc, workspace, drop_field)`, in the current
   * directory cwd: overwriting is switched on, the location defaults to cwd, the field
   * list to the ten CAD fields, and the workspace follows WorkspaceSetting.
   */
  function GisObjConcatenate(outName: string, outLoc: Option<string>, workspace: Option<string>,
                             dropField: Option<seq<string>>, cwd: string): (r: MergePlan)
    ensures r.overwrite
    ensures r.workspace == WorkspaceSetting(workspace)
    ensures r.output == OutputPath(if outLoc.Some? then outLoc.value else cwd, outName)
    ensures dropField.None? ==> r.dropFields == DefaultDropFields && |r.dropFields| == 10
    ensures dropField.Some? ==> r.dropFields == dropField.value
  {
    var loc := if outLoc.Some? then outLoc.value else cwd;
    var drop := if dropField.Some? then dropField.value else DefaultDropFields;
    MergePlan(WorkspaceSetting(workspace), OutputPath(loc, outName), drop, true)
  }
}
