# floorplans_to_gis: a verified model of its string and path logic

`floorplans_to_gis.py` is a batch script. It selects AutoCAD floor-plan drawings by file
name, runs a LISP routine on each through AutoCAD, converts a CAD feature class of each
drawing into a GIS feature, and merges the features into one shapefile. Almost all of
this is done by AutoCAD, arcpy, pandas and the file system. This model covers the part
the script computes itself:

- **The drawing-name pattern** `S-(\w)+-(?!ROOF)\w+-DWG-BAS(\.)dwg` (module `DwgPattern`).
  It is recognised by hand, without a regex engine. `MatchPrefix` is the `^`-anchored
  match that `dwg_selector` uses. `Search` and `Matched` give the leftmost match that
  `gis_ready_files` and `cad_to_gis_obj` use. A match is `"S-" + A + "-" + B + "-DWG-BAS.dwg"`:
  A (the building) and B (the floor) are non-empty runs of word characters, and B does not
  start with `ROOF`. Both runs are maximal, so backtracking has no choice to make
  (`PartsUnique`).
- **Backslash escaping** (module `PathEscape`). The selector doubles every backslash and
  the copy filter collapses every doubled pair again.
- **The output name** that `cad_to_gis_obj` derives from a match, and its defaults
  (module `GisNaming`).
- **The copy filter's decision** (module `CopyFilter`). The pandas series becomes a
  sequence of strings. Membership is tested against `.unique()`: the series' values, each
  once, in the order in which they first appear.
- **The selection loop** `dwg_selector` (module `Selector`). It is a method with nested
  loops over a given walk. It returns the ordered list of paths handed to `fn`. Lemmas
  connect it to the copy filter and to the converter.
- **The AutoCAD command sequence** of `lisp_dwg_runner` (module `LispRunner`). The active
  document is a class that logs each `SendCommand` argument. Read-only mode is the default,
  as in the source.
- **The setup of the final merge** `gis_obj_concatenate` (module `Merge`): the workspace,
  the output path and the default list of dropped fields.

Where the code and its prose description differ, the model follows the code, with one
exception. `Merge.GisObjConcatenate` uses the workspace the docstring of
`gis_obj_concatenate` documents (`Merge.WorkspaceSetting`). It does not use the workspace
lines 233-234 leave in place when one is given. That code is modelled separately, as
`Merge.WorkspaceAsWritten` (see "## Findings"). The other differences:

- The copy filter and the converter search the **whole escaped path**, not the base file
  name. The first match wins, so a directory whose name itself matches the pattern would
  be used instead of the file's name. `Selector.CopyOfDispatched` and
  `Selector.ConversionOfDispatched` state their result under the assumption that the
  directory part of the path holds no match.
- The copy filter tests the matched text, with its `.dwg` extension, against the filter.
  It does not test the derived name.

## Model

| member | source | states |
|---|---|---|
| `DwgPattern.MatchPrefix` | python/floorplans_to_gis.py:106 | when the anchored pattern matches, the parts found are well formed (non-empty word runs, floor not starting with ROOF) and their spelling is a prefix of the name |
| `DwgPattern.MatchPrefixComplete` | python/floorplans_to_gis.py:106 | every well-formed spelling at the start of a name is matched, with exactly those parts, whatever text follows (no `$`) |
| `DwgPattern.AcceptsIff` | python/floorplans_to_gis.py:106 | the anchored pattern matches iff the name starts with `S-A-B-DWG-BAS.dwg` for some well-formed A, B |
| `DwgPattern.PartsUnique` | python/floorplans_to_gis.py:106 | a name determines the parts of its match: backtracking cannot yield a different match |
| `DwgPattern.WordRun` | python/floorplans_to_gis.py:106 | the run of `\w` from a position is maximal: all word characters, then the end or a non-word character |
| `DwgPattern.SearchFromLeftmost` | python/floorplans_to_gis.py:151 | `re.search` returns a match at its start, and no earlier start matches; when nothing is found, no start matches |
| `DwgPattern.SearchFrom` | python/floorplans_to_gis.py:151 | `re.search` from a start i: a hit has well-formed parts; `DwgPattern.SearchFromLeftmost` states where it lies |
| `DwgPattern.Search` | python/floorplans_to_gis.py:194 | the parts of the leftmost match are well formed |
| `DwgPattern.Matched` | python/floorplans_to_gis.py:151-153 | the text `match.group()` returns begins with `S-`, ends with `-DWG-BAS.dwg`, and is at least 16 characters long |
| `DwgPattern.MatchedIff` | python/floorplans_to_gis.py:151-153 | the search finds text iff the pattern matches at some start, and the text is the spelling at the leftmost such start |
| `DwgPattern.SearchAtStart` | python/floorplans_to_gis.py:193-194 | on a name that starts with a match, the unanchored search finds that match |
| `DwgPattern.SpellHasNoBreak` | python/floorplans_to_gis.py:150 | a match never contains a character outside `\w`, `-` and `.`, so never a path separator |
| `DwgPattern.MatchPrefixBeforeBreak` | python/floorplans_to_gis.py:150 | text after a separator cannot change what matches before it |
| `DwgPattern.SearchConcat` | python/floorplans_to_gis.py:151 | searching `p + q`, where p ends with a separator, finds p's leftmost match if p has one, else q's |
| `DwgPattern.ExampleAccepted` | python/floorplans_to_gis.py:86-95 | `S-170B-01-DWG-BAS.dwg` is selected, with building 170B and floor 01 |
| `DwgPattern.ExampleRoofRejected` | python/floorplans_to_gis.py:105-106 | `S-100A-ROOF-DWG-BAS.dwg` is refused |
| `Common.ReplaceChar` | python/floorplans_to_gis.py:198 | `replace('-', '_')` keeps the length and maps each character, turning every hyphen into an underscore |
| `Common.DropLast` | python/floorplans_to_gis.py:198 | `[:-4]` keeps all but the last four characters, or is empty for shorter text |
| `PathEscape.Escape` | python/floorplans_to_gis.py:117 | doubling never shortens a path |
| `PathEscape.EscapeNoBackslash` | python/floorplans_to_gis.py:117 | a path without backslashes is left unchanged |
| `PathEscape.Unescape` | python/floorplans_to_gis.py:156 | collapsing doubled backslashes never lengthens a path; `PathEscape.UnescapeEscape` makes it the inverse of the selector's doubling |
| `PathEscape.UnescapeEscape` | python/floorplans_to_gis.py:156 | collapsing doubled backslashes undoes the selector's doubling of line 117 exactly |
| `PathEscape.UnescapeNotInjective` | python/floorplans_to_gis.py:156 | the other order does not round-trip: one backslash and two collapse to the same text |
| `PathEscape.EscapeConcat` | python/floorplans_to_gis.py:117 | doubling distributes over concatenation |
| `PathEscape.EscapeLast` | python/floorplans_to_gis.py:117 | doubling keeps the last character of a path |
| `GisNaming.DeriveName` | python/floorplans_to_gis.py:198 | cutting the extension and replacing hyphens leaves no hyphen and, for text of four characters or more, removes exactly four |
| `GisNaming.DeriveNameOfMatch` | python/floorplans_to_gis.py:196-198 | the derived name of a match is `S_A_B_DWG_BAS`, has no hyphen, and is four characters shorter than the match |
| `GisNaming.FeatureSource` | python/floorplans_to_gis.py:186 | the feature-class path is the drawing path, two literal backslashes, then the feature class |
| `GisNaming.CadToGisObj` | python/floorplans_to_gis.py:187-198 | the location defaults to `in_memory`; a given name is kept; otherwise there is a name iff the search matches, and it is the match's reference name, free of hyphens, match length minus 4 |
| `GisNaming.DefaultNameOfDrawing` | python/floorplans_to_gis.py:192-198 | a drawing name starting with a match is given that match's name by default |
| `GisNaming.ExampleDerivedName` | python/floorplans_to_gis.py:197-198 | `S-170B-01-DWG-BAS.dwg` becomes `S_170B_01_DWG_BAS` |
| `GisNaming.ExampleConversion` | python/floorplans_to_gis.py:187-198 | converting `S-200C-02-DWG-BAS.dwg` with no name or location gives `S_200C_02_DWG_BAS` in `in_memory` |
| `CopyFilter.Unique` | python/floorplans_to_gis.py:154 | `.unique()` holds each value of the series exactly once, nothing else, and in the order of first appearance |
| `CopyFilter.GisReadyFiles` | python/floorplans_to_gis.py:150-157 | a copy happens iff the search matches and the matched text is in the filter; the source is the path with doubled backslashes collapsed; otherwise nothing is copied |
| `CopyFilter.FilterOrderIrrelevant` | python/floorplans_to_gis.py:154 | series holding the same values give the same decision, whatever their order and duplicates |
| `Selector.DirPrefix` | python/floorplans_to_gis.py:114 | the directory part `os.path.join` puts before a name ends with a separator (or is empty) and extends the root by at most one character |
| `Selector.JoinPath` | python/floorplans_to_gis.py:114 | `os.path.join(root, name)` adds the name and at most one separator to the root |
| `Selector.JoinPathShape` | python/floorplans_to_gis.py:114 | the joined path starts with the root and ends with the file name |
| `Selector.DispatchPath` | python/floorplans_to_gis.py:114-117 | the path handed to `fn` is never shorter than the joined path |
| `Selector.DispatchPathRecovers` | python/floorplans_to_gis.py:156 | collapsing the doubled backslashes of a dispatched path gives back the walked file's joined path |
| `Selector.EntryFiles` | python/floorplans_to_gis.py:112 | the files of a walk entry, in the walk's order, each with the entry's root |
| `Selector.DwgSelector` | python/floorplans_to_gis.py:111-122 | the nested loops hand `fn` exactly the selection of the walk, in order, and nothing when `fn` is None |
| `Selector.SelectionAppend` | python/floorplans_to_gis.py:111-122 | what is dispatched for a walk is what is dispatched for its first part followed by its rest: walk order is kept |
| `Selector.SelectionSingle` | python/floorplans_to_gis.py:113-122 | a single file is dispatched once, with its escaped joined path, if its name matches, and never otherwise |
| `Selector.SelectionMembers` | python/floorplans_to_gis.py:113-122 | a path is dispatched iff it is the escaped path of a walked file whose name matches |
| `Selector.NothingSelected` | python/floorplans_to_gis.py:113 | a walk where no name matches dispatches nothing |
| `Selector.WalkFilesMembers` | python/floorplans_to_gis.py:111-112 | the walked files are exactly the (root, name) pairs of the walk's entries |
| `Selector.EscapedPrefixBreaks` | python/floorplans_to_gis.py:114-117 | the escaped directory part still ends with a separator |
| `Selector.EscapedNameMatches` | python/floorplans_to_gis.py:113-117 | doubling the backslashes of a matching file name does not change its anchored match |
| `Selector.SearchOfDispatched` | python/floorplans_to_gis.py:150-151 | searching a dispatched path finds the file name's own match when the directory part holds none |
| `Selector.CopyOfDispatched` | python/floorplans_to_gis.py:151-157 | a dispatched file is copied iff its name's match is in the filter, and what is copied is the walked file's own path |
| `Selector.ConversionOfDispatched` | python/floorplans_to_gis.py:192-198 | a dispatched file converted with no name given is named after its own match |
| `Selector.ExampleDispatch` | python/floorplans_to_gis.py:111-122 | of `S-100A-01-DWG-BAS.dwg` and `S-100A-ROOF-DWG-BAS.dwg` in one folder, only the first is dispatched |
| `Selector.ExampleCopy` | python/floorplans_to_gis.py:151-157 | with a filter naming only `S-100A-01-DWG-BAS.dwg`, that drawing is copied from its own path |
| `LispRunner.AcadDocument.constructor` | python/floorplans_to_gis.py:49 | a fresh document has received no commands |
| `LispRunner.AcadDocument.SendCommand` | python/floorplans_to_gis.py:54 | sending appends the command to the document's log and changes nothing else |
| `LispRunner.LispDwgRunner` | python/floorplans_to_gis.py:27-76 | the runner appends exactly the mode's command script to the document's log; read-only mode is the default |
| `LispRunner.OpenCommand` | python/floorplans_to_gis.py:54 | the OPEN command is the fixed head, the drawing path, then the fixed tail, with the path right after the head |
| `LispRunner.LoadCommand` | python/floorplans_to_gis.py:58 | the LOAD command is the fixed head, the routine path, then the fixed tail, with the path right after the head |
| `LispRunner.RunnerScript` | python/floorplans_to_gis.py:51-73 | six commands in read-only mode and four otherwise, always opening the drawing first and loading the routine, with a save iff the mode is read-write |
| `LispRunner.Between` | python/floorplans_to_gis.py:54 | not code of the source: a reader used to state that a command's path can be read back; the text it extracts between head and tail rebuilds the command |
| `LispRunner.OpenCommandCarriesPath` | python/floorplans_to_gis.py:54 | the OPEN command carries the drawing path between double quotes, and the path can be read back from it |
| `LispRunner.LoadCommandCarriesPath` | python/floorplans_to_gis.py:58 | the LOAD command carries the routine's path between double quotes, and the path can be read back from it |
| `LispRunner.OnlySaveSaves` | python/floorplans_to_gis.py:73 | no OPEN or LOAD command is the save command, whatever path it carries |
| `LispRunner.ReadOnlyNeverSaves` | python/floorplans_to_gis.py:51-59 | read-only mode sends exactly OPEN, push-dbmod, `SDI 1`, `FILEDIA 0`, LOAD, pop-dbmod, in that order, and never a save |
| `LispRunner.ReadWriteSavesLast` | python/floorplans_to_gis.py:65-73 | read-write mode sends exactly OPEN, `FILEDIA 0`, LOAD, then a single save, last, in that order |
| `Merge.WorkspaceAsWritten` | python/floorplans_to_gis.py:233-234 | as written, the workspace is set to `in_memory` when none is given and left alone when one is |
| `Merge.WorkspaceIgnored` | python/floorplans_to_gis.py:233-234 | as written, a given workspace folder is never set |
| `Merge.WorkspaceSetting` | python/floorplans_to_gis.py:218 | as documented, the workspace is the folder given, or `in_memory` |
| `Merge.OutputPath` | python/floorplans_to_gis.py:240 | the merge output is the location, one backslash, then the name |
| `Merge.LastBackslash` | python/floorplans_to_gis.py:240 | not code of the source: a reader used to state that the output path can be split again; finds the last backslash of a path, or reports that there is none |
| `Merge.SplitOutputPath` | python/floorplans_to_gis.py:240 | the merge output path `out_loc\out_name` splits at its last backslash, with the reader `Merge.SplitOutput`, back into location and name, when the name holds no backslash |
| `Merge.GisObjConcatenate` | python/floorplans_to_gis.py:218-240 | overwriting is on, the location defaults to the current directory, the output is `out_loc\out_name`, and the dropped fields are the given list or exactly the ten CAD fields; the workspace is the documented one of line 218 (`Merge.WorkspaceSetting`), not the one lines 233-234 leave |

## Findings

| source | as written | input that shows it | evidently intended | confidence | as-written member | corrected member |
|---|---|---|---|---|---|---|
| python/floorplans_to_gis.py:233-234 | `arcpy.env.workspace` is assigned only when `workspace` is None. A given workspace is ignored and the merge lists whatever workspace was active. | `gis_obj_concatenate('x.shp', workspace='T:\\gis_scratch')` leaves the workspace unset | the docstring (line 218) says the workspace must be set to the given folder | medium; not executed | `Merge.WorkspaceAsWritten` (exhibited by `Merge.WorkspaceIgnored`) | `Merge.WorkspaceSetting` (used by `Merge.GisObjConcatenate`) |

## Left out

- AutoCAD COM automation is not modelled: `client.Dispatch`, `Visible`, `ActiveDocument`, and what AutoCAD does with the commands. Only the command strings are kept, in a log on `AcadDocument`. Errors AutoCAD raises, which the script re-raises, are not modelled.
- arcpy calls are an external library with global state: `FeatureClassToFeatureClass_conversion`, `ListFeatureClasses`, `Merge_management` and `DeleteField_management`. The model only builds their arguments (`Conversion`, `MergePlan`). `overwriteOutput` is a flag in `MergePlan`. Which fields actually remain after deletion is not modelled.
- File-system operations are not modelled. `shutil.copy` becomes a `CopyAction`. `os.walk` becomes an input sequence of (absolute root, file names) entries in walk order, and `os.path.abspath` is assumed already applied. The directory names of the walk are not used by the loop and are omitted. `os.chdir` and `os.getcwd` become a `cwd` parameter. The `dwg_loc` default only feeds `os.chdir`, so it is left out with it.
- `os.path.join` is modelled for a plain file name after an absolute Windows root: a backslash is added unless the root ends with `\` or `/`. The drive-relative forms (`C:` alone) never come out of `abspath` and are not modelled.
- `dwg_selector`'s `pattern` argument is a general regular expression. Only the default pattern is modelled, because no regex engine is modelled.
- `dwg_selector` forwards `**kwargs` to `fn` unchanged. The model records only the path argument of each call.
- `pd.read_csv` and the Series internals are not modelled. A series is a sequence of strings.
- `time.sleep(1)`, every `print`, and the `inspect` frame lookups have no effect on the logic and are left out.
- The `__main__` block is left out: hard-coded network paths and top-level sequencing.
- `DwgPattern.IsWordChar`: `\w` is taken as ASCII `[A-Za-z0-9_]`. Python 3 also counts non-ASCII letters and digits, which this model does not. The properties only rely on `-`, `.`, `\` and `/` not being word characters, which holds in both readings.
- The comment at line 105 also mentions excluding MECH drawings. The pattern does not do this, so neither does the model.
- The catch-and-re-raise blocks only pass on exceptions from the external calls above. The script's own string logic raises none. Exceptions from the external calls are not modelled.
- Selector.DwgSelector: every call to `fn` is assumed to return. If `fn` raised on its k-th call, the walk would stop and only the first k paths would be dispatched; the `ensures` promises the whole selection.
- LispRunner.LispDwgRunner: a `SendCommand` that raises part-way is not modelled, so the log always receives the whole script.
