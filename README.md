# gfdl_utils core, modelled in Dafny

`gfdl_utils/core.py` helps users of the GFDL post-processing archive find and
open model output. Most of the module shells out (`dmget`, `dmls`, `gcp`), lists
directories or calls xarray. Beneath that plumbing is a set of deterministic
string and collection rules. This project models those rules and proves what
they guarantee:

- **Path builders** (`PathBuilder`, `paths.dfy`).
  - `get_pathspp` builds `pp/ppname/out/local/ppname.time.add.nc` and then
    applies Python's left-to-right, non-overlapping `replace("//", "/")`.
  - `get_pathstatic` builds `pp/ppname/ppname.static.nc` without that collapse.
- **Tape archive** (`Archive`, `archive.dfy`).
  - The `dmget` and `dmls -l` command lines.
  - `query_ondisk`: parses `dmls -l` output into a residency dictionary, as a
    loop proved against a specification function.
  - `query_all_ondisk`: the all-on-disk test.
- **Catalog** (`Catalog`, `catalog.dfy`).
  - `get_ppnames`, `get_local` and `get_timefrequency` over given directory
    listings.
  - The variable-name loop of `get_varnames`.
  - `get_allvars`: builds an insertion-ordered dictionary.
- **Search** (`Search`, `search.dfy`).
  - `find_variable` (a loop).
  - `find_unique_variable`: its substring filters and uniqueness rule.
  - `query_is1x1deg`.
- **Mirroring and opening** (`Mirror`, `mirror.dfy`; `Opener`, `opener.dfy`).
  - What `mirror_path` computes: the destination, the unused list of files
    still to copy, the `gcp` command and the returned paths.
  - The mode and path bookkeeping of `open_frompp`, including its loop over
    variable names.

Python's own string operations live in `PyStrings` (`strings.dfy`):
`str.split` on one character, `join`, `in` on strings, `endswith` and
`replace("//", "/")`. The exceptions the module raises become the `Error` values
of `Outcomes` (`outcomes.dfy`), carried in a `Result`. An argument that the
source dispatches on with `type(x) == str` / `list` is a `PathArg`.

The outside world is passed in as inputs:

| source call | input in the model |
|---|---|
| `os.listdir` | a map `fs` from each path string to its entries, in listing order; a path that is not a key raises |
| `glob.glob` | a function from a pattern to its matches |
| `os.path.isfile` | a set of the paths that exist |
| command output | the text `dmls -l` printed |

Observations that the proofs pin down:

- **A run of three slashes survives.** `"///"` survives `get_pathspp`'s collapse
  as `"//"`. `get_pathspp` is sometimes described as never leaving a doubled
  separator, but the code does leave one. The model follows the code and proves
  the "no `//`" property only for raw paths without `"///"`.
- **A file named exactly `nc` raises.** In a time-series directory it raises
  IndexError at `split[-2]`. The model returns that error rather than forbidding
  such listings.
- **One kept candidate comes back bare.** `find_unique_variable` returns it as
  a bare string even when `unique=False`.
- **`find_unique_variable` fails when nothing is found.** `find_variable` then
  returns None, and iterating over it raises.

## Model

| member | source | states |
|---|---|---|
| PathBuilder.PathPPCollapse | gfdl_utils/core.py:116-118 | the path is never longer than the raw join and has the same non-slash characters; it equals the raw join when that has no `//`; it has no `//` when the raw join has no `///` |
| PathBuilder.PathPPKeepsTripleSlash | gfdl_utils/core.py:117-118 | a trailing slash on `out` plus a leading slash on `local` gives `///`, which leaves a `//` in the result |
| PathBuilder.PathPPFileNameIntact | gfdl_utils/core.py:116-118 | for `/`-free `ppname`, `time` and `add`, the collapse touches only the directory part; the file name `ppname.time.add.nc` is appended unchanged |
| PathBuilder.FileNamePPSplit | gfdl_utils/core.py:116 | for dot-free `ppname`, `time` and `add`, the file name splits on dots back into `[ppname, time, add, "nc"]` |
| PathBuilder.PathStaticLayout | gfdl_utils/core.py:139-141 | the static path is exactly `pp/ppname/ppname.static.nc` |
| PathBuilder.PathStaticKeepsDoubleSlash | gfdl_utils/core.py:139-141 | the static path is not collapsed: a trailing slash on `pp` gives `//` |
| PyStrings.CollapseNoDouble | gfdl_utils/core.py:118 | without `///` in the input, no `//` remains after the replacement |
| PyStrings.CollapseTriple | gfdl_utils/core.py:118 | a run of exactly three slashes becomes two |
| PyStrings.CollapseKeepsNonSlashes | gfdl_utils/core.py:118 | the replacement never lengthens a string and keeps every non-slash character in order |
| PyStrings.CollapseIdentity | gfdl_utils/core.py:118 | a string without `//` is unchanged |
| Archive.DmgetCommand | gfdl_utils/core.py:169-172 | a command exists exactly for a str or a list argument; any other argument leaves `cmd` unbound |
| Archive.DmgetStrIsSingleton | gfdl_utils/core.py:169-172 | a single path gives the same command as the one-element list of it |
| Archive.DmgetCommandWords | gfdl_utils/core.py:169-170 | for space-free paths, the command's words are `dmget`, the paths in order, then `&` |
| Archive.DmlsCommandWords | gfdl_utils/core.py:195 | the query command's words are `dmls`, `-l` and the path |
| Archive.QueryOnDisk | gfdl_utils/core.py:196-203 | the loop builds exactly the residency map of the examined lines |
| Archive.ParseLinesKeys | gfdl_utils/core.py:198-202 | the map has a key exactly for the last space-separated token of each examined line |
| Archive.ParseLinesLastWins | gfdl_utils/core.py:198-202 | for a repeated key, the last line with it decides; its value is true iff that line holds `(REG)` or `(DUL)` |
| Archive.ParseLinesKeyHasLast | gfdl_utils/core.py:198-202 | every key comes from a line that is the last with that key |
| Archive.TailNeverExamined | gfdl_utils/core.py:196-198 | text after the final newline is never examined |
| Archive.NoNewlineNoEntries | gfdl_utils/core.py:196-198 | output without a newline (empty output included) gives an empty map |
| Archive.QueryAllOnDisk | gfdl_utils/core.py:210 | true iff every value of every per-path map is true |
| Archive.AllOnDiskByLines | gfdl_utils/core.py:196-210 | the all-on-disk test holds iff in every output each examined line that is last with its key is resident |
| Archive.EmptyOutputCountsAsOnDisk | gfdl_utils/core.py:210 | a path whose output has no newline (so no line is examined) does not stop the test from holding |
| Mirror.ParentOfMeaning | gfdl_utils/core.py:221 | the destination is the first path without its last `/`-segment; it is empty when the path has no `/` |
| Mirror.MirrorPathShape | gfdl_utils/core.py:218-240 | a str acts as a one-element list; an empty list raises IndexError; another type raises ValueError; otherwise one mirrored path per input, in order, each `prefix + p` with `//` collapsed; `toCopy` is exactly the paths with neither the copy nor its `.gcp` file present |
| Mirror.GcpCommandWords | gfdl_utils/core.py:231 | the `gcp` command names every original path, in order, then `prefix + destination + "/"` |
| Mirror.CommandIgnoresExisting | gfdl_utils/core.py:225-234 | which files already exist changes neither the command nor the returned paths |
| Mirror.Pending | gfdl_utils/core.py:225-229 | a path is still to copy iff neither `prefix + p` nor `prefix + p + ".gcp"` exists |
| Catalog.PPNames | gfdl_utils/core.py:246 | succeeds iff `pp + "/"` is a listed directory, with its entries in listing order; otherwise the listing error for that path |
| Catalog.GetLocal | gfdl_utils/core.py:252-254 | succeeds iff both directories exist and are non-empty; otherwise the listing or index error |
| Catalog.GetLocalEntries | gfdl_utils/core.py:252-254 | the layout splits back into the first entry of each of the two listings |
| Catalog.TimeFrequencyIsFirstEntry | gfdl_utils/core.py:260 | the time frequency is the first entry of `pp/ppname/ts` |
| Catalog.CollectVarNames | gfdl_utils/core.py:278-289 | the loop returns exactly the extracted names; a file named `nc` raises IndexError |
| Catalog.CollectedNamesMembers | gfdl_utils/core.py:279-286 | a name is collected iff it is `split('.')[-2]` of a file that has an `nc` dot-token |
| Catalog.CollectedNamesDistinct | gfdl_utils/core.py:285-288 | no name is collected twice |
| Catalog.CollectedNamesOrder | gfdl_utils/core.py:285-286 | names appear in the order in which their files are first seen |
| Catalog.PPFileYieldsAdd | gfdl_utils/core.py:280-284 | a file named by `get_pathspp`'s convention yields its `add` part as the variable name whenever `add` is dot-free |
| Catalog.GetVarNames | gfdl_utils/core.py:266-289 | None when the `ts` listing is missing or empty; otherwise the layout, the file listing and the extracted names, or their error |
| Catalog.PutLookup | gfdl_utils/core.py:300 | a dict assignment sets its key and leaves all others |
| Catalog.PutKeys | gfdl_utils/core.py:300 | an existing key keeps its place; a new key goes last |
| Catalog.GetAllVars | gfdl_utils/core.py:295-301 | the loop returns exactly the catalog of the ppname listing |
| Catalog.CatalogOverMeaning | gfdl_utils/core.py:297-300 | keys are distinct and are exactly the listed ppnames whose `get_varnames` is not None; each maps to that list |
| Catalog.CatalogOverFails | gfdl_utils/core.py:297-298 | the catalog raises iff some listed ppname's `get_varnames` raises |
| Search.FindVariable | gfdl_utils/core.py:307-323 | the loop returns the holding ppnames in catalog order, or None when there are none |
| Search.HoldingMembers | gfdl_utils/core.py:310-316 | a ppname is collected iff its list holds the variable |
| Search.FindVariableMeaning | gfdl_utils/core.py:307-323 | a ppname is reported iff it is listed, its `get_varnames` is a list and that list holds the variable; None, never `[]`, when none is |
| Search.HoldingAppend | gfdl_utils/core.py:310-316 | the search is an order-keeping filter: it distributes over concatenation of the catalog |
| Search.HoldingDistinct | gfdl_utils/core.py:310-316 | over a catalog with distinct keys no ppname is collected twice |
| Search.VariableLocationsDistinct | gfdl_utils/core.py:307-323 | `find_variable` never reports a ppname twice |
| Search.Select | gfdl_utils/core.py:336-340 | a candidate is kept iff every required string occurs in it and no ignored string does |
| Search.Unique | gfdl_utils/core.py:332-350 | None raises; no kept candidate raises; one comes back bare whatever `unique` is; several raise when `unique`, else come back as the list |
| Search.SelectAppend | gfdl_utils/core.py:336-340 | the filter keeps the candidates' order: it distributes over concatenation |
| Search.SelectDistinct | gfdl_utils/core.py:336-340 | filtering distinct candidates leaves them distinct |
| Search.UniqueSingle | gfdl_utils/core.py:341-342 | with distinct candidates, exactly one kept candidate comes back bare, whatever `unique` is |
| Search.UniqueSeveral | gfdl_utils/core.py:345-350 | two different kept candidates raise Ambiguous with the filtered list when `unique`, else return that list |
| Search.FindUniqueVariable | gfdl_utils/core.py:325-350 | errors of `get_allvars` pass through; whatever comes back is among the ppnames `find_variable` reports and passes the filters |
| Search.StringFilterIsSingleton | gfdl_utils/core.py:332-335 | a bare string for `require` or `ignore` acts as the one-element list of it |
| Search.NothingFoundFails | gfdl_utils/core.py:336-337 | when `find_variable` returns None, the comprehension raises before any count is checked |
| Search.FindUniqueSingle | gfdl_utils/core.py:325-342 | end to end: when exactly one ppname holding the variable passes the filters, it is returned bare |
| Search.Is1x1DegMeaning | gfdl_utils/core.py:359-362 | true iff the name is `1x1deg` or ends with `_1x1deg` |
| Opener.OpenFromPP | gfdl_utils/core.py:58-79 | the method computes exactly the plan of `open_frompp` |
| Opener.GlobbedAppend | gfdl_utils/core.py:64-67 | the matches of a list of variables are the per-variable matches concatenated in list order |
| Opener.GlobbedMembers | gfdl_utils/core.py:64-67 | a path is matched iff some variable's pattern matches it |
| Opener.StrAddIsSingleton | gfdl_utils/core.py:61-67 | a str `add` behaves as the one-element list of it |
| Opener.OpenPlanErrors | gfdl_utils/core.py:58-67 | both modes raise before any globbing; otherwise only an `add` that is neither str nor list fails |
| Opener.OpenPlanModes | gfdl_utils/core.py:69-79 | no matches or no mode means no staging; `dmget` names all matches; mirror opens `prefix + p` per match, in order, uncollapsed, agreeing with `mirror_path`'s list once collapsed |
| Opener.MigrateCommandNamesMatches | gfdl_utils/core.py:70-72 | in `dmget` mode the command's words list the matches in order |

## Left out

- **Running commands.** The model does not run `dmget`, `dmls`, `dmwho` or
  `gcp` through `os.system` / `os.popen`. It states the command strings built
  and the parsing of given output text.
- **`query_dmget`.** It is a shell pipeline plus an emptiness test on its
  output, so the model does not include it.
- **xarray.** `xr.open_mfdataset` and `xr.open_dataset`, and with them
  `open_static`, are external library calls. `open_frompp` is modelled up to the
  list of paths it would open.
- **Polling loops.** The model leaves out the waits: `open_frompp`'s loop until
  everything is on disk, and `mirror_path`'s sleeps and loop until every mirrored
  file exists. They are unbounded waits on external processes.
- **Filesystem calls.** Real `os.listdir`, `glob.glob`, `os.path.isfile`,
  `os.path.isdir` and `os.makedirs` are inputs or are left out. `mirror_path`'s
  directory creation is recorded only as the directory path (`destDir`).
- **Path spelling in listings.** Paths are plain strings: two spellings of one
  directory (`a//b` and `a/b`) are different keys of the listings map.
- **`getpass.getuser()`.** The default prefixes and user names are parameters.
- **Printing.** All `print` output is left out.
- **Directory order.** `get_ppnames` and `get_local` take the listing order as
  given.
- **Argument types.** `isinstance` and `type(x) ==` checks are modelled by the
  shape of a `PathArg` or `Strings`; subclasses of str or list are not modelled.
- Archive.DmgetCommandWords: speaks only of space-free paths; the shell splits a
  path containing a space into several words.
- Archive.DmlsCommandWords: speaks only of a space-free path, for the same reason.
- Mirror.GcpCommandWords: speaks only of space-free paths and a space-free
  destination, for the same reason.
- Opener.MigrateCommandNamesMatches: speaks only of space-free matches, for the
  same reason.
- **PathBuilder.PathPPCollapse:** the "no `//` remains" part holds only when the
  raw join has no `///`, because the code does not promise more.
