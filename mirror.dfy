/**
 * `mirror_path` in gfdl_utils/core.py: the destination directory, the (unused)
 * list of files still to copy, the `gcp` command and the mirrored paths it
 * waits for. Directory creation, the copy itself and the polling loops are not
 * modelled; `isFile` is the set of paths `os.path.isfile` reports.
 */
module Mirror {
  import opened PyStrings
  import opened Outcomes

  datatype MirrorPlan = MirrorPlan(
    destination: string,   // the first path without its last '/'-segment
    destDir: string,       // the directory ensured to exist: prefix + destination
    toCopy: seq<string>,   // `path_to_copy`, computed and never used
    command: string,       // the `gcp` command line
    mirrored: seq<string>) // the returned list, one path per input path

  /** `'/'.join(p.split("/")[:-1])`. */
  function ParentOf(p: string): string
  {
    var parts := Split(p, '/');
    Join(parts[..|parts| - 1], '/')
  }

  /** The paths not yet present at the destination and not mid-copy (no `.gcp` companion). */
  function Pending(paths: seq<string>, prefix: string, isFile: set<string>): (r: seq<string>)
    ensures forall x :: x in r <==> x in paths && prefix + x !in isFile && prefix + x + ".gcp" !in isFile
  {
    if |paths| == 0 then []
    else
      var p := paths[0];
      (if prefix + p !in isFile && prefix + p + ".gcp" !in isFile then [p] else [])
        + Pending(paths[1..], prefix, isFile)
  }

  /** `[f"{prefix}{p}".replace("//","/") for p in path]`. */
  function Prefixed(paths: seq<string>, prefix: string): (r: seq<string>)
    ensures |r| == |paths|
  {
    seq(|paths|, i requires 0 <= i < |paths| => CollapseSlashes(prefix + paths[i]))
  }

  function GcpCommand(paths: seq<string>, target: string): string
  {
    "gcp --debug " + Join(paths, ' ') + " " + target
  }

  /** `mirror_path(path, prefix)` up to the copy and the waits. */
  function MirrorPath(path: PathArg, prefix: string, isFile: set<string>): Result<MirrorPlan>
  {
    var paths :- match path
      case Str(s) => Ok([s])
      case List(ps) => Ok(ps)
      case OtherType => Err(PathNotStrOrList);
    if |paths| == 0 then Err(IndexOutOfRange)
    else
      var destination := ParentOf(paths[0]);
      Ok(MirrorPlan(destination, prefix + destination,
                    Pending(paths, prefix, isFile),
                    GcpCommand(paths, prefix + destination + "/"),
                    Prefixed(paths, prefix)))
  }

  /** The destination is the first path with its last segment removed, or "" when it has no '/'. */
  lemma ParentOfMeaning(p: string)
    ensures var seg := Last(Split(p, '/'));
      && '/' !in seg
      && ('/' in p ==> p == ParentOf(p) + "/" + seg)
      && ('/' !in p ==> ParentOf(p) == "")
  {
    var parts := Split(p, '/');
    SplitPiecesFree(p, '/');
    JoinSplit(p, '/');
    if |parts| > 1 {
      JoinSnoc(parts, '/');
    }
  }

  /**
   * The outcome: a str becomes a one-element list, an empty list raises
   * IndexError, any other argument raises the ValueError; otherwise one mirrored
   * path per input path, in order, each `prefix + p` with `"//"` collapsed.
   */
  lemma MirrorPathShape(path: PathArg, prefix: string, isFile: set<string>)
    ensures path.Str? ==> MirrorPath(path, prefix, isFile) == MirrorPath(List([path.s]), prefix, isFile)
    ensures path.OtherType? ==> MirrorPath(path, prefix, isFile) == Err(PathNotStrOrList)
    ensures path == List([]) ==> MirrorPath(path, prefix, isFile) == Err(IndexOutOfRange)
    ensures path.List? && |path.items| > 0 ==>
      var r := MirrorPath(path, prefix, isFile);
      && r.Ok?
      && r.value.destDir == prefix + ParentOf(path.items[0])
      && |r.value.mirrored| == |path.items|
      && (forall i :: 0 <= i < |path.items| ==> r.value.mirrored[i] == CollapseSlashes(prefix + path.items[i]))
      && (forall x :: x in r.value.toCopy <==>
            x in path.items && prefix + x !in isFile && prefix + x + ".gcp" !in isFile)
  {
  }

  /** Split on single spaces, a `gcp` command gives back its paths, in order, and its target. */
  lemma GcpWords(paths: seq<string>, target: string)
    requires |paths| > 0
    requires forall i :: 0 <= i < |paths| ==> ' ' !in paths[i]
    requires ' ' !in target
    ensures Split(GcpCommand(paths, target), ' ') == ["gcp", "--debug"] + paths + [target]
  {
    var j := Join(paths, ' ');
    var tail := j + [' '] + target;
    var mid := "--debug" + [' '] + tail;
    assert GcpCommand(paths, target) == "gcp" + [' '] + mid by {
      assert "gcp --debug " == "gcp" + [' '] + "--debug" + [' '];
    }
    assert Split(tail, ' ') == paths + [target] by {
      SplitJoin(paths, ' ');
      SplitNoSeparator(target, ' ');
      SplitAround(j, target, ' ');
    }
    assert Split(mid, ' ') == ["--debug"] + paths + [target] by {
      SplitCons("--debug", tail, ' ');
    }
    SplitCons("gcp", mid, ' ');
  }

  /**
   * The `gcp` command names every original path, in order, whatever is already
   * mirrored: `toCopy` does not narrow it.
   */
  lemma GcpCommandWords(paths: seq<string>, prefix: string, isFile: set<string>)
    requires |paths| > 0
    requires forall i :: 0 <= i < |paths| ==> ' ' !in paths[i]
    requires ' ' !in prefix + ParentOf(paths[0])
    ensures MirrorPath(List(paths), prefix, isFile).Ok?
    ensures Split(MirrorPath(List(paths), prefix, isFile).value.command, ' ')
            == ["gcp", "--debug"] + paths + [prefix + ParentOf(paths[0]) + "/"]
  {
    GcpWords(paths, prefix + ParentOf(paths[0]) + "/");
  }

  /** Which files exist changes only `toCopy`, never the command or the returned list. */
  lemma CommandIgnoresExisting(path: PathArg, prefix: string, a: set<string>, b: set<string>)
    requires MirrorPath(path, prefix, a).Ok?
    ensures MirrorPath(path, prefix, b).Ok?
    ensures MirrorPath(path, prefix, a).value.command == MirrorPath(path, prefix, b).value.command
    ensures MirrorPath(path, prefix, a).value.mirrored == MirrorPath(path, prefix, b).value.mirrored
  {
  }
}
