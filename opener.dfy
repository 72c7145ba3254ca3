/**
 * The mode and path bookkeeping of `open_frompp` in gfdl_utils/core.py: which
 * files are matched, whether they are staged by `dmget` or mirrored, and which
 * paths are finally handed to xarray. Globbing is the function `glob` (pattern to
 * matches, in the order glob returns them); opening the dataset and the waits
 * are not modelled.
 */
module Opener {
  import opened PyStrings
  import opened Outcomes
  import opened PathBuilder
  import opened Archive
  import opened Mirror

  /** What is done to the matched files before opening them. */
  datatype Staging =
    | NoStaging
    | Migrate(command: string)   // the `dmget` command issued
    | Mirrored(plan: MirrorPlan) // the `mirror_path` call made

  /** The paths passed to `xr.open_mfdataset` and the staging that preceded it. */
  datatype OpenPlan = OpenPlan(paths: seq<string>, staging: Staging)

  /** The glob matches of each variable's path pattern, concatenated in list order. */
  function Globbed(glob: string -> seq<string>, pp: string, ppname: string, out: string,
                   local: string, time: string, adds: seq<string>): seq<string>
  {
    if |adds| == 0 then []
    else
      Globbed(glob, pp, ppname, out, local, time, adds[..|adds| - 1])
        + glob(PathPP(pp, ppname, out, local, time, adds[|adds| - 1]))
  }

  /** The `paths` variable after the str/list dispatch; anything else leaves it unbound. */
  function MatchedPaths(glob: string -> seq<string>, pp: string, ppname: string, out: string,
                        local: string, time: string, add: PathArg): Result<seq<string>>
  {
    match add
    case Str(a) => Ok(glob(PathPP(pp, ppname, out, local, time, a)))
    case List(adds) => Ok(Globbed(glob, pp, ppname, out, local, time, adds))
    case OtherType => Err(Unbound("paths"))
  }

  /** `[f"{prefix}{p}" for p in paths]`, with no collapsing of `//`. */
  function PrefixAll(paths: seq<string>, prefix: string): seq<string>
  {
    seq(|paths|, i requires 0 <= i < |paths| => prefix + paths[i])
  }

  /** `open_frompp(pp, ppname, out, local, time, add, dmget, mirror, prefix)` up to the opening. */
  function OpenPlanOf(pp: string, ppname: string, out: string, local: string, time: string,
                      add: PathArg, dmget: bool, mirror: bool, prefix: string,
                      glob: string -> seq<string>, isFile: set<string>): Result<OpenPlan>
  {
    if dmget && mirror then Err(ConflictingModes)
    else
      var paths :- MatchedPaths(glob, pp, ppname, out, local, time, add);
      if |paths| > 0 && dmget then
        Ok(OpenPlan(paths, Migrate(DmgetCommand(List(paths)).value)))
      else if |paths| > 0 && mirror then
        Ok(OpenPlan(PrefixAll(paths, prefix), Mirrored(MirrorPath(List(paths), prefix, isFile).value)))
      else
        Ok(OpenPlan(paths, NoStaging))
  }

  method OpenFromPP(pp: string, ppname: string, out: string, local: string, time: string,
                    add: PathArg, dmget: bool, mirror: bool, prefix: string,
                    glob: string -> seq<string>, isFile: set<string>) returns (r: Result<OpenPlan>)
    ensures r == OpenPlanOf(pp, ppname, out, local, time, add, dmget, mirror, prefix, glob, isFile)
  {
    if dmget && mirror {
      return Err(ConflictingModes);
    }
    var paths: seq<string>;
    match add {
      case Str(a) =>
        paths := glob(PathPP(pp, ppname, out, local, time, a));
      case List(adds) =>
        paths := [];
        for i := 0 to |adds|
          invariant paths == Globbed(glob, pp, ppname, out, local, time, adds[..i])
        {
          assert adds[..i + 1][..i] == adds[..i];
          paths := paths + glob(PathPP(pp, ppname, out, local, time, adds[i]));
        }
        assert adds[..|adds|] == adds;
      case OtherType =>
        return Err(Unbound("paths"));
    }
    if |paths| > 0 {
      if dmget {
        var cmd := DmgetCommand(List(paths)).value;
        return Ok(OpenPlan(paths, Migrate(cmd)));
      } else if mirror {
        var plan := MirrorPath(List(paths), prefix, isFile).value;
        paths := PrefixAll(paths, prefix);
        return Ok(OpenPlan(paths, Mirrored(plan)));
      }
    }
    return Ok(OpenPlan(paths, NoStaging));
  }

  // ---------------------------------------------------------------------------
  // properties

  /** Globbing a concatenation of variable lists concatenates the matches. */
  lemma {:induction false} GlobbedAppend(glob: string -> seq<string>, pp: string, ppname: string, out: string,
                                         local: string, time: string, a: seq<string>, b: seq<string>)
    ensures Globbed(glob, pp, ppname, out, local, time, a + b)
         == Globbed(glob, pp, ppname, out, local, time, a) + Globbed(glob, pp, ppname, out, local, time, b)
    decreases |b|
  {
    if |b| > 0 {
      var n := |b| - 1;
      assert (a + b)[..|a + b| - 1] == a + b[..n];
      GlobbedAppend(glob, pp, ppname, out, local, time, a, b[..n]);
    } else {
      assert a + b == a;
    }
  }

  /** A path is matched exactly when some variable's pattern matches it. */
  lemma {:induction false} GlobbedMembers(glob: string -> seq<string>, pp: string, ppname: string, out: string,
                                          local: string, time: string, adds: seq<string>)
    ensures forall p :: p in Globbed(glob, pp, ppname, out, local, time, adds) <==>
              exists i :: 0 <= i < |adds| && p in glob(PathPP(pp, ppname, out, local, time, adds[i]))
    decreases |adds|
  {
    if |adds| > 0 {
      var n := |adds| - 1;
      var prev := adds[..n];
      GlobbedMembers(glob, pp, ppname, out, local, time, prev);
      forall p | p in Globbed(glob, pp, ppname, out, local, time, adds)
        ensures exists i :: 0 <= i < |adds| && p in glob(PathPP(pp, ppname, out, local, time, adds[i]))
      {
        if p in Globbed(glob, pp, ppname, out, local, time, prev) {
          var i :| 0 <= i < n && p in glob(PathPP(pp, ppname, out, local, time, prev[i]));
          assert prev[i] == adds[i];
        }
      }
      forall p | exists i :: 0 <= i < |adds| && p in glob(PathPP(pp, ppname, out, local, time, adds[i]))
        ensures p in Globbed(glob, pp, ppname, out, local, time, adds)
      {
        var i :| 0 <= i < |adds| && p in glob(PathPP(pp, ppname, out, local, time, adds[i]));
        if i < n {
          assert prev[i] == adds[i];
        }
      }
    }
  }

  /** A single variable name behaves as the one-element list of it. */
  lemma StrAddIsSingleton(pp: string, ppname: string, out: string, local: string, time: string,
                          a: string, dmget: bool, mirror: bool, prefix: string,
                          glob: string -> seq<string>, isFile: set<string>)
    ensures OpenPlanOf(pp, ppname, out, local, time, Str(a), dmget, mirror, prefix, glob, isFile)
         == OpenPlanOf(pp, ppname, out, local, time, List([a]), dmget, mirror, prefix, glob, isFile)
  {
    assert [a][..0] == [];
    assert Globbed(glob, pp, ppname, out, local, time, [a]) == glob(PathPP(pp, ppname, out, local, time, a));
  }

  /**
   * The errors: requesting both modes fails before anything is globbed, whatever
   * the glob would match; otherwise only an `add` that is neither str nor list fails.
   */
  lemma OpenPlanErrors(pp: string, ppname: string, out: string, local: string, time: string,
                       add: PathArg, dmget: bool, mirror: bool, prefix: string,
                       glob: string -> seq<string>, isFile: set<string>)
    ensures dmget && mirror ==>
      OpenPlanOf(pp, ppname, out, local, time, add, dmget, mirror, prefix, glob, isFile) == Err(ConflictingModes)
    ensures OpenPlanOf(pp, ppname, out, local, time, add, dmget, mirror, prefix, glob, isFile).Err?
      <==> (dmget && mirror) || add.OtherType?
  {
  }

  /**
   * The successful outcomes, by mode. With no matches nothing is staged and
   * nothing opened; otherwise `dmget` issues a command naming every match in
   * order, `mirror` opens `prefix + p` for each match in order (no collapse of
   * `//`, unlike the list `mirror_path` waits on, which agrees with it once
   * collapsed), and neither opens the matches as they are.
   */
  lemma OpenPlanModes(pp: string, ppname: string, out: string, local: string, time: string,
                      add: PathArg, dmget: bool, mirror: bool, prefix: string,
                      glob: string -> seq<string>, isFile: set<string>)
    requires !(dmget && mirror) && !add.OtherType?
    ensures var m := MatchedPaths(glob, pp, ppname, out, local, time, add).value;
      var r := OpenPlanOf(pp, ppname, out, local, time, add, dmget, mirror, prefix, glob, isFile);
      && r.Ok?
      && (|m| == 0 || (!dmget && !mirror) ==> r.value == OpenPlan(m, NoStaging))
      && (|m| > 0 && dmget ==>
            r.value.paths == m && r.value.staging == Migrate("dmget " + Join(m, ' ') + " &"))
      && (|m| > 0 && mirror ==>
            && r.value.staging.Mirrored?
            && r.value.staging.plan == MirrorPath(List(m), prefix, isFile).value
            && |r.value.paths| == |m|
            && (forall i :: 0 <= i < |m| ==> r.value.paths[i] == prefix + m[i])
            && (forall i :: 0 <= i < |m| ==>
                  CollapseSlashes(r.value.paths[i]) == r.value.staging.plan.mirrored[i]))
  {
    var m := MatchedPaths(glob, pp, ppname, out, local, time, add).value;
    if |m| > 0 && mirror {
      MirrorPathShape(List(m), prefix, isFile);
    }
  }

  /** In `dmget` mode the issued command, split on spaces, lists the matches in order. */
  lemma MigrateCommandNamesMatches(pp: string, ppname: string, out: string, local: string, time: string,
                                   add: PathArg, prefix: string,
                                   glob: string -> seq<string>, isFile: set<string>)
    requires !add.OtherType?
    requires var m := MatchedPaths(glob, pp, ppname, out, local, time, add).value;
      |m| > 0 && forall i :: 0 <= i < |m| ==> ' ' !in m[i]
    ensures var m := MatchedPaths(glob, pp, ppname, out, local, time, add).value;
      var r := OpenPlanOf(pp, ppname, out, local, time, add, true, false, prefix, glob, isFile);
      r.Ok? && r.value.staging.Migrate? && Split(r.value.staging.command, ' ') == ["dmget"] + m + ["&"]
  {
    var m := MatchedPaths(glob, pp, ppname, out, local, time, add).value;
    DmgetCommandWords(m);
  }
}
