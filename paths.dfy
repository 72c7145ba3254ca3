/**
 * The path builders of gfdl_utils/core.py: `get_pathspp` (a time-series or
 * time-average file pattern, with `"//"` replaced by `"/"`) and `get_pathstatic`
 * (the static grid file, joined without any replacement).
 */
module PathBuilder {
  import opened PyStrings

  /** `".".join([ppname, time, add, 'nc'])`. */
  function FileNamePP(ppname: string, time: string, add: string): string
  {
    Join([ppname, time, add, "nc"], '.')
  }

  /** `"/".join([pp, ppname, out, local, filename])`, before the replacement. */
  function RawPathPP(pp: string, ppname: string, out: string, local: string, time: string, add: string): string
  {
    Join([pp, ppname, out, local, FileNamePP(ppname, time, add)], '/')
  }

  /** `get_pathspp`. */
  function PathPP(pp: string, ppname: string, out: string, local: string, time: string, add: string): string
  {
    CollapseSlashes(RawPathPP(pp, ppname, out, local, time, add))
  }

  /** `get_pathstatic`: `pp/ppname/ppname.static.nc`, nothing collapsed. */
  function PathStatic(pp: string, ppname: string): string
  {
    Join([pp, ppname, Join([ppname, "static", "nc"], '.')], '/')
  }

  /**
   * What the `"//"` replacement does to the joined path: it only drops slashes,
   * it changes nothing when there is no `"//"`, and it leaves no `"//"` when the
   * join has no run of three slashes.
   */
  lemma PathPPCollapse(pp: string, ppname: string, out: string, local: string, time: string, add: string)
    ensures var raw, r := RawPathPP(pp, ppname, out, local, time, add), PathPP(pp, ppname, out, local, time, add);
      && |r| <= |raw|
      && Without(r, '/') == Without(raw, '/')
      && (!Contains(raw, "//") ==> r == raw)
      && (!Contains(raw, "///") ==> !Contains(r, "//"))
  {
    var raw := RawPathPP(pp, ppname, out, local, time, add);
    CollapseKeepsNonSlashes(raw);
    if !Contains(raw, "//") {
      CollapseIdentity(raw);
    }
    if !Contains(raw, "///") {
      CollapseNoDouble(raw);
    }
  }

  /**
   * An `out` ending in a slash followed by a `local` starting with one joins to a
   * run of three slashes, and the result still holds `"//"`.
   */
  lemma PathPPKeepsTripleSlash(pp: string, ppname: string, o: string, l: string, time: string, add: string)
    requires |o| > 0 && o[|o| - 1] != '/'
    requires |l| > 0 && l[0] != '/'
    ensures Contains(PathPP(pp, ppname, o + "/", "/" + l, time, add), "//")
  {
    var f := FileNamePP(ppname, time, add);
    var raw := RawPathPP(pp, ppname, o + "/", "/" + l, time, add);
    JoinCons("/" + l, [f], '/');
    JoinCons(o + "/", ["/" + l, f], '/');
    JoinCons(ppname, [o + "/", "/" + l, f], '/');
    JoinCons(pp, [ppname, o + "/", "/" + l, f], '/');
    var x, y := pp + "/" + ppname + "/" + o, l + "/" + f;
    assert raw == x + "///" + y;
    assert x[|x| - 1] == o[|o| - 1];
    assert y[0] == l[0];
    CollapseTriple(x, y);
    var r := PathPP(pp, ppname, o + "/", "/" + l, time, add);
    var cx := CollapseSlashes(x);
    assert r == cx + "//" + CollapseSlashes(y);
    assert r[|cx|..|cx| + 2] == "//";
    assert OccursAt(r, "//", |cx|);
    ContainsAt(r, "//");
  }

  /** A separator-free part joined with another separator stays free of the first. */
  lemma {:induction false} JoinFree(parts: seq<string>, sep: char, d: char)
    requires d != sep
    requires forall i :: 0 <= i < |parts| ==> d !in parts[i]
    ensures d !in Join(parts, sep)
    decreases |parts|
  {
    if |parts| > 1 {
      JoinFree(parts[1..], sep, d);
    }
  }

  /**
   * The file name is never touched by the replacement: when no name part holds a
   * slash, the result is the collapsed directory part followed by
   * `ppname.time.add.nc` as it was built.
   */
  lemma PathPPFileNameIntact(pp: string, ppname: string, out: string, local: string, time: string, add: string)
    requires '/' !in ppname && '/' !in time && '/' !in add
    ensures PathPP(pp, ppname, out, local, time, add)
            == CollapseSlashes(Join([pp, ppname, out, local], '/') + "/") + FileNamePP(ppname, time, add)
  {
    var f := FileNamePP(ppname, time, add);
    var parts := [pp, ppname, out, local, f];
    JoinSnoc(parts, '/');
    assert parts[..4] == [pp, ppname, out, local];
    var dir := Join([pp, ppname, out, local], '/') + "/";
    assert RawPathPP(pp, ppname, out, local, time, add) == dir + f;
    JoinFree([ppname, time, add, "nc"], '.', '/');
    JoinSnoc([ppname, time, add, "nc"], '.');
    assert |f| > 0 && f[0] in f;
    CollapseConcat(dir, f);
    ContainsFirstChar(f, "//");
    CollapseIdentity(f);
  }

  /** The file name splits on dots back into `[ppname, time, add, "nc"]`. */
  lemma FileNamePPSplit(ppname: string, time: string, add: string)
    requires '.' !in ppname && '.' !in time && '.' !in add
    ensures Split(FileNamePP(ppname, time, add), '.') == [ppname, time, add, "nc"]
  {
    SplitJoin([ppname, time, add, "nc"], '.');
  }

  /** The static path is `pp/ppname/ppname.static.nc` exactly as written. */
  lemma PathStaticLayout(pp: string, ppname: string)
    ensures PathStatic(pp, ppname) == pp + "/" + ppname + "/" + ppname + ".static.nc"
  {
    assert Join(["static", "nc"], '.') == "static.nc";
    assert Join([ppname, "static", "nc"], '.') == ppname + ".static.nc";
    var name := ppname + ".static.nc";
    assert Join([ppname, name], '/') == ppname + "/" + name;
  }

  /** Unlike `PathPP`, the static path keeps a doubled slash from a trailing slash in `pp`. */
  lemma PathStaticKeepsDoubleSlash(pp: string, ppname: string)
    ensures Contains(PathStatic(pp + "/", ppname), "//")
  {
    var r := PathStatic(pp + "/", ppname);
    PathStaticLayout(pp + "/", ppname);
    assert r[|pp|..|pp| + 2] == "//";
    assert OccursAt(r, "//", |pp|);
    ContainsAt(r, "//");
  }
}
