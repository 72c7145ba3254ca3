/**
 * Catalog discovery in gfdl_utils/core.py: the layout under a ppname
 * (`get_local`, `get_timefrequency`), the variable names of a time-series
 * directory (`get_varnames`) and the ppname -> variables dictionary
 * (`get_allvars`). Directory listings are an input: `fs` maps each path the
 * source hands to `os.listdir` to the entries it returns, in listing order; a
 * path that is not a key is not a directory and `os.listdir` raises.
 */
module Catalog {
  import opened PyStrings
  import opened Outcomes
  import PathBuilder

  type Listings = map<string, seq<string>>

  /** `os.listdir(path)`. */
  function ListDir(fs: Listings, path: string): Result<seq<string>>
  {
    if path in fs then Ok(fs[path]) else Err(NoSuchDirectory(path))
  }

  /** `get_ppnames`: the entries of `pp + '/'`. */
  function PPNames(fs: Listings, pp: string): (r: Result<seq<string>>)
    ensures r.Ok? <==> pp + "/" in fs
    ensures r.Ok? ==> r.value == fs[pp + "/"]
    ensures r.Err? ==> r.error == NoSuchDirectory(pp + "/")
  {
    ListDir(fs, pp + "/")
  }

  /** `get_local`: the first entry under `pp/ppname/out` and the first entry under that, joined by '/'. */
  function GetLocal(fs: Listings, pp: string, ppname: string, out: string): (r: Result<string>)
    ensures var d1 := Join([pp, ppname, out], '/');
      r.Ok? <==> d1 in fs && |fs[d1]| > 0
                 && Join([pp, ppname, out, fs[d1][0]], '/') in fs
                 && |fs[Join([pp, ppname, out, fs[d1][0]], '/')]| > 0
  {
    var d1 := Join([pp, ppname, out], '/');
    if d1 !in fs then Err(NoSuchDirectory(d1))
    else if |fs[d1]| == 0 then Err(IndexOutOfRange)
    else
      var local1 := fs[d1][0];
      var d2 := Join([pp, ppname, out, local1], '/');
      if d2 !in fs then Err(NoSuchDirectory(d2))
      else if |fs[d2]| == 0 then Err(IndexOutOfRange)
      else Ok(local1 + "/" + fs[d2][0])
  }

  /** `get_timefrequency`: the first '/'-segment of the `ts` layout. */
  function TimeFrequency(fs: Listings, pp: string, ppname: string): Result<string>
  {
    match GetLocal(fs, pp, ppname, "ts")
    case Err(e) => Err(e)
    case Ok(local) => Ok(Split(local, '/')[0])
  }

  /**
   * The layout splits back into the two sampled entries, and the time frequency
   * is the first entry of the `ts` directory (directory entries hold no '/').
   */
  lemma GetLocalEntries(fs: Listings, pp: string, ppname: string, out: string)
    requires GetLocal(fs, pp, ppname, out).Ok?
    ensures var d1 := Join([pp, ppname, out], '/');
      var d2 := Join([pp, ppname, out, fs[d1][0]], '/');
      '/' !in fs[d1][0] && '/' !in fs[d2][0] ==>
        Split(GetLocal(fs, pp, ppname, out).value, '/') == [fs[d1][0], fs[d2][0]]
  {
    var d1 := Join([pp, ppname, out], '/');
    var d2 := Join([pp, ppname, out, fs[d1][0]], '/');
    if '/' !in fs[d1][0] && '/' !in fs[d2][0] {
      SplitAround(fs[d1][0], fs[d2][0], '/');
      SplitNoSeparator(fs[d1][0], '/');
      SplitNoSeparator(fs[d2][0], '/');
    }
  }

  lemma TimeFrequencyIsFirstEntry(fs: Listings, pp: string, ppname: string)
    requires GetLocal(fs, pp, ppname, "ts").Ok?
    ensures var d1 := Join([pp, ppname, "ts"], '/');
      '/' !in fs[d1][0] ==> TimeFrequency(fs, pp, ppname) == Ok(fs[d1][0])
  {
    var d1 := Join([pp, ppname, "ts"], '/');
    var d2 := Join([pp, ppname, "ts", fs[d1][0]], '/');
    if '/' !in fs[d1][0] {
      SplitAround(fs[d1][0], fs[d2][0], '/');
      SplitNoSeparator(fs[d1][0], '/');
    }
  }

  // ---------------------------------------------------------------------------
  // variable names of one time-series directory

  /** A file is kept when `'nc'` is one of its dot-separated tokens, anywhere. */
  predicate HasNcToken(file: string)
  {
    "nc" in Split(file, '.')
  }

  lemma SingleToken(file: string)
    requires |Split(file, '.')| == 1
    ensures Split(file, '.') == [file]
  {
    JoinSplit(file, '.');
  }

  /** `split[-2]`: the token before the last one. */
  function VarNameOf(file: string): string
    requires HasNcToken(file) && file != "nc"
  {
    var parts := Split(file, '.');
    if |parts| == 1 then (SingleToken(file); assert false; "")
    else parts[|parts| - 2]
  }

  /** File `file` contributes the name `v`. */
  predicate Yields(file: string, v: string)
  {
    file != "nc" && HasNcToken(file) && VarNameOf(file) == v
  }

  /** The names the loop collects: kept files' names, each once, in first-seen order. */
  function CollectedNames(files: seq<string>): seq<string>
    requires "nc" !in files
  {
    if |files| == 0 then []
    else
      var prev := CollectedNames(files[..|files| - 1]);
      var file := files[|files| - 1];
      if !HasNcToken(file) then prev
      else if VarNameOf(file) in prev then prev
      else prev + [VarNameOf(file)]
  }

  /** The outcome of the loop: a file named exactly `nc` raises IndexError at `split[-2]`. */
  function ExtractedNames(files: seq<string>): Result<seq<string>>
  {
    if "nc" in files then Err(IndexOutOfRange) else Ok(CollectedNames(files))
  }

  /** The loop of `get_varnames` over a directory listing. */
  method CollectVarNames(files: seq<string>) returns (r: Result<seq<string>>)
    ensures r == ExtractedNames(files)
  {
    var allvars := [];
    var i := 0;
    while i < |files|
      invariant 0 <= i <= |files|
      invariant "nc" !in files[..i]
      invariant allvars == CollectedNames(files[..i])
    {
      var file := files[i];
      var split := Split(file, '.');
      assert files[..i + 1][..i] == files[..i];
      if "nc" !in split {
        assert file != "nc" by { SplitNoSeparator("nc", '.'); }
        i := i + 1;
        continue;
      }
      if |split| < 2 {
        SingleToken(file);
        assert file in files;
        return Err(IndexOutOfRange);
      }
      assert file != "nc" by { SplitNoSeparator("nc", '.'); }
      var varname := split[|split| - 2];
      if varname !in allvars {
        allvars := allvars + [varname];
      }
      i := i + 1;
    }
    assert files[..i] == files;
    return Ok(allvars);
  }

  /** The collected names are those of the kept files, and no others. */
  lemma {:induction false} CollectedNamesMembers(files: seq<string>)
    requires "nc" !in files
    ensures forall v :: v in CollectedNames(files) <==> exists i :: 0 <= i < |files| && Yields(files[i], v)
    decreases |files|
  {
    if |files| > 0 {
      var n := |files| - 1;
      var prev := files[..n];
      CollectedNamesMembers(prev);
      forall v | v in CollectedNames(files)
        ensures exists i :: 0 <= i < |files| && Yields(files[i], v)
      {
        if v in CollectedNames(prev) {
          var i :| 0 <= i < n && Yields(prev[i], v);
          assert files[i] == prev[i];
        } else {
          assert Yields(files[n], v);
        }
      }
      forall v | exists i :: 0 <= i < |files| && Yields(files[i], v)
        ensures v in CollectedNames(files)
      {
        var i :| 0 <= i < |files| && Yields(files[i], v);
        if i < n {
          assert Yields(prev[i], v);
        }
      }
    }
  }

  /** No name is collected twice. */
  lemma {:induction false} CollectedNamesDistinct(files: seq<string>)
    requires "nc" !in files
    ensures forall a, b :: 0 <= a < b < |CollectedNames(files)| ==> CollectedNames(files)[a] != CollectedNames(files)[b]
    decreases |files|
  {
    if |files| > 0 {
      CollectedNamesDistinct(files[..|files| - 1]);
    }
  }

  /** Name `x` is yielded by a file before any file yields `y`. */
  predicate SeenBefore(files: seq<string>, x: string, y: string)
  {
    exists p :: 0 <= p < |files| && Yields(files[p], x) && forall q :: 0 <= q <= p ==> !Yields(files[q], y)
  }

  /** The collected names are in the order in which they are first seen. */
  lemma {:induction false} CollectedNamesOrder(files: seq<string>)
    requires "nc" !in files
    ensures forall a, b :: 0 <= a < b < |CollectedNames(files)| ==>
              SeenBefore(files, CollectedNames(files)[a], CollectedNames(files)[b])
    decreases |files|
  {
    if |files| > 0 {
      var n := |files| - 1;
      var prev := files[..n];
      var r, pr := CollectedNames(files), CollectedNames(prev);
      CollectedNamesOrder(prev);
      CollectedNamesMembers(prev);
      forall a, b | 0 <= a < b < |r|
        ensures SeenBefore(files, r[a], r[b])
      {
        if b < |pr| {
          assert SeenBefore(prev, pr[a], pr[b]);
          var p :| 0 <= p < n && Yields(prev[p], pr[a]) && forall q :: 0 <= q <= p ==> !Yields(prev[q], pr[b]);
          assert Yields(files[p], r[a]);
          forall q | 0 <= q <= p
            ensures !Yields(files[q], r[b])
          {
            assert files[q] == prev[q];
          }
        } else {
          assert r[a] in pr;
          var p :| 0 <= p < n && Yields(prev[p], r[a]);
          assert r[b] !in pr;
          forall q | 0 <= q <= p
            ensures !Yields(files[q], r[b])
          {
            assert files[q] == prev[q];
          }
          assert Yields(files[p], r[a]);
        }
      }
    }
  }

  /** A file named by `get_pathspp`'s convention yields its `add` part, whatever dots the other parts hold. */
  lemma PPFileYieldsAdd(ppname: string, time: string, add: string)
    requires '.' !in add
    ensures Yields(PathBuilder.FileNamePP(ppname, time, add), add)
  {
    var f := PathBuilder.FileNamePP(ppname, time, add);
    var pre := Join([ppname, time], '.');
    assert f == pre + ['.'] + (add + ['.'] + "nc") by {
      JoinSnoc([ppname, time, add, "nc"], '.');
      JoinSnoc([ppname, time, add], '.');
      assert [ppname, time, add, "nc"][..3] == [ppname, time, add];
      assert [ppname, time, add][..2] == [ppname, time];
    }
    assert Split(add + ['.'] + "nc", '.') == [add, "nc"] by {
      SplitNoSeparator("nc", '.');
      SplitCons(add, "nc", '.');
    }
    SplitAround(pre, add + ['.'] + "nc", '.');
    var parts := Split(f, '.');
    assert parts == Split(pre, '.') + [add, "nc"];
    assert parts[|parts| - 1] == "nc" && parts[|parts| - 2] == add;
    assert f != "nc" by {
      assert f[|pre|] == '.';
    }
  }

  // ---------------------------------------------------------------------------
  // get_varnames

  /**
   * `get_varnames(pp, ppname)`: None when the `ts` directory is missing or empty
   * (the bare `except`), otherwise the names collected from `ts/<layout>`; the
   * second listing of `get_local` and the file listing are outside the `try`.
   */
  function VarNames(fs: Listings, pp: string, ppname: string): Result<Option<seq<string>>>
  {
    var ts := Join([pp, ppname, "ts"], '/');
    if ts !in fs || |fs[ts]| == 0 then Ok(None)
    else match GetLocal(fs, pp, ppname, "ts")
      case Err(e) => Err(e)
      case Ok(local) =>
        var dir := Join([pp, ppname, "ts", local], '/');
        if dir !in fs then Err(NoSuchDirectory(dir))
        else match ExtractedNames(fs[dir])
          case Err(e) => Err(e)
          case Ok(names) => Ok(Some(names))
  }

  method GetVarNames(fs: Listings, pp: string, ppname: string) returns (r: Result<Option<seq<string>>>)
    ensures r == VarNames(fs, pp, ppname)
  {
    var ts := Join([pp, ppname, "ts"], '/');
    if ts !in fs || |fs[ts]| == 0 {
      return Ok(None);
    }
    var local :- GetLocal(fs, pp, ppname, "ts");
    var dir := Join([pp, ppname, "ts", local], '/');
    if dir !in fs {
      return Err(NoSuchDirectory(dir));
    }
    var names :- CollectVarNames(fs[dir]);
    return Ok(Some(names));
  }

  // ---------------------------------------------------------------------------
  // get_allvars: an insertion-ordered dictionary ppname -> variable names

  datatype Entry = Entry(ppname: string, vars: seq<string>)

  /** A Python dict in insertion order. */
  type Dict = seq<Entry>

  function Keys(d: Dict): seq<string>
  {
    if |d| == 0 then [] else [d[0].ppname] + Keys(d[1..])
  }

  /** `d[k]`, or None when `k` is not a key. */
  function Lookup(d: Dict, k: string): Option<seq<string>>
  {
    if |d| == 0 then None
    else if d[0].ppname == k then Some(d[0].vars)
    else Lookup(d[1..], k)
  }

  /** `d[k] = v`: an existing key keeps its place, a new one goes last. */
  function Put(d: Dict, k: string, v: seq<string>): Dict
  {
    if |d| == 0 then [Entry(k, v)]
    else if d[0].ppname == k then [Entry(k, v)] + d[1..]
    else [d[0]] + Put(d[1..], k, v)
  }

  predicate DistinctKeys(d: Dict)
  {
    forall a, b :: 0 <= a < b < |d| ==> d[a].ppname != d[b].ppname
  }

  lemma {:induction false} KeysMembers(d: Dict)
    ensures |Keys(d)| == |d|
    ensures forall i :: 0 <= i < |d| ==> Keys(d)[i] == d[i].ppname
    ensures forall k :: k in Keys(d) <==> Lookup(d, k).Some?
    decreases |d|
  {
    if |d| > 0 {
      KeysMembers(d[1..]);
    }
  }

  /** Assignment sets `k` and leaves every other key as it was. */
  lemma {:induction false} PutLookup(d: Dict, k: string, v: seq<string>)
    ensures Lookup(Put(d, k, v), k) == Some(v)
    ensures forall k' :: k' != k ==> Lookup(Put(d, k, v), k') == Lookup(d, k')
    decreases |d|
  {
    if |d| > 0 && d[0].ppname != k {
      PutLookup(d[1..], k, v);
      assert Put(d, k, v)[1..] == Put(d[1..], k, v);
    }
  }

  /** An existing key keeps its place; a new key goes last. */
  lemma {:induction false} PutKeys(d: Dict, k: string, v: seq<string>)
    ensures Keys(Put(d, k, v)) == if k in Keys(d) then Keys(d) else Keys(d) + [k]
    decreases |d|
  {
    if |d| > 0 {
      if d[0].ppname == k {
        assert Put(d, k, v)[1..] == d[1..];
      } else {
        PutKeys(d[1..], k, v);
        assert Put(d, k, v)[1..] == Put(d[1..], k, v);
        assert Keys(d) == [d[0].ppname] + Keys(d[1..]);
      }
    }
  }

  /** Assignment keeps the keys distinct. */
  lemma PutDistinct(d: Dict, k: string, v: seq<string>)
    requires DistinctKeys(d)
    ensures DistinctKeys(Put(d, k, v))
  {
    var p := Put(d, k, v);
    PutKeys(d, k, v);
    KeysMembers(d);
    KeysMembers(p);
    forall a, b | 0 <= a < b < |p| ensures p[a].ppname != p[b].ppname {
      assert Keys(p)[a] == p[a].ppname && Keys(p)[b] == p[b].ppname;
      if k in Keys(d) {
        assert Keys(d)[a] == d[a].ppname && Keys(d)[b] == d[b].ppname;
      } else if b < |d| {
        assert Keys(d)[a] == d[a].ppname && Keys(d)[b] == d[b].ppname;
      } else {
        assert Keys(d)[a] == d[a].ppname;
      }
    }
  }

  /**
   * The dictionary `get_allvars` builds from the listing `names`, one ppname at a
   * time; the first `get_varnames` that raises ends it.
   */
  function CatalogOver(fs: Listings, pp: string, names: seq<string>): Result<Dict>
  {
    if |names| == 0 then Ok([])
    else
      match CatalogOver(fs, pp, names[..|names| - 1])
      case Err(e) => Err(e)
      case Ok(d) =>
        var ppname := names[|names| - 1];
        match VarNames(fs, pp, ppname)
        case Err(e) => Err(e)
        case Ok(None) => Ok(d)
        case Ok(Some(vars)) => Ok(Put(d, ppname, vars))
  }

  /** `get_allvars(pp)`. */
  function AllVars(fs: Listings, pp: string): Result<Dict>
  {
    match PPNames(fs, pp)
    case Err(e) => Err(e)
    case Ok(names) => CatalogOver(fs, pp, names)
  }

  method GetAllVars(fs: Listings, pp: string) returns (r: Result<Dict>)
    ensures r == AllVars(fs, pp)
  {
    var ppnames :- PPNames(fs, pp);
    var allvars: Dict := [];
    var i := 0;
    while i < |ppnames|
      invariant 0 <= i <= |ppnames|
      invariant CatalogOver(fs, pp, ppnames[..i]) == Ok(allvars)
    {
      var ppname := ppnames[i];
      assert ppnames[..i + 1][..i] == ppnames[..i];
      var varnames := GetVarNames(fs, pp, ppname);
      if varnames.Err? {
        CatalogOverErrSticks(fs, pp, ppnames, i + 1);
        return Err(varnames.error);
      }
      if varnames.value.Some? {
        allvars := Put(allvars, ppname, varnames.value.value);
      }
      i := i + 1;
    }
    assert ppnames[..i] == ppnames;
    return Ok(allvars);
  }

  /** Once a prefix of the listing raises, the whole listing raises the same error. */
  lemma {:induction false} CatalogOverErrSticks(fs: Listings, pp: string, names: seq<string>, j: nat)
    requires j <= |names|
    requires CatalogOver(fs, pp, names[..j]).Err?
    ensures CatalogOver(fs, pp, names) == CatalogOver(fs, pp, names[..j])
    decreases |names| - j
  {
    if j < |names| {
      var n := |names| - 1;
      assert names[..n][..j] == names[..j];
      CatalogOverErrSticks(fs, pp, names[..n], j);
    } else {
      assert names[..j] == names;
    }
  }

  /** A ppname whose `get_varnames` is None is a key of no dictionary. */
  predicate Listed(fs: Listings, pp: string, k: string)
  {
    VarNames(fs, pp, k).Ok? && VarNames(fs, pp, k).value.Some?
  }

  /**
   * The dictionary has a key for a listed ppname exactly when its `get_varnames`
   * is not None (an empty list included), holding that list; keys are distinct.
   */
  lemma {:induction false} CatalogOverMeaning(fs: Listings, pp: string, names: seq<string>)
    requires CatalogOver(fs, pp, names).Ok?
    ensures DistinctKeys(CatalogOver(fs, pp, names).value)
    ensures forall k :: k in Keys(CatalogOver(fs, pp, names).value) <==> k in names && Listed(fs, pp, k)
    ensures forall k :: k in Keys(CatalogOver(fs, pp, names).value) ==>
              VarNames(fs, pp, k).Ok? && Lookup(CatalogOver(fs, pp, names).value, k) == VarNames(fs, pp, k).value
    decreases |names|
  {
    var d := CatalogOver(fs, pp, names).value;
    KeysMembers(d);
    if |names| > 0 {
      var n := |names| - 1;
      var prev := names[..n];
      CatalogOverMeaning(fs, pp, prev);
      var pd := CatalogOver(fs, pp, prev).value;
      KeysMembers(pd);
      var k := names[n];
      assert names == prev + [k];
      if VarNames(fs, pp, k).value.Some? {
        var vars := VarNames(fs, pp, k).value.value;
        PutLookup(pd, k, vars);
        PutKeys(pd, k, vars);
        PutDistinct(pd, k, vars);
      }
    }
  }

  /** `get_allvars` raises exactly when some listed ppname's `get_varnames` raises. */
  lemma {:induction false} CatalogOverFails(fs: Listings, pp: string, names: seq<string>)
    ensures CatalogOver(fs, pp, names).Err? <==> exists i :: 0 <= i < |names| && VarNames(fs, pp, names[i]).Err?
    decreases |names|
  {
    if |names| > 0 {
      var n := |names| - 1;
      CatalogOverFails(fs, pp, names[..n]);
      assert forall i :: 0 <= i < n ==> names[..n][i] == names[i];
    }
  }
}
