/**
 * Searching the catalog in gfdl_utils/core.py: `find_variable` (the ppnames
 * whose variable list holds a name), `find_unique_variable` (substring filters
 * and a uniqueness rule) and `query_is1x1deg` (a naming-convention test).
 */
module Search {
  import opened PyStrings
  import opened Outcomes
  import opened Catalog

  /** The ppnames of `d`, in dictionary order, whose list holds `variable`. */
  function Holding(d: Dict, variable: string): seq<string>
  {
    if |d| == 0 then []
    else
      var prev := Holding(d[..|d| - 1], variable);
      var e := d[|d| - 1];
      if variable in e.vars then prev + [e.ppname] else prev
  }

  /** `find_variable(pp, variable)`: the holding ppnames, or None when there are none. */
  function VariableLocations(fs: Listings, pp: string, variable: string): Result<Option<seq<string>>>
  {
    match AllVars(fs, pp)
    case Err(e) => Err(e)
    case Ok(d) =>
      var found := Holding(d, variable);
      Ok(if |found| > 0 then Some(found) else None)
  }

  method FindVariable(fs: Listings, pp: string, variable: string) returns (r: Result<Option<seq<string>>>)
    ensures r == VariableLocations(fs, pp, variable)
  {
    var allvars :- GetAllVars(fs, pp);
    var ppnames := [];
    var found := false;
    var i := 0;
    while i < |allvars|
      invariant 0 <= i <= |allvars|
      invariant ppnames == Holding(allvars[..i], variable)
      invariant found <==> |ppnames| > 0
    {
      assert allvars[..i + 1][..i] == allvars[..i];
      var varnames := allvars[i].vars;
      if variable in varnames {
        found := true;
        ppnames := ppnames + [allvars[i].ppname];
      }
      i := i + 1;
    }
    assert allvars[..i] == allvars;
    if found {
      return Ok(Some(ppnames));
    } else {
      return Ok(None);
    }
  }

  /** The holding ppnames are exactly the keys whose list holds the variable. */
  lemma {:induction false} HoldingMembers(d: Dict, variable: string)
    ensures forall x :: x in Holding(d, variable) <==> exists i :: 0 <= i < |d| && d[i].ppname == x && variable in d[i].vars
    decreases |d|
  {
    if |d| > 0 {
      var n := |d| - 1;
      var prev := d[..n];
      HoldingMembers(prev, variable);
      forall x | x in Holding(d, variable)
        ensures exists i :: 0 <= i < |d| && d[i].ppname == x && variable in d[i].vars
      {
        if x in Holding(prev, variable) {
          var i :| 0 <= i < n && prev[i].ppname == x && variable in prev[i].vars;
          assert d[i] == prev[i];
        } else {
          assert d[n].ppname == x && variable in d[n].vars;
        }
      }
      forall x | exists i :: 0 <= i < |d| && d[i].ppname == x && variable in d[i].vars
        ensures x in Holding(d, variable)
      {
        var i :| 0 <= i < |d| && d[i].ppname == x && variable in d[i].vars;
        if i < n {
          assert prev[i] == d[i];
        }
      }
    }
  }

  /**
   * End to end over the listings: a ppname is reported exactly when it is listed
   * under `pp`, its `get_varnames` is a list and that list holds the variable;
   * None means no such ppname, never an empty list.
   */
  lemma FindVariableMeaning(fs: Listings, pp: string, variable: string)
    requires AllVars(fs, pp).Ok?
    ensures var r := VariableLocations(fs, pp, variable);
      && r.Ok?
      && (r.value.Some? ==> |r.value.value| > 0)
      && forall x ::
           (r.value.Some? && x in r.value.value)
           <==> x in PPNames(fs, pp).value && Listed(fs, pp, x) && variable in VarNames(fs, pp, x).value.value
  {
    var d := AllVars(fs, pp).value;
    var names := PPNames(fs, pp).value;
    CatalogOverMeaning(fs, pp, names);
    HoldingMembers(d, variable);
    KeysMembers(d);
    forall x
      ensures x in Holding(d, variable)
          <==> x in names && Listed(fs, pp, x) && variable in VarNames(fs, pp, x).value.value
    {
      if x in Holding(d, variable) {
        var i :| 0 <= i < |d| && d[i].ppname == x && variable in d[i].vars;
        assert Keys(d)[i] == x;
        LookupAt(d, i);
      }
      if x in names && Listed(fs, pp, x) && variable in VarNames(fs, pp, x).value.value {
        assert x in Keys(d);
        var i :| 0 <= i < |Keys(d)| && Keys(d)[i] == x;
        LookupAt(d, i);
      }
    }
  }

  /** In a dictionary with distinct keys, looking up the key at position `i` gives its list. */
  lemma {:induction false} LookupAt(d: Dict, i: int)
    requires 0 <= i < |d|
    requires DistinctKeys(d)
    ensures Lookup(d, d[i].ppname) == Some(d[i].vars)
    decreases i
  {
    if i > 0 {
      assert DistinctKeys(d[1..]) by {
        forall a, b | 0 <= a < b < |d| - 1 ensures d[1..][a].ppname != d[1..][b].ppname {
          assert d[1..][a] == d[a + 1] && d[1..][b] == d[b + 1];
        }
      }
      assert d[0].ppname != d[i].ppname;
      LookupAt(d[1..], i - 1);
    }
  }

  /** No entry occurs twice. */
  predicate Distinct(s: seq<string>)
  {
    forall i, j :: 0 <= i < j < |s| ==> s[i] != s[j]
  }

  /** The search keeps dictionary order: it is a filter that distributes over concatenation. */
  lemma {:induction false} HoldingAppend(a: Dict, b: Dict, variable: string)
    ensures Holding(a + b, variable) == Holding(a, variable) + Holding(b, variable)
    decreases |b|
  {
    if |b| > 0 {
      var n := |b| - 1;
      assert (a + b)[..|a + b| - 1] == a + b[..n];
      assert (a + b)[|a + b| - 1] == b[n];
      HoldingAppend(a, b[..n], variable);
    } else {
      assert a + b == a;
    }
  }

  /** Over a dictionary with distinct keys the search reports each ppname at most once. */
  lemma {:induction false} HoldingDistinct(d: Dict, variable: string)
    requires DistinctKeys(d)
    ensures Distinct(Holding(d, variable))
    decreases |d|
  {
    if |d| > 0 {
      var n := |d| - 1;
      var prev := d[..n];
      assert DistinctKeys(prev) by {
        forall a, b | 0 <= a < b < n ensures prev[a].ppname != prev[b].ppname {
          assert prev[a] == d[a] && prev[b] == d[b];
        }
      }
      HoldingDistinct(prev, variable);
      HoldingMembers(prev, variable);
      forall i | 0 <= i < n
        ensures prev[i].ppname != d[n].ppname
      {
        assert prev[i] == d[i];
      }
      var h := Holding(prev, variable);
      if variable in d[n].vars {
        assert d[n].ppname !in h;
        assert Holding(d, variable) == h + [d[n].ppname];
        forall a, b | 0 <= a < b < |h| + 1 ensures (h + [d[n].ppname])[a] != (h + [d[n].ppname])[b] {
          if b == |h| {
            assert h[a] in h;
          }
        }
      }
    }
  }

  /** `find_variable` never reports a ppname twice. */
  lemma VariableLocationsDistinct(fs: Listings, pp: string, variable: string)
    requires VariableLocations(fs, pp, variable).Ok? && VariableLocations(fs, pp, variable).value.Some?
    ensures Distinct(VariableLocations(fs, pp, variable).value.value)
  {
    CatalogOverMeaning(fs, pp, PPNames(fs, pp).value);
    HoldingDistinct(AllVars(fs, pp).value, variable);
  }

  // ---------------------------------------------------------------------------
  // find_unique_variable

  /** Every required string occurs in `e` and no ignored string does. */
  predicate Kept(e: string, require: seq<string>, ignore: seq<string>)
  {
    (forall r :: r in require ==> Contains(e, r)) && (forall s :: s in ignore ==> !Contains(e, s))
  }

  /** The comprehension over the candidates, in their order. */
  function Select(cands: seq<string>, require: seq<string>, ignore: seq<string>): (r: seq<string>)
    ensures forall x :: x in r <==> x in cands && Kept(x, require, ignore)
    ensures |r| <= |cands|
  {
    if |cands| == 0 then []
    else (if Kept(cands[0], require, ignore) then [cands[0]] else []) + Select(cands[1..], require, ignore)
  }

  /** The comprehension keeps the candidates' order: it distributes over concatenation. */
  lemma {:induction false} SelectAppend(a: seq<string>, b: seq<string>, require: seq<string>, ignore: seq<string>)
    ensures Select(a + b, require, ignore) == Select(a, require, ignore) + Select(b, require, ignore)
    decreases |a|
  {
    if |a| == 0 {
      assert a + b == b;
    } else {
      assert (a + b)[0] == a[0] && (a + b)[1..] == a[1..] + b;
      SelectAppend(a[1..], b, require, ignore);
    }
  }

  /** Filtering distinct candidates leaves them distinct. */
  lemma {:induction false} SelectDistinct(cands: seq<string>, require: seq<string>, ignore: seq<string>)
    requires Distinct(cands)
    ensures Distinct(Select(cands, require, ignore))
    decreases |cands|
  {
    if |cands| > 0 {
      var rest := cands[1..];
      assert Distinct(rest) by {
        forall i, j | 0 <= i < j < |rest| ensures rest[i] != rest[j] {
          assert rest[i] == cands[i + 1] && rest[j] == cands[j + 1];
        }
      }
      SelectDistinct(rest, require, ignore);
      var tail := Select(rest, require, ignore);
      forall k | 0 <= k < |rest|
        ensures rest[k] != cands[0]
      {
        assert rest[k] == cands[k + 1];
      }
      if Kept(cands[0], require, ignore) {
        var r := [cands[0]] + tail;
        forall i, j | 0 <= i < j < |r| ensures r[i] != r[j] {
          if i == 0 {
            assert r[j] == tail[j - 1];
          } else {
            assert r[i] == tail[i - 1] && r[j] == tail[j - 1];
          }
        }
      }
    }
  }

  /** `x` is a candidate that passes the filters. */
  predicate KeptAmong(cands: seq<string>, x: string, require: seq<string>, ignore: seq<string>)
  {
    x in cands && Kept(x, require, ignore)
  }

  /**
   * The converse of `Unique`'s contract for one survivor: when the candidates are
   * distinct (as `find_variable` reports them) and `x` is the only one passing the
   * filters, it comes back bare, whatever `unique` says.
   */
  lemma UniqueSingle(cands: seq<string>, require: Strings, ignore: Strings, unique: bool, x: string)
    requires Distinct(cands)
    requires KeptAmong(cands, x, require.AsList(), ignore.AsList())
    requires forall y :: KeptAmong(cands, y, require.AsList(), ignore.AsList()) ==> y == x
    ensures Unique(Some(cands), require, ignore, unique) == Ok(One(x))
  {
    var req, ign := require.AsList(), ignore.AsList();
    var local := Select(cands, req, ign);
    SelectDistinct(cands, req, ign);
    assert x in local;
    assert |local| < 2 by {
      if |local| >= 2 {
        assert KeptAmong(cands, local[0], req, ign) && KeptAmong(cands, local[1], req, ign);
      }
    }
  }

  /**
   * The converse for several survivors: two different candidates passing the
   * filters raise Ambiguous when `unique`, else come back as the filtered list.
   */
  lemma UniqueSeveral(cands: seq<string>, require: Strings, ignore: Strings, unique: bool, x: string, y: string)
    requires KeptAmong(cands, x, require.AsList(), ignore.AsList())
    requires KeptAmong(cands, y, require.AsList(), ignore.AsList())
    requires x != y
    ensures Unique(Some(cands), require, ignore, unique)
         == if unique then Err(Ambiguous(Select(cands, require.AsList(), ignore.AsList())))
            else Ok(Many(Select(cands, require.AsList(), ignore.AsList())))
  {
    var local := Select(cands, require.AsList(), ignore.AsList());
    assert x in local && y in local;
    var i :| 0 <= i < |local| && local[i] == x;
    var j :| 0 <= j < |local| && local[j] == y;
    assert i != j;
  }

  /**
   * What `find_unique_variable` does with `find_variable`'s answer: iterating
   * None raises; one kept candidate comes back bare whatever `unique` says; none
   * raises NoMatch; several raise Ambiguous when `unique`, else come back as a list.
   */
  function Unique(found: Option<seq<string>>, require: Strings, ignore: Strings, unique: bool): (r: Result<Strings>)
    ensures found.None? ==> r == Err(NoneNotIterable)
    ensures r == Err(NoMatch) <==>
      found.Some? && forall x :: x in found.value ==> !Kept(x, require.AsList(), ignore.AsList())
    ensures r.Ok? && r.value.One? ==>
      found.Some? && r.value.s in found.value && Kept(r.value.s, require.AsList(), ignore.AsList())
      && forall x :: x in found.value && Kept(x, require.AsList(), ignore.AsList()) ==> x == r.value.s
    ensures r.Ok? && r.value.Many? ==>
      !unique && |r.value.items| > 1 && found.Some?
      && forall x :: x in r.value.items <==> x in found.value && Kept(x, require.AsList(), ignore.AsList())
    ensures r.Err? && r.error.Ambiguous? ==>
      unique && |r.error.candidates| > 1 && found.Some?
      && forall x :: x in r.error.candidates <==> x in found.value && Kept(x, require.AsList(), ignore.AsList())
    ensures unique && r.Ok? ==> r.value.One?
  {
    match found
    case None => Err(NoneNotIterable)
    case Some(cands) =>
      var local := Select(cands, require.AsList(), ignore.AsList());
      if |local| == 1 then
        assert local[0] in local;
        Ok(One(local[0]))
      else if |local| == 0 then
        Err(NoMatch)
      else if unique then
        assert local[0] in local;
        Err(Ambiguous(local))
      else
        assert local[0] in local;
        Ok(Many(local))
  }

  /**
   * `find_unique_variable(pp, variable, require, ignore, unique)`: errors of
   * `get_allvars` pass through, and whatever comes back is among the ppnames
   * `find_variable` reports and passes the filters.
   */
  function FindUniqueVariable(fs: Listings, pp: string, variable: string,
                              require: Strings, ignore: Strings, unique: bool): (r: Result<Strings>)
    ensures VariableLocations(fs, pp, variable).Err? ==> r == Err(VariableLocations(fs, pp, variable).error)
    ensures r.Ok? ==>
      && VariableLocations(fs, pp, variable).Ok?
      && VariableLocations(fs, pp, variable).value.Some?
      && forall x :: x in r.value.AsList() ==>
           x in VariableLocations(fs, pp, variable).value.value && Kept(x, require.AsList(), ignore.AsList())
  {
    match VariableLocations(fs, pp, variable)
    case Err(e) => Err(e)
    case Ok(found) => Unique(found, require, ignore, unique)
  }

  /** A bare string filter acts as the one-element list of it. */
  lemma StringFilterIsSingleton(fs: Listings, pp: string, variable: string,
                                r: string, s: string, unique: bool)
    ensures FindUniqueVariable(fs, pp, variable, One(r), One(s), unique)
         == FindUniqueVariable(fs, pp, variable, Many([r]), Many([s]), unique)
  {
  }

  /** When `find_variable` finds nothing, the comprehension fails before any count is checked. */
  lemma NothingFoundFails(fs: Listings, pp: string, variable: string,
                          require: Strings, ignore: Strings, unique: bool)
    requires VariableLocations(fs, pp, variable) == Ok(None)
    ensures FindUniqueVariable(fs, pp, variable, require, ignore, unique) == Err(NoneNotIterable)
  {
  }

  /**
   * End to end: when exactly one ppname holding the variable passes the filters,
   * it comes back bare, with or without `unique`.
   */
  lemma FindUniqueSingle(fs: Listings, pp: string, variable: string,
                         require: Strings, ignore: Strings, unique: bool, x: string)
    requires VariableLocations(fs, pp, variable).Ok? && VariableLocations(fs, pp, variable).value.Some?
    requires KeptAmong(VariableLocations(fs, pp, variable).value.value, x, require.AsList(), ignore.AsList())
    requires forall y :: KeptAmong(VariableLocations(fs, pp, variable).value.value, y, require.AsList(), ignore.AsList()) ==> y == x
    ensures FindUniqueVariable(fs, pp, variable, require, ignore, unique) == Ok(One(x))
  {
    var found := VariableLocations(fs, pp, variable).value.value;
    VariableLocationsDistinct(fs, pp, variable);
    UniqueSingle(found, require, ignore, unique, x);
  }

  // ---------------------------------------------------------------------------
  // query_is1x1deg

  /** `query_is1x1deg`: the last '_'-separated segment is `1x1deg`. */
  predicate Is1x1Deg(ppname: string)
  {
    Last(Split(ppname, '_')) == "1x1deg"
  }

  /** The test holds exactly for `1x1deg` itself and names ending in `_1x1deg`. */
  lemma Is1x1DegMeaning(ppname: string)
    ensures Is1x1Deg(ppname) <==> ppname == "1x1deg" || EndsWith(ppname, "_1x1deg")
  {
    assert '_' !in "1x1deg";
    LastPieceIs(ppname, '_', "1x1deg");
    assert ['_'] + "1x1deg" == "_1x1deg";
  }
}
