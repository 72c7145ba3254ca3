/**
 * Python's string operations as the utility module uses them: `s.split(c)` and
 * `c.join(parts)` for a one-character separator, the substring test `sub in s`,
 * `s.endswith(suf)` and `s.replace("//", "/")`.
 */
module PyStrings {

  /** `s.split(c)`: the pieces between occurrences of `c`; never empty, "" gives [""]. */
  function Split(s: string, c: char): (r: seq<string>)
    ensures |r| >= 1
    decreases |s|
  {
    if |s| == 0 then [""]
    else
      var rest := Split(s[1..], c);
      if s[0] == c then [""] + rest
      else [[s[0]] + rest[0]] + rest[1..]
  }

  /** `c.join(parts)`: the parts with one `c` between neighbours. */
  function Join(parts: seq<string>, c: char): string
  {
    if |parts| == 0 then ""
    else if |parts| == 1 then parts[0]
    else parts[0] + [c] + Join(parts[1..], c)
  }

  /** `s[-1]` of a non-empty list. */
  function Last(parts: seq<string>): string
    requires |parts| > 0
  {
    parts[|parts| - 1]
  }

  predicate StartsWith(s: string, pre: string)
  {
    |pre| <= |s| && s[..|pre|] == pre
  }

  /** `s.endswith(suf)`. */
  predicate EndsWith(s: string, suf: string)
  {
    |suf| <= |s| && s[|s| - |suf|..] == suf
  }

  /** `sub` occurs in `s` starting at index `i`. */
  predicate OccursAt(s: string, sub: string, i: int)
  {
    0 <= i <= |s| - |sub| && s[i..i + |sub|] == sub
  }

  /** `sub in s`: `sub` occurs somewhere in `s` (the empty string occurs everywhere). */
  predicate Contains(s: string, sub: string)
    decreases |s|
  {
    StartsWith(s, sub) || (|s| > 0 && Contains(s[1..], sub))
  }

  /** `s.replace("//", "/")`: scans left to right and replaces non-overlapping pairs. */
  function CollapseSlashes(s: string): string
    decreases |s|
  {
    if |s| < 2 then s
    else if s[0] == '/' && s[1] == '/' then "/" + CollapseSlashes(s[2..])
    else [s[0]] + CollapseSlashes(s[1..])
  }

  /** The characters of `s` other than `c`, in order. */
  function Without(s: string, c: char): string
  {
    if |s| == 0 then "" else (if s[0] == c then "" else [s[0]]) + Without(s[1..], c)
  }

  // ---------------------------------------------------------------------------
  // split / join

  lemma {:induction false} SplitPiecesFree(s: string, c: char)
    ensures forall i :: 0 <= i < |Split(s, c)| ==> c !in Split(s, c)[i]
    decreases |s|
  {
    if |s| > 0 {
      SplitPiecesFree(s[1..], c);
    }
  }

  /** Joining the pieces of a split gives back the string. */
  lemma {:induction false} JoinSplit(s: string, c: char)
    ensures Join(Split(s, c), c) == s
    decreases |s|
  {
    if |s| > 0 {
      var rest := Split(s[1..], c);
      JoinSplit(s[1..], c);
      if s[0] == c {
        if |rest| == 1 {
          assert Join([""] + rest, c) == "" + [c] + rest[0];
        } else {
          assert ([""] + rest)[1..] == rest;
        }
      } else {
        var r := [[s[0]] + rest[0]] + rest[1..];
        if |rest| == 1 {
          assert r == [[s[0]] + rest[0]];
        } else {
          assert r[1..] == rest[1..];
          assert Join(rest, c) == rest[0] + [c] + Join(rest[1..], c);
        }
      }
    }
  }

  lemma SplitNoSeparator(s: string, c: char)
    requires c !in s
    ensures Split(s, c) == [s]
    decreases |s|
  {
    if |s| > 0 {
      SplitNoSeparator(s[1..], c);
      assert [s[0]] + s[1..] == s;
    }
  }

  /** A split of a concatenation around one separator is the two splits side by side. */
  lemma {:induction false} SplitAround(a: string, b: string, c: char)
    ensures Split(a + [c] + b, c) == Split(a, c) + Split(b, c)
    decreases |a|
  {
    var s := a + [c] + b;
    if |a| == 0 {
      assert s[0] == c && s[1..] == b;
    } else {
      var rest := Split(a[1..], c);
      var tail := Split(b, c);
      assert s[0] == a[0] && s[1..] == a[1..] + [c] + b;
      SplitAround(a[1..], b, c);
      if a[0] != c {
        GrowFirst(a[0], rest, tail);
      }
    }
  }

  /** Extending the first piece commutes with appending further pieces. */
  lemma GrowFirst(x: char, rest: seq<string>, tail: seq<string>)
    requires |rest| > 0
    ensures [[x] + (rest + tail)[0]] + (rest + tail)[1..] == ([[x] + rest[0]] + rest[1..]) + tail
  {
    assert (rest + tail)[1..] == rest[1..] + tail;
  }

  /** A separator-free first word splits off on its own. */
  lemma SplitCons(w: string, rest: string, c: char)
    requires c !in w
    ensures Split(w + [c] + rest, c) == [w] + Split(rest, c)
  {
    SplitAround(w, rest, c);
    SplitNoSeparator(w, c);
  }

  /** Splitting a join of separator-free parts gives back the parts. */
  lemma {:induction false} SplitJoin(parts: seq<string>, c: char)
    requires |parts| > 0
    requires forall i :: 0 <= i < |parts| ==> c !in parts[i]
    ensures Split(Join(parts, c), c) == parts
    decreases |parts|
  {
    if |parts| == 1 {
      SplitNoSeparator(parts[0], c);
    } else {
      SplitJoin(parts[1..], c);
      SplitAround(parts[0], Join(parts[1..], c), c);
      SplitNoSeparator(parts[0], c);
      assert [parts[0]] + parts[1..] == parts;
    }
  }

  /** The last piece of a split is what follows the last separator, or the whole string. */
  lemma LastPiece(s: string, c: char)
    ensures c !in Last(Split(s, c))
    ensures s == Last(Split(s, c))
            || exists pre :: s == pre + [c] + Last(Split(s, c))
  {
    var parts := Split(s, c);
    SplitPiecesFree(s, c);
    JoinSplit(s, c);
    if |parts| > 1 {
      JoinSnoc(parts, c);
    }
  }

  lemma JoinCons(a: string, rest: seq<string>, c: char)
    requires |rest| > 0
    ensures Join([a] + rest, c) == a + [c] + Join(rest, c)
  {
    assert ([a] + rest)[1..] == rest;
  }

  lemma {:induction false} JoinSnoc(parts: seq<string>, c: char)
    requires |parts| > 1
    ensures Join(parts, c) == Join(parts[..|parts| - 1], c) + [c] + parts[|parts| - 1]
    decreases |parts|
  {
    if |parts| > 2 {
      JoinSnoc(parts[1..], c);
      assert parts[1..][..|parts| - 2] == parts[..|parts| - 1][1..];
    }
  }

  /** The last piece of a split equals a separator-free `t` exactly when `s` is `t` or ends with `c` then `t`. */
  lemma LastPieceIs(s: string, c: char, t: string)
    requires c !in t
    ensures Last(Split(s, c)) == t <==> s == t || EndsWith(s, [c] + t)
  {
    assert Last(Split(s, c)) == t && s != t ==> EndsWith(s, [c] + t) by {
      if Last(Split(s, c)) == t && s != t {
        LastPiece(s, c);
        var pre :| s == pre + [c] + t;
        assert s[|s| - |[c] + t|..] == [c] + t;
      }
    }
    assert s == t ==> Last(Split(s, c)) == t by {
      if s == t {
        SplitNoSeparator(s, c);
      }
    }
    assert EndsWith(s, [c] + t) ==> Last(Split(s, c)) == t by {
      if EndsWith(s, [c] + t) {
        var pre := s[..|s| - |[c] + t|];
        assert s == pre + [c] + t;
        LastPieceOf(pre, c, t);
      }
    }
  }

  lemma LastPieceOf(pre: string, c: char, t: string)
    requires c !in t
    ensures Last(Split(pre + [c] + t, c)) == t
  {
    SplitAround(pre, t, c);
    SplitNoSeparator(t, c);
  }

  // ---------------------------------------------------------------------------
  // substrings

  /** `Contains` is the substring relation: some window of `s` equals `sub`. */
  lemma {:induction false} ContainsAt(s: string, sub: string)
    ensures Contains(s, sub) <==> exists i :: OccursAt(s, sub, i)
    decreases |s|
  {
    if StartsWith(s, sub) {
      assert OccursAt(s, sub, 0);
    }
    if |s| > 0 {
      ContainsAt(s[1..], sub);
      if Contains(s[1..], sub) {
        var i :| OccursAt(s[1..], sub, i);
        assert s[1..][i..i + |sub|] == s[i + 1..i + 1 + |sub|];
        assert OccursAt(s, sub, i + 1);
      }
      if exists i :: OccursAt(s, sub, i) {
        var i :| OccursAt(s, sub, i);
        if i > 0 {
          assert s[1..][i - 1..i - 1 + |sub|] == s[i..i + |sub|];
          assert OccursAt(s[1..], sub, i - 1);
        }
      }
    } else if exists i :: OccursAt(s, sub, i) {
      var i :| OccursAt(s, sub, i);
      assert |sub| == 0;
    }
  }

  /** An occurrence of a non-empty `sub` puts its first character in `s`. */
  lemma {:induction false} ContainsFirstChar(s: string, sub: string)
    requires |sub| > 0
    ensures Contains(s, sub) ==> sub[0] in s
    decreases |s|
  {
    if |s| > 0 && !StartsWith(s, sub) {
      ContainsFirstChar(s[1..], sub);
    }
  }

  lemma ContainsTail(s: string, sub: string, k: nat)
    requires k <= |s|
    requires Contains(s[k..], sub)
    ensures Contains(s, sub)
    decreases k
  {
    if k > 0 {
      assert s[1..][k - 1..] == s[k..];
      ContainsTail(s[1..], sub, k - 1);
    }
  }

  // ---------------------------------------------------------------------------
  // replace("//", "/")

  /** The collapse never lengthens a string and leaves the non-slash characters as they were. */
  lemma {:induction false} CollapseKeepsNonSlashes(s: string)
    ensures |CollapseSlashes(s)| <= |s|
    ensures Without(CollapseSlashes(s), '/') == Without(s, '/')
    decreases |s|
  {
    if |s| >= 2 {
      if s[0] == '/' && s[1] == '/' {
        CollapseKeepsNonSlashes(s[2..]);
        assert ("/" + CollapseSlashes(s[2..]))[1..] == CollapseSlashes(s[2..]);
        assert s[1..][1..] == s[2..];
      } else {
        CollapseKeepsNonSlashes(s[1..]);
        assert ([s[0]] + CollapseSlashes(s[1..]))[1..] == CollapseSlashes(s[1..]);
      }
    }
  }

  /** A string with no "//" is left alone. */
  lemma {:induction false} CollapseIdentity(s: string)
    requires !Contains(s, "//")
    ensures CollapseSlashes(s) == s
    decreases |s|
  {
    if |s| >= 2 {
      assert !StartsWith(s, "//");
      CollapseIdentity(s[1..]);
      assert [s[0]] + s[1..] == s;
    }
  }

  /** The collapsed string starts with a slash exactly when the original does. */
  lemma {:induction false} CollapseLeadingSlash(s: string)
    ensures |CollapseSlashes(s)| > 0 <==> |s| > 0
    ensures |s| > 0 ==> CollapseSlashes(s)[0] == s[0]
    decreases |s|
  {
    if |s| >= 2 {
      if s[0] == '/' && s[1] == '/' {
        CollapseLeadingSlash(s[2..]);
      } else {
        CollapseLeadingSlash(s[1..]);
      }
    }
  }

  lemma StartsWithDoubleSlash(x: string)
    ensures StartsWith(x, "//") <==> |x| >= 2 && x[0] == '/' && x[1] == '/'
  {
    if |x| >= 2 && x[0] == '/' && x[1] == '/' {
      assert x[..2] == "//";
    }
  }

  /** Without a run of three slashes in the input no "//" remains after the collapse. */
  lemma {:induction false} CollapseNoDouble(s: string)
    requires !Contains(s, "///")
    ensures !Contains(CollapseSlashes(s), "//")
    decreases |s|
  {
    if |s| >= 2 {
      if s[0] == '/' && s[1] == '/' {
        var rest := s[2..];
        var c := CollapseSlashes(rest);
        assert !Contains(rest, "///") by {
          if Contains(rest, "///") { ContainsTail(s, "///", 2); }
        }
        CollapseNoDouble(rest);
        CollapseLeadingSlash(rest);
        assert |s| >= 3 ==> s[..3] == [s[0], s[1], s[2]];
        assert ("/" + c)[1..] == c;
        assert !StartsWith("/" + c, "//");
      } else {
        var rest := s[1..];
        var c := CollapseSlashes(rest);
        CollapseNoDouble(rest);
        CollapseLeadingSlash(rest);
        assert ([s[0]] + c)[1..] == c;
        assert |rest| > 0 ==> c[0] == s[1];
        assert |c| > 0 ==> ([s[0]] + c)[1] == c[0];
        StartsWithDoubleSlash([s[0]] + c);
      }
    }
  }

  /** The collapse works piecewise when no "//" straddles the boundary. */
  lemma {:induction false} CollapseConcat(x: string, y: string)
    requires |x| == 0 || |y| == 0 || x[|x| - 1] != '/' || y[0] != '/'
    ensures CollapseSlashes(x + y) == CollapseSlashes(x) + CollapseSlashes(y)
    decreases |x|
  {
    var s := x + y;
    if |x| == 0 {
      assert s == y;
    } else if |y| == 0 {
      assert s == x;
    } else if s[0] == '/' && s[1] == '/' {
      assert |x| >= 2;
      assert s[2..] == x[2..] + y;
      CollapseConcat(x[2..], y);
    } else {
      assert s[1..] == x[1..] + y;
      CollapseConcat(x[1..], y);
      if |x| == 1 {
        assert x[1..] == "";
      }
    }
  }

  /** A run of exactly three slashes becomes two: Python keeps the third one. */
  lemma CollapseTriple(x: string, y: string)
    requires |x| == 0 || x[|x| - 1] != '/'
    requires |y| == 0 || y[0] != '/'
    ensures CollapseSlashes(x + "///" + y) == CollapseSlashes(x) + "//" + CollapseSlashes(y)
  {
    calc {
      CollapseSlashes(x + "///" + y);
    == { assert x + "///" + y == x + ("///" + y); }
      CollapseSlashes(x + ("///" + y));
    == { CollapseConcat(x, "///" + y); }
      CollapseSlashes(x) + CollapseSlashes("///" + y);
    == { var t := "///" + y;
         assert t[..2] == "//" && t[3..] == y;
         CollapseTripleHead(t); }
      CollapseSlashes(x) + ("//" + CollapseSlashes(y));
    }
  }

  /** A string opening with exactly three slashes keeps two of them. */
  lemma CollapseTripleHead(t: string)
    requires |t| >= 3 && t[0] == '/' && t[1] == '/' && t[2] == '/'
    requires |t| == 3 || t[3] != '/'
    ensures CollapseSlashes(t) == t[..2] + CollapseSlashes(t[3..])
  {
    CollapsePair(t);
    var u := t[2..];
    if |u| > 1 {
      assert u[0] == '/' && u[1] != '/';
      assert u[1..] == t[3..];
    }
  }

  lemma CollapsePair(v: string)
    requires |v| >= 2 && v[0] == '/' && v[1] == '/'
    ensures CollapseSlashes(v) == "/" + CollapseSlashes(v[2..])
  {
  }

  /** Python keeps the third slash of a run of three. */
  lemma TripleSlashSurvives()
    ensures CollapseSlashes("///") == "//"
    ensures Contains(CollapseSlashes("a///b"), "//")
  {
    assert CollapseSlashes("/") == "/";
    var t := "a///b";
    assert CollapseSlashes(t) == "a" + CollapseSlashes(t[1..]);
    assert t[1..] == "///b";
    assert CollapseSlashes("///b") == "/" + CollapseSlashes("/b");
    assert "///b"[2..] == "/b";
    assert CollapseSlashes("/b") == "/b";
    assert CollapseSlashes(t) == "a//b";
    assert "a//b"[1..][..2] == "//";
    assert StartsWith("a//b"[1..], "//");
  }
}
