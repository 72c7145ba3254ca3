/**
 * The tape-archive helpers of gfdl_utils/core.py: the `dmget` and `dmls -l` command
 * lines, the parsing of `dmls -l` output into a residency map (`query_ondisk`) and
 * the all-on-disk test over several outputs (`query_all_ondisk`). Running the
 * commands is not modelled: their output text is an input.
 */
module Archive {
  import opened PyStrings
  import opened Outcomes

  /** `issue_dmget`'s command: `dmget <paths joined by spaces> &`. */
  function DmgetCommand(path: PathArg): (r: Result<string>)
    ensures r.Err? <==> path.OtherType?
  {
    match path
    case List(ps) => Ok("dmget " + Join(ps, ' ') + " &")
    case Str(p) => Ok("dmget " + p + " &")
    case OtherType => Err(Unbound("cmd"))
  }

  /** `query_ondisk`'s command. */
  function DmlsCommand(path: string): string
  {
    "dmls -l " + path
  }

  /** Split on single spaces, the command lines give back their words: the paths, in order. */
  lemma DmgetCommandWords(ps: seq<string>)
    requires |ps| > 0
    requires forall i :: 0 <= i < |ps| ==> ' ' !in ps[i]
    ensures DmgetCommand(List(ps)).Ok?
    ensures Split(DmgetCommand(List(ps)).value, ' ') == ["dmget"] + ps + ["&"]
  {
    var j := Join(ps, ' ');
    var tail := j + [' '] + "&";
    assert DmgetCommand(List(ps)).value == "dmget" + [' '] + tail;
    assert Split(tail, ' ') == ps + ["&"] by {
      SplitJoin(ps, ' ');
      SplitNoSeparator("&", ' ');
      SplitAround(j, "&", ' ');
    }
    SplitCons("dmget", tail, ' ');
  }

  /** A single path and the one-element list of it give the same command. */
  lemma DmgetStrIsSingleton(p: string)
    ensures DmgetCommand(Str(p)) == DmgetCommand(List([p]))
  {
  }

  lemma DmlsCommandWords(path: string)
    requires ' ' !in path
    ensures Split(DmlsCommand(path), ' ') == ["dmls", "-l", path]
  {
    var tail := "-l" + [' '] + path;
    assert DmlsCommand(path) == "dmls" + [' '] + tail;
    assert Split(tail, ' ') == ["-l", path] by {
      SplitNoSeparator(path, ' ');
      SplitCons("-l", path, ' ');
    }
    SplitCons("dmls", tail, ' ');
  }

  // ---------------------------------------------------------------------------
  // parsing `dmls -l` output

  /** The key of an output line: its last single-space-separated token. */
  function Key(line: string): string
  {
    Last(Split(line, ' '))
  }

  /** A line says the file is on disk when it carries `(REG)` or `(DUL)`. */
  predicate Resident(line: string)
  {
    Contains(line, "(REG)") || Contains(line, "(DUL)")
  }

  /** The lines the loop visits: the split on newlines without its final segment. */
  function ExaminedLines(output: string): seq<string>
  {
    var ls := Split(output, '\n');
    ls[..|ls| - 1]
  }

  /** The dictionary the loop builds from `lines`, each line assigning its key in turn. */
  function ParseLines(lines: seq<string>): map<string, bool>
  {
    if |lines| == 0 then map[]
    else
      var line := lines[|lines| - 1];
      ParseLines(lines[..|lines| - 1])[Key(line) := Resident(line)]
  }

  function ResidencyMap(output: string): map<string, bool>
  {
    ParseLines(ExaminedLines(output))
  }

  /** Line `i` is the last line of `lines` with its key. */
  predicate LastWithKey(lines: seq<string>, i: int)
  {
    0 <= i < |lines| && forall j :: i < j < |lines| ==> Key(lines[j]) != Key(lines[i])
  }

  /** `query_ondisk(path)` on the given command output. */
  method QueryOnDisk(output: string) returns (ondisk: map<string, bool>)
    ensures ondisk == ResidencyMap(output)
  {
    var outputs := Split(output, '\n');
    ondisk := map[];
    var i := 0;
    while i < |outputs| - 1
      invariant 0 <= i <= |outputs| - 1
      invariant ondisk == ParseLines(outputs[..i])
    {
      var line := outputs[i];
      var words := Split(line, ' ');
      if Contains(line, "(REG)") || Contains(line, "(DUL)") {
        ondisk := ondisk[words[|words| - 1] := true];
      } else {
        ondisk := ondisk[words[|words| - 1] := false];
      }
      assert outputs[..i + 1][..i] == outputs[..i];
      i := i + 1;
    }
    assert outputs[..i] == ExaminedLines(output);
  }

  /** The residency map has a key for every examined line's last token, and no other. */
  lemma {:induction false} ParseLinesKeys(lines: seq<string>)
    ensures forall k :: k in ParseLines(lines) <==> exists i :: 0 <= i < |lines| && Key(lines[i]) == k
    decreases |lines|
  {
    if |lines| > 0 {
      var n := |lines| - 1;
      var prev := lines[..n];
      ParseLinesKeys(prev);
      forall k | k in ParseLines(lines)
        ensures exists i :: 0 <= i < |lines| && Key(lines[i]) == k
      {
        if k != Key(lines[n]) {
          assert k in ParseLines(prev);
          var i :| 0 <= i < n && Key(prev[i]) == k;
          assert Key(lines[i]) == k;
        }
      }
      forall k | exists i :: 0 <= i < |lines| && Key(lines[i]) == k
        ensures k in ParseLines(lines)
      {
        var i :| 0 <= i < |lines| && Key(lines[i]) == k;
        if i < n {
          assert Key(prev[i]) == k;
        }
      }
    }
  }

  /** For a repeated key the last line wins. */
  lemma {:induction false} ParseLinesLastWins(lines: seq<string>)
    ensures forall i :: LastWithKey(lines, i) ==>
              Key(lines[i]) in ParseLines(lines) && ParseLines(lines)[Key(lines[i])] == Resident(lines[i])
    decreases |lines|
  {
    if |lines| > 0 {
      var n := |lines| - 1;
      var prev := lines[..n];
      ParseLinesLastWins(prev);
      forall i | LastWithKey(lines, i)
        ensures Key(lines[i]) in ParseLines(lines) && ParseLines(lines)[Key(lines[i])] == Resident(lines[i])
      {
        if i < n {
          assert prev[i] == lines[i];
          assert LastWithKey(prev, i);
        }
      }
    }
  }

  /** Every key of the map comes from a line that is the last with that key. */
  lemma {:induction false} ParseLinesKeyHasLast(lines: seq<string>)
    ensures forall k :: k in ParseLines(lines) ==> exists i :: LastWithKey(lines, i) && Key(lines[i]) == k
    decreases |lines|
  {
    if |lines| > 0 {
      var n := |lines| - 1;
      var prev := lines[..n];
      ParseLinesKeyHasLast(prev);
      forall k | k in ParseLines(lines)
        ensures exists i :: LastWithKey(lines, i) && Key(lines[i]) == k
      {
        if k == Key(lines[n]) {
          assert LastWithKey(lines, n);
        } else {
          assert k in ParseLines(prev);
          var i :| LastWithKey(prev, i) && Key(prev[i]) == k;
          assert prev[i] == lines[i];
          forall j | i < j < |lines|
            ensures Key(lines[j]) != Key(lines[i])
          {
            if j < n {
              assert prev[j] == lines[j];
            }
          }
          assert LastWithKey(lines, i);
        }
      }
    }
  }

  /** Only text before the final newline is read: whatever follows it changes nothing. */
  lemma TailNeverExamined(text: string, tail: string)
    requires '\n' !in tail
    ensures ExaminedLines(text + "\n" + tail) == Split(text, '\n')
    ensures ResidencyMap(text + "\n" + tail) == ParseLines(Split(text, '\n'))
  {
    SplitAround(text, tail, '\n');
    SplitNoSeparator(tail, '\n');
    var ls := Split(text, '\n') + [tail];
    assert ls[..|ls| - 1] == Split(text, '\n');
  }

  /** Output without a newline, the empty output among it, gives an empty map. */
  lemma NoNewlineNoEntries(text: string)
    requires '\n' !in text
    ensures ResidencyMap(text) == map[]
  {
    SplitNoSeparator(text, '\n');
  }

  // ---------------------------------------------------------------------------
  // query_all_ondisk

  /** Python's `all(d.values())`. */
  predicate AllValuesTrue(m: map<string, bool>)
  {
    false !in m.Values
  }

  /** `query_all_ondisk`: every value of every path's residency map is true. */
  function QueryAllOnDisk(outputs: seq<string>): (r: bool)
    ensures r <==> forall i, k :: 0 <= i < |outputs| && k in ResidencyMap(outputs[i]) ==> ResidencyMap(outputs[i])[k]
  {
    if |outputs| == 0 then true
    else
      var m := ResidencyMap(outputs[0]);
      assert AllValuesTrue(m) <==> forall k :: k in m ==> m[k] by {
        if !AllValuesTrue(m) {
          var k :| k in m && m[k] == false;
        }
      }
      var rest := QueryAllOnDisk(outputs[1..]);
      assert forall i :: 1 <= i < |outputs| ==> outputs[1..][i - 1] == outputs[i];
      AllValuesTrue(m) && rest
  }

  /** Every line of `lines` that is the last with its key carries `(REG)` or `(DUL)`. */
  predicate LinesOnDisk(lines: seq<string>)
  {
    forall j :: 0 <= j < |lines| && LastWithKey(lines, j) ==> Resident(lines[j])
  }

  /**
   * In terms of the output lines: all paths are on disk exactly when, in every
   * output, every examined line that is the last with its key is resident.
   */
  lemma AllOnDiskByLines(outputs: seq<string>)
    ensures QueryAllOnDisk(outputs) <==> forall i :: 0 <= i < |outputs| ==> LinesOnDisk(ExaminedLines(outputs[i]))
  {
    forall i | 0 <= i < |outputs|
      ensures (forall k :: k in ResidencyMap(outputs[i]) ==> ResidencyMap(outputs[i])[k])
          <==> LinesOnDisk(ExaminedLines(outputs[i]))
    {
      assert ResidencyMap(outputs[i]) == ParseLines(ExaminedLines(outputs[i]));
      AllTrueByLines(ExaminedLines(outputs[i]));
    }
  }

  /** One map is all true exactly when every line that is the last with its key is resident. */
  lemma AllTrueByLines(lines: seq<string>)
    ensures LinesOnDisk(lines) ==> forall k :: k in ParseLines(lines) ==> ParseLines(lines)[k]
    ensures (forall k :: k in ParseLines(lines) ==> ParseLines(lines)[k]) ==> LinesOnDisk(lines)
  {
    var m := ParseLines(lines);
    ParseLinesLastWins(lines);
    ParseLinesKeyHasLast(lines);
    if LinesOnDisk(lines) {
      forall k | k in m
        ensures m[k]
      {
        var j :| LastWithKey(lines, j) && Key(lines[j]) == k;
        assert Resident(lines[j]);
      }
    } else {
      var j :| 0 <= j < |lines| && LastWithKey(lines, j) && !Resident(lines[j]);
      var k := Key(lines[j]);
      assert k in m && !m[k];
      assert !(forall k' :: k' in ParseLines(lines) ==> ParseLines(lines)[k']);
    }
  }

  /** A path whose output names no file counts as on disk. */
  lemma EmptyOutputCountsAsOnDisk(outputs: seq<string>, i: int)
    requires 0 <= i < |outputs|
    requires QueryAllOnDisk(outputs[..i] + outputs[i + 1..])
    requires '\n' !in outputs[i]
    ensures QueryAllOnDisk(outputs)
  {
    NoNewlineNoEntries(outputs[i]);
    var others := outputs[..i] + outputs[i + 1..];
    forall j, k | 0 <= j < |outputs| && k in ResidencyMap(outputs[j])
      ensures ResidencyMap(outputs[j])[k]
    {
      if j < i {
        assert others[j] == outputs[j];
      } else if j > i {
        assert others[j - 1] == outputs[j];
      }
    }
  }
}
