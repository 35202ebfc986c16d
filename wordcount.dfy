/**
 * The duplicate-line counter: every file named on the command line is
 * split on "\n", the occurrences of every line are counted over all the
 * files, and the lines seen more than once are reported with their count.
 *
 * A file is given by its contents, or None when reading it fails.
 */
module WordCount {
  import opened GoBase
  import opened GoStrings

  /** The occurrences of every line, counted in the order the lines come (`counts[line]++`). */
  function Tally(ls: seq<string>): map<string, nat> {
    if ls == [] then map[]
    else
      var t := Tally(ls[..|ls| - 1]);
      var x := ls[|ls| - 1];
      t[x := (if x in t then t[x] else 0) + 1]
  }

  /** Tally counts every line that occurs, and only those, by its number of occurrences. */
  lemma {:induction false} TallyCounts(ls: seq<string>, l: string)
    ensures l in Tally(ls) <==> l in ls
    ensures l in Tally(ls) ==> Tally(ls)[l] == Count(ls, l)
  {
    if ls != [] {
      var front := ls[..|ls| - 1];
      TallyCounts(front, l);
      assert ls == front + [ls[|ls| - 1]];
      if l !in front {
        CountAbsent(front, l);
      }
    }
  }

  /** The lines of the files, file after file, or Panic when a file cannot be read. */
  function Lines(files: seq<Option<string>>): Outcome<seq<string>> {
    if files == [] then Ok([])
    else
      match Lines(files[..|files| - 1])
      case Panic => Panic
      case Ok(ls) =>
        var f := files[|files| - 1];
        if f.None? then Panic else Ok(ls + Split(f.value, '\n'))
  }

  /** What the counting loops leave in `counts`, or the panic of a failed read. */
  function Counts(files: seq<Option<string>>): Outcome<map<string, nat>> {
    match Lines(files)
    case Panic => Panic
    case Ok(ls) => Ok(Tally(ls))
  }

  lemma TallySnoc(ls: seq<string>, x: string)
    ensures Tally(ls + [x]) == Tally(ls)[x := (if x in Tally(ls) then Tally(ls)[x] else 0) + 1]
  {
    assert (ls + [x])[..|ls + [x]| - 1] == ls;
  }

  /** The inner loop: one file's lines counted on top of `counts`. */
  method CountFile(counts0: map<string, nat>, ghost seen: seq<string>, lines: seq<string>) returns (counts: map<string, nat>)
    requires counts0 == Tally(seen)
    ensures counts == Tally(seen + lines)
  {
    counts := counts0;
    assert seen + lines[..0] == seen;
    for j := 0 to |lines|
      invariant counts == Tally(seen + lines[..j])
    {
      var line := lines[j];
      TallySnoc(seen + lines[..j], line);
      assert seen + lines[..j + 1] == seen + lines[..j] + [line];
      counts := counts[line := (if line in counts then counts[line] else 0) + 1];
    }
    assert lines[..|lines|] == lines;
  }

  /** The counting loops of `main`, proved against Counts. */
  method CountLines(files: seq<Option<string>>) returns (r: Outcome<map<string, nat>>)
    ensures r == Counts(files)
  {
    var counts: map<string, nat> := map[];
    ghost var seen: seq<string> := [];
    for i := 0 to |files|
      invariant Lines(files[..i]) == Ok(seen) && counts == Tally(seen)
    {
      assert files[..i + 1][..i] == files[..i];
      var data := files[i];
      if data.None? {
        assert files[..i + 1][i] == data;
        PanicStays(files, i + 1);
        return Panic;
      }
      var lines := Split(data.value, '\n');
      counts := CountFile(counts, seen, lines);
      seen := seen + lines;
    }
    assert files[..|files|] == files;
    return Ok(counts);
  }

  /** Once a file cannot be read, the whole run panics. */
  lemma {:induction false} PanicStays(files: seq<Option<string>>, i: nat)
    requires i <= |files| && Lines(files[..i]).Panic?
    ensures Lines(files).Panic?
    decreases |files| - i
  {
    if i < |files| {
      assert files[..i + 1][..i] == files[..i];
      PanicStays(files, i + 1);
    } else {
      assert files[..i] == files;
    }
  }

  /** The run panics exactly when some file cannot be read. */
  lemma {:induction false} PanicIffUnreadable(files: seq<Option<string>>)
    ensures Lines(files).Panic? <==> exists i :: 0 <= i < |files| && files[i].None?
  {
    if files != [] {
      var front := files[..|files| - 1];
      PanicIffUnreadable(front);
      if Lines(front).Panic? {
        var i :| 0 <= i < |front| && front[i].None?;
        assert files[i].None?;
      } else if files[|files| - 1].Some? {
        forall i | 0 <= i < |files| - 1 ensures files[i].Some? {
          assert files[i] == front[i];
        }
      }
    }
  }

  /** The number of lines of the readable files: one more than the newlines of each. */
  function LineTotal(files: seq<Option<string>>): nat {
    if files == [] then 0
    else
      var f := files[|files| - 1];
      LineTotal(files[..|files| - 1]) + (if f.Some? then Count(f.value, '\n') + 1 else 0)
  }

  /** A file with k newlines contributes k + 1 lines. */
  lemma {:induction false} LinesNumber(files: seq<Option<string>>)
    requires Lines(files).Ok?
    ensures |Lines(files).value| == LineTotal(files)
  {
    if files != [] {
      LinesNumber(files[..|files| - 1]);
      SplitLength(files[|files| - 1].value, '\n');
    }
  }

  /** A trailing newline ends the file with an empty line. */
  lemma {:induction false} TrailingNewline(s: string)
    requires |s| > 0 && s[|s| - 1] == '\n'
    ensures Split(s, '\n')[|Split(s, '\n')| - 1] == ""
  {
    var rest := Split(s[1..], '\n');
    if |s| > 1 {
      TrailingNewline(s[1..]);
      if s[0] != '\n' {
        SplitLength(s[1..], '\n');
        assert s[1..] == s[1..][..|s| - 2] + [s[|s| - 1]];
        CountAppend(s[1..][..|s| - 2], [s[|s| - 1]], '\n');
        assert Count([s[|s| - 1]], '\n') == 1 by {
          assert [s[|s| - 1]][..0] == [];
        }
      }
    }
  }

  /** The report: the lines seen more than once, with their counts; the printing order is Go's map order. */
  function Repeated(counts: map<string, nat>): map<string, nat> {
    map l | l in counts && counts[l] > 1 :: counts[l]
  }

  /** A line is reported exactly when it occurs more than once over all files, with its number of occurrences. */
  lemma ReportedIff(files: seq<Option<string>>, l: string)
    requires Lines(files).Ok?
    ensures l in Repeated(Counts(files).value) <==> Count(Lines(files).value, l) > 1
    ensures l in Repeated(Counts(files).value) ==> Repeated(Counts(files).value)[l] == Count(Lines(files).value, l)
  {
    TallyCounts(Lines(files).value, l);
    if l !in Lines(files).value {
      CountAbsent(Lines(files).value, l);
    }
  }

  lemma {:induction false} CountAbsent(ls: seq<string>, l: string)
    requires l !in ls
    ensures Count(ls, l) == 0
  {
    if ls != [] {
      CountAbsent(ls[..|ls| - 1], l);
    }
  }
}
