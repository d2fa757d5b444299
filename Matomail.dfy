/** The production run-collapsing loop of `matomail`.

    The loop reads standard input line by line, masks each line (replacing
    every match of the optional `--pattern` regular expression with
    `MASKED`), compares the masked line with the masked form of the run's
    first line, and writes one record `(n) line` for every run once a
    differing line closes it, plus one for the run still open at end of
    input. Input is a finite sequence of lines, output the sequence of
    records written; the regular-expression engine is a parameter. */
module Matomail {
  import opened Grouping
  import opened Output

  /** The optional mask: no pattern, or a compiled pattern given as its
      replace-all operation (matched text of the first argument replaced by
      the second). */
  datatype Pattern = NoPattern | Pattern(replaceAll: (string, string) -> string)

  const Sentinel := "MASKED"

  /** The form of a line that comparisons see: the line itself without a
      pattern, and otherwise the line with every match replaced by the
      sentinel. */
  function Mask(p: Pattern, line: string): string
  {
    match p
    case NoPattern => line
    case Pattern(replaceAll) => replaceAll(line, Sentinel)
  }

  function MaskFn(p: Pattern): string -> string
  {
    line => Mask(p, line)
  }

  /** Without a pattern two lines are equivalent exactly when they are equal. */
  lemma EquivalenceIsExactWithoutPattern(a: string, b: string)
    ensures Mask(NoPattern, a) == Mask(NoPattern, b) <==> a == b
  {
  }

  /** Whatever the pattern does, a line is equivalent to itself: a line read
      twice in a row is one record with count 2. */
  lemma RepeatedLineIsOneRecord(p: Pattern, a: string)
    ensures CollapsedOutput(p, [a, a]) == [Counted(2, a)]
  {
    SingleRun(MaskFn(p), [a, a]);
  }

  /** One record per run, counting the run and showing its first line. */
  function RunCounts(rs: seq<seq<string>>): seq<Entry>
    requires NonEmptyRuns(rs)
  {
    seq(|rs|, k requires 0 <= k < |rs| => Counted(|rs[k]|, rs[k][0]))
  }

  /** What the loop writes for the whole input. */
  function CollapsedOutput(p: Pattern, lines: seq<string>): seq<Entry>
  {
    RunCounts(Runs(MaskFn(p), lines))
  }

  /** What the loop has written after reading `lines` and before end of
      input: one record per run already closed by a differing line. */
  function WrittenSoFar(p: Pattern, lines: seq<string>): seq<Entry>
  {
    if lines == [] then [] else RunCounts(DropLast(Runs(MaskFn(p), lines)))
  }

  lemma RunCountsAppend(rs: seq<seq<string>>, g: seq<string>)
    requires NonEmptyRuns(rs) && g != []
    ensures NonEmptyRuns(rs + [g])
    ensures RunCounts(rs + [g]) == RunCounts(rs) + [Counted(|g|, g[0])]
  {
    var lhs, rhs := RunCounts(rs + [g]), RunCounts(rs) + [Counted(|g|, g[0])];
    forall k | 0 <= k < |lhs| ensures lhs[k] == rhs[k] {
      if k < |rs| {
        assert (rs + [g])[k] == rs[k];
      }
    }
  }

  /** One step of the loop: an equivalent line lengthens the open run and
      writes nothing; a differing line writes the open run and opens a new
      one. */
  lemma CollapseStep(p: Pattern, s: seq<string>, x: string, prevLine: string, count: int)
    requires OpenRun(MaskFn(p), s, prevLine, count)
    ensures count >= 1
    ensures Mask(p, x) == Mask(p, prevLine) ==>
      OpenRun(MaskFn(p), s + [x], prevLine, count + 1) && WrittenSoFar(p, s + [x]) == WrittenSoFar(p, s)
    ensures Mask(p, x) != Mask(p, prevLine) ==>
      OpenRun(MaskFn(p), s + [x], x, 1) && WrittenSoFar(p, s + [x]) == WrittenSoFar(p, s) + [Counted(count, prevLine)]
  {
    OpenRunStep(MaskFn(p), s, x, prevLine, count);
    WriteOnlyOnChange(p, s, x);
  }

  /** At end of input the open run is flushed after the closed ones. */
  lemma CollapseFlush(p: Pattern, s: seq<string>, prevLine: string, count: int)
    requires OpenRun(MaskFn(p), s, prevLine, count)
    ensures count >= 1
    ensures CollapsedOutput(p, s) == WrittenSoFar(p, s) + [Counted(count, prevLine)]
  {
    var rs := Runs(MaskFn(p), s);
    RunCountsAppend(DropLast(rs), Last(rs));
    assert DropLast(rs) + [Last(rs)] == rs;
  }

  /** The loop of `main`: state `prevLine`, `maskedPrevLine`, `count` and
      `isFirstLine`, a write when the masked line changes, and a flush of the
      last run at end of input. */
  method Collapse(lines: seq<string>, p: Pattern) returns (out: seq<Entry>)
    ensures out == CollapsedOutput(p, lines)
  {
    var prevLine := "";
    var maskedPrevLine := "";
    var count := 0;
    var isFirstLine := true;
    out := [];
    var i := 0;
    while i < |lines|
      invariant 0 <= i <= |lines|
      invariant isFirstLine <==> i == 0
      invariant out == WrittenSoFar(p, lines[..i])
      invariant !isFirstLine ==> OpenRun(MaskFn(p), lines[..i], prevLine, count) && maskedPrevLine == Mask(p, prevLine)
    {
      var currentLine := lines[i];
      var maskedCurrentLine := currentLine;
      if p.Pattern? {
        maskedCurrentLine := p.replaceAll(currentLine, Sentinel);
      }
      assert maskedCurrentLine == Mask(p, currentLine);
      assert lines[..i + 1] == lines[..i] + [currentLine];
      if isFirstLine {
        OpenRunStart(MaskFn(p), currentLine);
        assert lines[..i + 1] == [currentLine];
      } else {
        CollapseStep(p, lines[..i], currentLine, prevLine, count);
      }
      if maskedCurrentLine == maskedPrevLine && !isFirstLine {
        count := count + 1;
      } else {
        if !isFirstLine {
          if count > 0 {
            out := out + [Counted(count, prevLine)];
          } else {
            out := out + [Plain(prevLine)];
          }
        }
        prevLine := currentLine;
        maskedPrevLine := maskedCurrentLine;
        count := 1;
        isFirstLine := false;
      }
      i := i + 1;
    }
    assert lines[..i] == lines;
    if !isFirstLine {
      CollapseFlush(p, lines, prevLine, count);
      if count > 0 {
        out := out + [Counted(count, prevLine)];
      } else {
        out := out + [Plain(prevLine)];
      }
    }
  }

  lemma {:induction false} TotalOfRunCounts(rs: seq<seq<string>>)
    requires NonEmptyRuns(rs)
    ensures TotalRepresented(RunCounts(rs)) == |Flatten(rs)|
    decreases |rs|
  {
    if rs != [] {
      var closed := DropLast(rs);
      assert rs == closed + [Last(rs)];
      TotalOfRunCounts(closed);
      RunCountsAppend(closed, Last(rs));
      assert DropLast(RunCounts(rs)) == RunCounts(closed);
    }
  }

  /** The shape of the production output: nothing for empty input; exactly
      one counted record per maximal run, in input order, showing the run's
      first (unmasked) line and its length; never a bare line and never an
      ellipsis; counts that add up to the number of input lines; and adjacent
      records whose lines are not equivalent. */
  lemma CollapsedOutputDescribesRuns(p: Pattern, lines: seq<string>)
    ensures var out, rs := CollapsedOutput(p, lines), Runs(MaskFn(p), lines);
      && IsRunPartition(MaskFn(p), lines, rs)
      && (out == [] <==> lines == [])
      && |out| == |rs|
      && (forall k :: 0 <= k < |out| ==> out[k] == Counted(|rs[k]|, rs[k][0]) && out[k].n >= 1)
      && TotalRepresented(out) == |lines|
      && (forall k :: 0 < k < |out| ==> Mask(p, out[k - 1].text) != Mask(p, out[k].text))
  {
    var rs := Runs(MaskFn(p), lines);
    var out := RunCounts(rs);
    assert CollapsedOutput(p, lines) == out;
    RunsArePartition(MaskFn(p), lines);
    TotalOfRunCounts(rs);
    assert |Flatten(rs)| == |lines|;
    AdjacentRecordsDiffer(p, lines, rs);
  }

  /** Adjacent records of a maximal partition start with lines of
      different masks. */
  lemma AdjacentRecordsDiffer(p: Pattern, lines: seq<string>, rs: seq<seq<string>>)
    requires IsRunPartition(MaskFn(p), lines, rs)
    ensures forall k :: 0 < k < |rs| ==> Mask(p, RunCounts(rs)[k - 1].text) != Mask(p, RunCounts(rs)[k].text)
  {
    forall k | 0 < k < |rs|
      ensures Mask(p, RunCounts(rs)[k - 1].text) != Mask(p, RunCounts(rs)[k].text)
    {
      assert MaskFn(p)(rs[k - 1][0]) != MaskFn(p)(rs[k][0]);
    }
  }

  /** Every record is counted: the bare-line branch of the loop is never
      taken, because `count` is at least 1 whenever a run is open. */
  lemma NoBareRecords(p: Pattern, lines: seq<string>)
    ensures forall e :: e in CollapsedOutput(p, lines) ==> e.Counted? && e.n >= 1
  {
  }

  /** Without a pattern, one record per line exactly when no line repeats
      the one before it; each record is then `(1) line`. */
  lemma OneRecordPerLineIff(lines: seq<string>)
    ensures CollapsedOutput(NoPattern, lines) == seq(|lines|, k requires 0 <= k < |lines| => Counted(1, lines[k]))
        <==> forall i :: 0 < i < |lines| ==> lines[i - 1] != lines[i]
  {
    var key := MaskFn(NoPattern);
    RunsAreSingletonsIff(key, lines);
    CountsAreOnesIff(Runs(key, lines), lines);
    assert NoAdjacentEquivalent(key, lines) <==> forall i :: 0 < i < |lines| ==> lines[i - 1] != lines[i];
  }

  /** The records of some runs are `(1) line` for each line exactly when
      the runs are the lines one by one. */
  lemma CountsAreOnesIff(rs: seq<seq<string>>, lines: seq<string>)
    requires NonEmptyRuns(rs)
    ensures RunCounts(rs) == seq(|lines|, k requires 0 <= k < |lines| => Counted(1, lines[k]))
        <==> rs == Singletons(lines)
  {
    var ones := seq(|lines|, k requires 0 <= k < |lines| => Counted(1, lines[k]));
    if RunCounts(rs) == ones {
      forall k | 0 <= k < |rs| ensures rs[k] == Singletons(lines)[k] {
        assert RunCounts(rs)[k] == ones[k];
        assert |rs[k]| == 1 && rs[k][0] == lines[k];
      }
    }
  }

  /** A record, once written, is never retracted: what has been written
      after reading `s` is a prefix of what is written after reading more,
      and of the final output. A run is written only when it is closed. */
  lemma WrittenRecordsAreFinal(p: Pattern, s: seq<string>, t: seq<string>)
    ensures WrittenSoFar(p, s) <= WrittenSoFar(p, s + t)
    ensures WrittenSoFar(p, s) <= CollapsedOutput(p, s + t)
  {
    if s != [] {
      var key := MaskFn(p);
      RunsGrowAtTheEnd(key, s, t);
      var rs, rt := Runs(key, s), Runs(key, s + t);
      assert |rs| - 1 <= |rt| - 1;
    }
  }

  /** Reading one more line writes nothing while the run grows, and writes
      exactly the closed run when the line differs from it. */
  lemma WriteOnlyOnChange(p: Pattern, s: seq<string>, x: string)
    requires s != []
    ensures var open := Last(Runs(MaskFn(p), s));
      && (Mask(p, x) == Mask(p, open[0]) ==> WrittenSoFar(p, s + [x]) == WrittenSoFar(p, s))
      && (Mask(p, x) != Mask(p, open[0]) ==>
            WrittenSoFar(p, s + [x]) == WrittenSoFar(p, s) + [Counted(|open|, open[0])])
  {
    var key := MaskFn(p);
    var rs := Runs(key, s);
    assert DropLast(s + [x]) == s;
    if Mask(p, x) != Mask(p, Last(rs)[0]) {
      RunCountsAppend(DropLast(rs), Last(rs));
      assert DropLast(rs) + [Last(rs)] == rs;
      assert DropLast(rs + [[x]]) == rs;
    } else {
      assert DropLast(DropLast(rs) + [Last(rs) + [x]]) == DropLast(rs);
    }
  }
}
