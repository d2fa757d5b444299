/** The reference compaction helpers of the test suite.

    `runMatomailWithInput` and `runMatomailWithInputAndPattern` split their
    input into lines and build the expected listing in a slice: a line that
    does not repeat its predecessor is copied verbatim, and a run of two or
    more is shown as `(1) first`, then `...` when the run has more than two
    lines, then `(count) line`. The first helper compares lines exactly; the
    second compares their message types (the text after the second space).
    Both take the input already split into lines. */
module ReferenceCompaction {
  import opened Grouping
  import opened Output

  datatype Option<T> = None | Some(value: T)

  /** Exact comparison: the key of a line is the line. This is `main`'s key
      without a pattern, stated here as a named function so that the test
      helpers do not depend on the production loop;
      `Grouping.RunsDependOnlyOnEquivalence` carries results between the
      two. */
  function Exact(line: string): string
  {
    line
  }

  /** The split of an empty input string: one empty line. Both helpers
      return an empty listing for it. */
  predicate IsEmptyInput(lines: seq<string>)
  {
    |lines| == 0 || (|lines| == 1 && lines[0] == "")
  }

  /** The listing of one run of `count` lines closed by a differing line:
      a single line stays bare; a longer run becomes `(1) first`, an ellipsis
      if it has more than two lines, and `(count) last`. */
  function Block(count: nat, first: string, last: string): (es: seq<Entry>)
    requires count >= 1
    ensures |es| == (if count <= 2 then count else 3)
    ensures count == 1 ==> es == [Plain(first)]
    ensures count >= 2 ==> es[0] == Counted(1, first) && es[|es| - 1] == Counted(count, last)
  {
    if count == 1 then [Plain(first)]
    else [Counted(1, first)] + (if count > 2 then [Ellipsis] else []) + [Counted(count, last)]
  }

  /** The rewrite both helpers apply to a run of `count >= 2` lines whose
      first line is the last entry of `result`: that entry becomes
      `(1) first`, an ellipsis follows when the run has more than two lines,
      and then `(count) last`. */
  method ShowRun(result: seq<Entry>, count: int, first: string, last: string) returns (r: seq<Entry>)
    requires result != [] && count >= 2
    ensures r == DropLast(result) + Block(count, first, last)
  {
    r := result[|result| - 1 := Counted(1, first)];
    if count > 2 {
      r := r + [Ellipsis];
    }
    r := r + [Counted(count, last)];
  }

  // ---------------------------------------------------------------------
  // runMatomailWithInput

  /** Closed runs under exact comparison, each shown with its own line. */
  function ExactBlocks(rs: seq<seq<string>>): seq<Entry>
    requires NonEmptyRuns(rs)
  {
    if rs == [] then [] else ExactBlocks(DropLast(rs)) + Block(|Last(rs)|, Last(rs)[0], Last(rs)[0])
  }

  /** The run still open at end of input: its entry is replaced by
      `(count) line` when it repeated, and stays bare otherwise. */
  function ExactFinal(g: seq<string>): seq<Entry>
    requires g != []
  {
    if |g| == 1 then [Plain(g[0])] else [Counted(|g|, g[0])]
  }

  /** The listing `runMatomailWithInput` returns, one entry per output line:
      the closed runs as blocks, then the run open at end of input, which is
      only ever bare or `(n) line`. */
  function ExactCompaction(lines: seq<string>): (es: seq<Entry>)
    ensures es == [] <==> IsEmptyInput(lines)
  {
    if IsEmptyInput(lines) then []
    else
      var rs := Runs(Exact, lines);
      ExactBlocks(DropLast(rs)) + ExactFinal(Last(rs))
  }

  /** The state of `runMatomailWithInput` after reading `s`: the listing of
      the closed runs and the lines of the open run. */
  function ExactScan(s: seq<string>): (st: (seq<Entry>, seq<string>))
    requires s != []
    ensures st.1 != []
  {
    if |s| == 1 then ([], s)
    else
      var (closed, run) := ExactScan(DropLast(s));
      var x := Last(s);
      if x == run[0] then (closed, run + [x])
      else (closed + Block(|run|, run[0], run[0]), [x])
  }

  /** The scan keeps, as closed listing, the blocks of all runs but the last,
      and as open run the last run. */
  lemma {:induction false} ExactScanFollowsRuns(s: seq<string>)
    requires s != []
    ensures ExactScan(s) == (ExactBlocks(DropLast(Runs(Exact, s))), Last(Runs(Exact, s)))
    decreases |s|
  {
    if |s| == 1 {
      assert s == [s[0]];
      OpenRunStart(Exact, s[0]);
    } else {
      var p, x := DropLast(s), Last(s);
      assert s == p + [x];
      ExactScanFollowsRuns(p);
      var rs := Runs(Exact, p);
      OpenRunStep(Exact, p, x, Last(rs)[0], |Last(rs)|);
    }
  }

  /** The index loop of `runMatomailWithInput`, building `result` in place:
      `result` holds the listing of the closed runs followed by the open
      run's first line, which is overwritten when the run closes or reaches
      the end of input. */
  method RunWithInput(lines: seq<string>) returns (result: seq<Entry>)
    ensures result == ExactCompaction(lines)
  {
    if |lines| == 0 || (|lines| == 1 && lines[0] == "") {
      return [];
    }
    var prevLine := lines[0];
    result := [Plain(prevLine)];
    var count := 1;
    assert lines[..1] == [prevLine];
    ghost var closed: seq<Entry> := [];
    ghost var run := [prevLine];
    var i := 1;
    while i < |lines|
      invariant 1 <= i <= |lines|
      invariant (closed, run) == ExactScan(lines[..i])
      invariant prevLine == run[0] && count == |run|
      invariant i < |lines| ==> result == closed + [Plain(prevLine)]
      invariant i == |lines| ==> result == closed + ExactFinal(run)
    {
      assert DropLast(lines[..i + 1]) == lines[..i];
      if lines[i] == prevLine {
        count := count + 1;
        if i == |lines| - 1 {
          result := result[|result| - 1 := Counted(count, prevLine)];
        }
        run := run + [lines[i]];
      } else {
        if count > 1 {
          result := ShowRun(result, count, prevLine, prevLine);
        }
        closed := closed + Block(|run|, prevLine, prevLine);
        result := result + [Plain(lines[i])];
        prevLine := lines[i];
        count := 1;
        run := [lines[i]];
      }
      i := i + 1;
    }
    assert lines[..i] == lines;
    ExactScanFollowsRuns(lines);
  }

  // ---------------------------------------------------------------------
  // getMessageType

  /** The text after the first space of `s`, if `s` has a space. */
  function AfterSpace(s: string): (r: Option<string>)
  {
    if s == [] then None
    else if s[0] == ' ' then Some(s[1..])
    else AfterSpace(s[1..])
  }

  /** `strings.SplitN(line, " ", 3)` keeps everything after the second space
      as its third part; a line with fewer than two spaces is its own type. */
  function GetMessageType(line: string): (t: string)
    ensures |t| <= |line|
    ensures t != line ==> |t| <= |line| - 2
  {
    AfterSpaceIsTail(line);
    match AfterSpace(line)
    case None => line
    case Some(afterFirst) =>
      AfterSpaceIsTail(afterFirst);
      match AfterSpace(afterFirst)
      case None => line
      case Some(afterSecond) => afterSecond
  }

  /** The message type is what remains of the line once its first words are
      dropped. */
  lemma MessageTypeIsTail(line: string)
    ensures IsTail(GetMessageType(line), line)
  {
    AfterSpaceIsTail(line);
    match AfterSpace(line)
    case None =>
    case Some(afterFirst) =>
      AfterSpaceIsTail(afterFirst);
      match AfterSpace(afterFirst)
      case None =>
      case Some(afterSecond) =>
        assert line[|line| - |afterFirst|..][|afterFirst| - |afterSecond|..] == line[|line| - |afterSecond|..];
  }

  /** `t` is what remains of `s` after dropping some of its first characters. */
  predicate IsTail(t: string, s: string)
  {
    |t| <= |s| && s[|s| - |t|..] == t
  }

  /** The text after the first space is a strictly shorter tail of the line. */
  lemma AfterSpaceIsTail(s: string)
    ensures AfterSpace(s).Some? ==> |AfterSpace(s).value| < |s| && AfterSpace(s).value == s[|s| - |AfterSpace(s).value|..]
  {
    AfterSpaceIsSuffix(s);
  }

  lemma {:induction false} AfterSpaceSkipsWord(a: string, rest: string)
    requires ' ' !in a
    ensures AfterSpace(a + " " + rest) == Some(rest)
    decreases |a|
  {
    if a == [] {
      assert a + " " + rest == [' '] + rest;
    } else {
      assert (a + " " + rest)[1..] == a[1..] + " " + rest;
      AfterSpaceSkipsWord(a[1..], rest);
    }
  }

  lemma {:induction false} AfterSpaceNone(s: string)
    ensures AfterSpace(s) == None <==> ' ' !in s
    decreases |s|
  {
    if s != [] {
      AfterSpaceNone(s[1..]);
      assert s == [s[0]] + s[1..];
    }
  }

  lemma {:induction false} AfterSpaceIsSuffix(s: string)
    ensures AfterSpace(s).Some? ==> exists k :: 0 <= k < |s| && s[k] == ' ' && ' ' !in s[..k] && AfterSpace(s).value == s[k + 1..]
    decreases |s|
  {
    if s != [] && s[0] != ' ' {
      AfterSpaceIsSuffix(s[1..]);
      if AfterSpace(s).Some? {
        var k :| 0 <= k < |s[1..]| && s[1..][k] == ' ' && ' ' !in s[1..][..k] && AfterSpace(s[1..]).value == s[1..][k + 1..];
        assert s[..k + 1] == [s[0]] + s[1..][..k];
        assert s[k + 2..] == s[1..][k + 1..];
      }
    } else if s != [] {
      assert s[..0] == [];
    }
  }

  /** The type of a line with two spaces is what follows the second one. */
  lemma MessageTypeAfterSecondSpace(a: string, b: string, rest: string)
    requires ' ' !in a && ' ' !in b
    ensures GetMessageType(a + " " + b + " " + rest) == rest
  {
    AfterSpaceSkipsWord(a, b + " " + rest);
    assert a + " " + b + " " + rest == a + " " + (b + " " + rest);
    AfterSpaceSkipsWord(b, rest);
  }

  /** A line with fewer than two spaces is its own message type. */
  lemma MessageTypeWithoutTwoSpaces(line: string)
    requires forall i, j :: 0 <= i < j < |line| ==> !(line[i] == ' ' && line[j] == ' ')
    ensures GetMessageType(line) == line
  {
    AfterSpaceIsSuffix(line);
    if AfterSpace(line).Some? {
      var k :| 0 <= k < |line| && line[k] == ' ' && ' ' !in line[..k] && AfterSpace(line).value == line[k + 1..];
      var r := line[k + 1..];
      assert ' ' !in r by {
        forall j | 0 <= j < |r| ensures r[j] != ' ' {
          assert r[j] == line[k + 1 + j];
        }
      }
      AfterSpaceNone(r);
    }
  }

  // ---------------------------------------------------------------------
  // runMatomailWithInputAndPattern

  /** Runs by message type, each shown with its first and last line. */
  function TypedBlocks(rs: seq<seq<string>>): seq<Entry>
    requires NonEmptyRuns(rs)
  {
    if rs == [] then [] else TypedBlocks(DropLast(rs)) + Block(|Last(rs)|, Last(rs)[0], Last(Last(rs)))
  }

  /** The listing `runMatomailWithInputAndPattern` returns: the run open at
      end of input is shown like a closed one. */
  function TypedCompaction(lines: seq<string>): (es: seq<Entry>)
    ensures es == [] <==> IsEmptyInput(lines)
  {
    if IsEmptyInput(lines) then [] else TypedBlocks(Runs(GetMessageType, lines))
  }

  /** The state of `runMatomailWithInputAndPattern` after reading `s`: the
      listing of the closed runs and the open run (`sameTypeLines`). */
  function TypedScan(s: seq<string>): (st: (seq<Entry>, seq<string>))
    requires s != []
    ensures st.1 != []
  {
    if |s| == 1 then ([], s)
    else
      var (closed, run) := TypedScan(DropLast(s));
      var x := Last(s);
      if GetMessageType(x) == GetMessageType(run[0]) then (closed, run + [x])
      else (closed + Block(|run|, run[0], Last(run)), [x])
  }

  lemma {:induction false} TypedScanFollowsRuns(s: seq<string>)
    requires s != []
    ensures TypedScan(s) == (TypedBlocks(DropLast(Runs(GetMessageType, s))), Last(Runs(GetMessageType, s)))
    decreases |s|
  {
    if |s| == 1 {
      assert s == [s[0]];
      OpenRunStart(GetMessageType, s[0]);
    } else {
      var p, x := DropLast(s), Last(s);
      assert s == p + [x];
      TypedScanFollowsRuns(p);
      var rs := Runs(GetMessageType, p);
      OpenRunStep(GetMessageType, p, x, Last(rs)[0], |Last(rs)|);
    }
  }

  /** How the open run stands in the listing: bare while more lines may
      follow, as a block once the input has ended. */
  function Shown(run: seq<string>, done: bool): seq<Entry>
    requires run != []
  {
    if done then Block(|run|, run[0], Last(run)) else [Plain(run[0])]
  }

  /** A line of the open run's type: the listing is unchanged while input
      remains, and shows the longer run once the input has ended. */
  lemma ShownGrows(closed: seq<Entry>, run: seq<string>, x: string, done: bool)
    requires run != []
    ensures !done ==> closed + Shown(run, false) == closed + Shown(run + [x], done)
    ensures done ==> DropLast(closed + Shown(run, false)) + Block(|run| + 1, run[0], x)
                     == closed + Shown(run + [x], done)
  {
    assert DropLast(closed + Shown(run, false)) == closed;
  }

  /** A line of another type: the open run is shown as a block and the new
      line follows it bare. */
  lemma ShownCloses(closed: seq<Entry>, run: seq<string>, x: string, done: bool)
    requires run != []
    ensures |run| == 1 ==> closed + Shown(run, false) + [Plain(x)]
                           == (closed + Block(|run|, run[0], Last(run))) + Shown([x], done)
    ensures |run| > 1 ==> DropLast(closed + Shown(run, false)) + Block(|run|, run[0], Last(run)) + [Plain(x)]
                          == (closed + Block(|run|, run[0], Last(run))) + Shown([x], done)
  {
    assert DropLast(closed + Shown(run, false)) == closed;
  }

  lemma TypedScanStep(s: seq<string>, x: string)
    requires s != []
    ensures var (closed, run) := TypedScan(s);
      TypedScan(s + [x]) ==
        if GetMessageType(x) == GetMessageType(run[0]) then (closed, run + [x])
        else (closed + Block(|run|, run[0], Last(run)), [x])
  {
    assert DropLast(s + [x]) == s;
  }

  /** The index loop of `runMatomailWithInputAndPattern`, with the buffer
      `sameTypeLines` holding the current run. Its pattern argument is never
      read, so it is not a parameter here. */
  method RunWithInputAndPattern(lines: seq<string>) returns (result: seq<Entry>)
    ensures result == TypedCompaction(lines)
  {
    if |lines| == 0 || (|lines| == 1 && lines[0] == "") {
      return [];
    }
    var prevLine := lines[0];
    var prevType := GetMessageType(prevLine);
    result := [Plain(prevLine)];
    var count := 1;
    var sameTypeLines := [prevLine];
    assert lines[..1] == [prevLine];
    ghost var closed: seq<Entry> := [];
    var i := 1;
    while i < |lines|
      invariant 1 <= i <= |lines|
      invariant (closed, sameTypeLines) == TypedScan(lines[..i])
      invariant prevLine == sameTypeLines[0] && prevType == GetMessageType(prevLine)
      invariant count == |sameTypeLines|
      invariant result == closed + Shown(sameTypeLines, i == |lines|)
    {
      var currentLine := lines[i];
      var currentType := GetMessageType(currentLine);
      assert lines[..i + 1] == lines[..i] + [currentLine];
      TypedScanStep(lines[..i], currentLine);
      if currentType == prevType {
        ShownGrows(closed, sameTypeLines, currentLine, i == |lines| - 1);
        count := count + 1;
        sameTypeLines := sameTypeLines + [currentLine];
        if i == |lines| - 1 {
          result := ShowRun(result, count, sameTypeLines[0], currentLine);
        }
      } else {
        ShownCloses(closed, sameTypeLines, currentLine, i == |lines| - 1);
        if count > 1 {
          result := ShowRun(result, count, sameTypeLines[0], sameTypeLines[|sameTypeLines| - 1]);
        }
        closed := closed + Block(count, prevLine, Last(sameTypeLines));
        result := result + [Plain(currentLine)];
        prevLine := currentLine;
        prevType := currentType;
        count := 1;
        sameTypeLines := [currentLine];
      }
      i := i + 1;
    }
    assert lines[..i] == lines;
    TypedCompactionFromScan(lines);
  }

  /** The listing is the scan's closed blocks followed by the final run's
      block. */
  lemma TypedCompactionFromScan(lines: seq<string>)
    requires !IsEmptyInput(lines)
    ensures TypedCompaction(lines) == TypedScan(lines).0 + Shown(TypedScan(lines).1, true)
  {
    TypedScanFollowsRuns(lines);
    var rs := Runs(GetMessageType, lines);
    assert rs == DropLast(rs) + [Last(rs)];
  }
}
