/** What the two reference listings promise: how long they can be, when an
    ellipsis appears, when the input passes through unchanged, and how a
    single run is shown. */
module ListingProperties {
  import opened Grouping
  import opened Output
  import opened ReferenceCompaction

  /** Every line copied bare, in order. */
  function Verbatim(lines: seq<string>): (es: seq<Entry>)
    ensures RenderAll(es) == lines
  {
    seq(|lines|, k requires 0 <= k < |lines| => Plain(lines[k]))
  }

  predicate AllPlain(es: seq<Entry>)
  {
    forall k :: 0 <= k < |es| ==> es[k].Plain?
  }

  predicate SingleLineRuns(rs: seq<seq<string>>)
  {
    forall k :: 0 <= k < |rs| ==> |rs[k]| == 1
  }

  /** Some run has more than two lines. */
  predicate HasLongRun(rs: seq<seq<string>>)
  {
    exists k :: 0 <= k < |rs| && |rs[k]| > 2
  }

  lemma AllPlainSplit(a: seq<Entry>, b: seq<Entry>)
    ensures AllPlain(a + b) <==> AllPlain(a) && AllPlain(b)
  {
    if AllPlain(a + b) {
      forall k | 0 <= k < |a| ensures a[k].Plain? {
        assert (a + b)[k] == a[k];
      }
      forall k | 0 <= k < |b| ensures b[k].Plain? {
        assert (a + b)[|a| + k] == b[k];
      }
    }
  }

  lemma SingleLineRunsSplit(rs: seq<seq<string>>)
    requires rs != []
    ensures SingleLineRuns(rs) <==> SingleLineRuns(DropLast(rs)) && |Last(rs)| == 1
  {
    if SingleLineRuns(DropLast(rs)) && |Last(rs)| == 1 {
      forall k | 0 <= k < |rs| ensures |rs[k]| == 1 {
        if k < |rs| - 1 {
          assert rs[k] == DropLast(rs)[k];
        }
      }
    }
  }

  lemma HasLongRunSplit(rs: seq<seq<string>>)
    requires rs != []
    ensures HasLongRun(rs) <==> HasLongRun(DropLast(rs)) || |Last(rs)| > 2
  {
    var init := DropLast(rs);
    if HasLongRun(rs) {
      var k :| 0 <= k < |rs| && |rs[k]| > 2;
      if k < |init| {
        assert init[k] == rs[k];
      }
    }
    if HasLongRun(init) {
      var k :| 0 <= k < |init| && |init[k]| > 2;
      assert rs[k] == init[k];
    }
  }

  /** A block is bare only for a single line, carries an ellipsis only for
      more than two, and is never longer than its run. */
  lemma BlockShape(count: nat, first: string, last: string)
    requires count >= 1
    ensures AllPlain(Block(count, first, last)) <==> count == 1
    ensures Ellipsis in Block(count, first, last) <==> count > 2
    ensures |Block(count, first, last)| <= count
  {
    var b := Block(count, first, last);
    if count > 1 {
      assert b[0] == Counted(1, first);
      assert b[|b| - 1] == Counted(count, last);
    }
  }

  // ---------------------------------------------------------------------
  // Pass-through

  lemma {:induction false} BlocksOfSingletons(s: seq<string>)
    ensures ExactBlocks(Singletons(s)) == Verbatim(s)
    ensures TypedBlocks(Singletons(s)) == Verbatim(s)
    decreases |s|
  {
    if s != [] {
      BlocksOfSingletons(DropLast(s));
      assert DropLast(Singletons(s)) == Singletons(DropLast(s));
      assert Verbatim(s) == Verbatim(DropLast(s)) + [Plain(Last(s))];
    }
  }

  /** Only runs of one line are listed without a counter. */
  lemma {:induction false} ExactBlocksPlain(rs: seq<seq<string>>)
    requires NonEmptyRuns(rs)
    ensures AllPlain(ExactBlocks(rs)) ==> SingleLineRuns(rs)
    decreases |rs|
  {
    if rs != [] {
      var init, g := DropLast(rs), Last(rs);
      ExactBlocksPlain(init);
      AllPlainSplit(ExactBlocks(init), Block(|g|, g[0], g[0]));
      BlockShape(|g|, g[0], g[0]);
      SingleLineRunsSplit(rs);
    }
  }

  lemma {:induction false} TypedBlocksPlain(rs: seq<seq<string>>)
    requires NonEmptyRuns(rs)
    ensures AllPlain(TypedBlocks(rs)) ==> SingleLineRuns(rs)
    decreases |rs|
  {
    if rs != [] {
      var init, g := DropLast(rs), Last(rs);
      TypedBlocksPlain(init);
      AllPlainSplit(TypedBlocks(init), Block(|g|, g[0], Last(g)));
      BlockShape(|g|, g[0], Last(g));
      SingleLineRunsSplit(rs);
    }
  }

  lemma ExactPassThrough(lines: seq<string>)
    requires lines != [] && lines != [""]
    requires NoAdjacentEquivalent(Exact, lines)
    ensures ExactCompaction(lines) == Verbatim(lines)
  {
    RunsAreSingletonsIff(Exact, lines);
    var init, x := DropLast(lines), Last(lines);
    assert DropLast(Singletons(lines)) == Singletons(init);
    assert Last(Singletons(lines)) == [x];
    BlocksOfSingletons(init);
    assert Verbatim(lines) == Verbatim(init) + [Plain(x)];
  }

  lemma ExactPassThroughOnlyWithoutRepeats(lines: seq<string>)
    requires !IsEmptyInput(lines)
    requires ExactCompaction(lines) == Verbatim(lines)
    ensures NoAdjacentEquivalent(Exact, lines)
  {
    var rs := Runs(Exact, lines);
    RunsArePartition(Exact, lines);
    var init, g := DropLast(rs), Last(rs);
    assert AllPlain(Verbatim(lines));
    AllPlainSplit(ExactBlocks(init), ExactFinal(g));
    ExactBlocksPlain(init);
    SingleLineRunsSplit(rs);
    SingletonRuns(rs);
    RunsAreSingletonsIff(Exact, lines);
  }

  /** `runMatomailWithInput` copies its input unchanged exactly when no line
      repeats the line before it. */
  lemma ExactPassThroughIff(lines: seq<string>)
    requires lines != [""]
    ensures ExactCompaction(lines) == Verbatim(lines) <==> NoAdjacentEquivalent(Exact, lines)
    ensures NoAdjacentEquivalent(Exact, lines) ==> RenderAll(ExactCompaction(lines)) == lines
  {
    if lines != [] {
      if NoAdjacentEquivalent(Exact, lines) {
        ExactPassThrough(lines);
      }
      if ExactCompaction(lines) == Verbatim(lines) {
        ExactPassThroughOnlyWithoutRepeats(lines);
      }
    }
  }

  lemma TypedPassThrough(lines: seq<string>)
    requires lines != [] && lines != [""]
    requires NoAdjacentEquivalent(GetMessageType, lines)
    ensures TypedCompaction(lines) == Verbatim(lines)
  {
    RunsAreSingletonsIff(GetMessageType, lines);
    BlocksOfSingletons(lines);
  }

  lemma TypedPassThroughOnlyWithoutRepeats(lines: seq<string>)
    requires !IsEmptyInput(lines)
    requires TypedCompaction(lines) == Verbatim(lines)
    ensures NoAdjacentEquivalent(GetMessageType, lines)
  {
    var rs := Runs(GetMessageType, lines);
    RunsArePartition(GetMessageType, lines);
    assert AllPlain(Verbatim(lines));
    TypedBlocksPlain(rs);
    SingletonRuns(rs);
    RunsAreSingletonsIff(GetMessageType, lines);
  }

  /** `runMatomailWithInputAndPattern` copies its input unchanged exactly
      when no line has the message type of the line before it. */
  lemma TypedPassThroughIff(lines: seq<string>)
    requires lines != [""]
    ensures TypedCompaction(lines) == Verbatim(lines) <==> NoAdjacentEquivalent(GetMessageType, lines)
    ensures NoAdjacentEquivalent(GetMessageType, lines) ==> RenderAll(TypedCompaction(lines)) == lines
  {
    if lines != [] {
      if NoAdjacentEquivalent(GetMessageType, lines) {
        TypedPassThrough(lines);
      }
      if TypedCompaction(lines) == Verbatim(lines) {
        TypedPassThroughOnlyWithoutRepeats(lines);
      }
    }
  }

  // ---------------------------------------------------------------------
  // Length

  lemma {:induction false} ExactBlocksFit(rs: seq<seq<string>>)
    requires NonEmptyRuns(rs)
    ensures |ExactBlocks(rs)| <= |Flatten(rs)|
    decreases |rs|
  {
    if rs != [] {
      var g := Last(rs);
      ExactBlocksFit(DropLast(rs));
      BlockShape(|g|, g[0], g[0]);
    }
  }

  lemma {:induction false} TypedBlocksFit(rs: seq<seq<string>>)
    requires NonEmptyRuns(rs)
    ensures |TypedBlocks(rs)| <= |Flatten(rs)|
    decreases |rs|
  {
    if rs != [] {
      var g := Last(rs);
      TypedBlocksFit(DropLast(rs));
      BlockShape(|g|, g[0], Last(g));
    }
  }

  /** Neither listing is longer than the input. */
  lemma CompactionFitsInput(lines: seq<string>)
    ensures |ExactCompaction(lines)| <= |lines|
    ensures |TypedCompaction(lines)| <= |lines|
  {
    RunsArePartition(GetMessageType, lines);
    TypedBlocksFit(Runs(GetMessageType, lines));
    if lines != [] {
      var rs := Runs(Exact, lines);
      RunsArePartition(Exact, lines);
      ExactBlocksFit(DropLast(rs));
      assert Flatten(rs) == Flatten(DropLast(rs)) + Last(rs);
    }
  }

  // ---------------------------------------------------------------------
  // Ellipsis

  lemma {:induction false} EllipsisInExactBlocks(rs: seq<seq<string>>)
    requires NonEmptyRuns(rs)
    ensures Ellipsis in ExactBlocks(rs) <==> HasLongRun(rs)
    decreases |rs|
  {
    if rs != [] {
      var g := Last(rs);
      EllipsisInExactBlocks(DropLast(rs));
      HasLongRunSplit(rs);
      BlockShape(|g|, g[0], g[0]);
    }
  }

  lemma {:induction false} EllipsisInTypedBlocks(rs: seq<seq<string>>)
    requires NonEmptyRuns(rs)
    ensures Ellipsis in TypedBlocks(rs) <==> HasLongRun(rs)
    decreases |rs|
  {
    if rs != [] {
      var g := Last(rs);
      EllipsisInTypedBlocks(DropLast(rs));
      HasLongRunSplit(rs);
      BlockShape(|g|, g[0], Last(g));
    }
  }

  /** `runMatomailWithInput` writes an ellipsis exactly when a run of more
      than two equal lines has been closed by a differing line; a run still
      open at end of input never gets one. */
  lemma ExactEllipsisIff(lines: seq<string>)
    ensures Ellipsis in ExactCompaction(lines)
      <==> lines != [] && HasLongRun(DropLast(Runs(Exact, lines)))
  {
    if lines == [""] {
      OpenRunStart(Exact, "");
      assert DropLast([[""]]) == [];
    } else if lines != [] {
      ExactEllipsisInClosedRuns(lines);
    }
  }

  lemma ExactEllipsisInClosedRuns(lines: seq<string>)
    requires !IsEmptyInput(lines)
    ensures Ellipsis in ExactCompaction(lines) <==> HasLongRun(DropLast(Runs(Exact, lines)))
  {
    var rs := Runs(Exact, lines);
    var a, b := ExactBlocks(DropLast(rs)), ExactFinal(Last(rs));
    assert ExactCompaction(lines) == a + b;
    assert Ellipsis !in b;
    EllipsisInExactBlocks(DropLast(rs));
  }

  /** `runMatomailWithInputAndPattern` writes an ellipsis exactly when some
      run of one message type has more than two lines, the last run
      included. */
  lemma TypedEllipsisIff(lines: seq<string>)
    ensures Ellipsis in TypedCompaction(lines) <==> HasLongRun(Runs(GetMessageType, lines))
  {
    var rs := Runs(GetMessageType, lines);
    EllipsisInTypedBlocks(rs);
    if IsEmptyInput(lines) && lines != [] {
      OpenRunStart(GetMessageType, lines[0]);
      assert lines == [lines[0]];
      assert !HasLongRun(rs);
    }
  }

  // ---------------------------------------------------------------------
  // A single run

  lemma ExactBlocksOne(g: seq<string>)
    requires g != []
    ensures ExactBlocks([g]) == Block(|g|, g[0], g[0])
  {
    assert DropLast([g]) == [];
  }

  lemma TypedBlocksOne(g: seq<string>)
    requires g != []
    ensures TypedBlocks([g]) == Block(|g|, g[0], Last(g))
  {
    assert DropLast([g]) == [];
  }

  /** A line repeated `n >= 2` times and left open at end of input is
      listed as `(n) line` alone. */
  lemma ExactOpenRunRendering(xs: seq<string>)
    requires |xs| >= 2 && forall j :: 0 <= j < |xs| ==> xs[j] == xs[0]
    ensures ExactCompaction(xs) == [Counted(|xs|, xs[0])]
  {
    SingleRun(Exact, xs);
    assert DropLast([xs]) == [];
  }

  /** A line repeated `n >= 2` times and then closed by a different line is
      listed as `(1) line`, `...` when `n > 2`, `(n) line`, then the new
      line. */
  lemma ExactClosedRunRendering(xs: seq<string>, y: string)
    requires |xs| >= 2 && forall j :: 0 <= j < |xs| ==> xs[j] == xs[0]
    requires y != xs[0]
    ensures ExactCompaction(xs + [y])
      == [Counted(1, xs[0])] + (if |xs| > 2 then [Ellipsis] else []) + [Counted(|xs|, xs[0]), Plain(y)]
  {
    SingleRunThenLine(Exact, xs, y);
    ExactBlocksOfRun(xs, y);
    assert !IsEmptyInput(xs + [y]);
  }

  lemma ExactBlocksOfRun(xs: seq<string>, y: string)
    requires |xs| >= 2
    ensures ExactBlocks(DropLast([xs, [y]])) + ExactFinal(Last([xs, [y]]))
      == [Counted(1, xs[0])] + (if |xs| > 2 then [Ellipsis] else []) + [Counted(|xs|, xs[0]), Plain(y)]
  {
    assert DropLast([xs, [y]]) == [xs];
    ExactBlocksOne(xs);
  }

  /** A run of `n >= 2` lines of one message type at end of input is listed
      as `(1) first`, `...` when `n > 2`, and `(n) last`. */
  lemma TypedOpenRunRendering(xs: seq<string>)
    requires |xs| >= 2
    requires forall j :: 0 <= j < |xs| ==> GetMessageType(xs[j]) == GetMessageType(xs[0])
    ensures TypedCompaction(xs)
      == [Counted(1, xs[0])] + (if |xs| > 2 then [Ellipsis] else []) + [Counted(|xs|, Last(xs))]
  {
    SingleRun(GetMessageType, xs);
    TypedBlocksOne(xs);
  }

  /** The same run closed by a line of another type: its block, then the
      new line bare. */
  lemma TypedClosedRunRendering(xs: seq<string>, y: string)
    requires |xs| >= 2
    requires forall j :: 0 <= j < |xs| ==> GetMessageType(xs[j]) == GetMessageType(xs[0])
    requires GetMessageType(y) != GetMessageType(xs[0])
    ensures TypedCompaction(xs + [y])
      == [Counted(1, xs[0])] + (if |xs| > 2 then [Ellipsis] else []) + [Counted(|xs|, Last(xs)), Plain(y)]
  {
    SingleRunThenLine(GetMessageType, xs, y);
    TypedBlocksTwo(xs, y);
    assert !IsEmptyInput(xs + [y]);
  }

  lemma TypedBlocksTwo(xs: seq<string>, y: string)
    requires |xs| >= 2
    ensures TypedBlocks([xs, [y]])
      == [Counted(1, xs[0])] + (if |xs| > 2 then [Ellipsis] else []) + [Counted(|xs|, Last(xs)), Plain(y)]
  {
    var rs := [xs, [y]];
    assert DropLast(rs) == [xs] && Last(rs) == [y];
    TypedBlocksOne(xs);
  }
}
