/** Maximal runs of consecutive equivalent lines.

    Both the production loop and the reference compaction helpers read their
    input once, left to right, and cut it into runs: a line joins the current
    run when its key equals the key of the run's first line, and otherwise it
    opens a new run. `Runs` is that cut, written the way the loops compute it
    (one line at a time, at the end); `IsRunPartition` is an independent,
    declarative description of maximal runs, and the lemmas below show the two
    agree and that the description determines the runs uniquely. */
module Grouping {

  function Last<T>(s: seq<T>): T
    requires s != []
  {
    s[|s| - 1]
  }

  function DropLast<T>(s: seq<T>): seq<T>
    requires s != []
  {
    s[..|s| - 1]
  }

  /** The concatenation of a sequence of runs. */
  function Flatten<T>(rs: seq<seq<T>>): seq<T>
  {
    if rs == [] then [] else Flatten(DropLast(rs)) + Last(rs)
  }

  predicate NonEmptyRuns(rs: seq<seq<string>>)
  {
    forall i :: 0 <= i < |rs| ==> rs[i] != []
  }

  /** The runs of `s` under `key`, computed one line at a time. */
  function Runs(key: string -> string, s: seq<string>): (rs: seq<seq<string>>)
    ensures NonEmptyRuns(rs)
    ensures |rs| <= |s|
    ensures rs == [] <==> s == []
    decreases |s|
  {
    if s == [] then []
    else
      var prior := Runs(key, DropLast(s));
      var x := Last(s);
      if prior != [] && key(Last(prior)[0]) == key(x) then
        DropLast(prior) + [Last(prior) + [x]]
      else
        prior + [[x]]
  }

  /** `rs` cuts `s` into maximal runs: non-empty pieces that concatenate to
      `s`, every line of a piece has the key of the piece's first line, and
      neighbouring pieces have different keys. */
  predicate IsRunPartition(key: string -> string, s: seq<string>, rs: seq<seq<string>>)
  {
    && NonEmptyRuns(rs)
    && Flatten(rs) == s
    && (forall i, j :: 0 <= i < |rs| && 0 <= j < |rs[i]| ==> key(rs[i][j]) == key(rs[i][0]))
    && (forall i :: 0 < i < |rs| ==> key(rs[i - 1][0]) != key(rs[i][0]))
  }

  /** No two adjacent lines of `s` have the same key. */
  predicate NoAdjacentEquivalent(key: string -> string, s: seq<string>)
  {
    forall i :: 0 < i < |s| ==> key(s[i - 1]) != key(s[i])
  }

  /** Every line of `s` on its own. */
  function Singletons(s: seq<string>): seq<seq<string>>
  {
    seq(|s|, k requires 0 <= k < |s| => [s[k]])
  }

  lemma FlattenAppend<T>(rs: seq<seq<T>>, g: seq<T>)
    ensures Flatten(rs + [g]) == Flatten(rs) + g
  {
    assert DropLast(rs + [g]) == rs;
  }

  lemma {:induction false} FlattenEmpty(rs: seq<seq<string>>)
    requires NonEmptyRuns(rs)
    ensures Flatten(rs) == [] <==> rs == []
  {
    if rs != [] {
      assert Last(rs) != [];
    }
  }

  /** A line with the key of the last run extends that run. */
  lemma PartitionExtendLast(key: string -> string, p: seq<string>, rs: seq<seq<string>>, x: string)
    requires IsRunPartition(key, p, rs) && rs != [] && key(Last(rs)[0]) == key(x)
    ensures IsRunPartition(key, p + [x], DropLast(rs) + [Last(rs) + [x]])
  {
    var closed, open := DropLast(rs), Last(rs);
    var rx := closed + [open + [x]];
    assert NonEmptyRuns(rx) by {
      forall i | 0 <= i < |rx| ensures rx[i] != [] {
        if i < |closed| {
          assert rx[i] == rs[i];
        }
      }
    }
    assert Flatten(rx) == p + [x] by {
      assert rs == closed + [open];
      FlattenAppend(closed, open);
      FlattenAppend(closed, open + [x]);
    }
    assert forall i, j :: 0 <= i < |rx| && 0 <= j < |rx[i]| ==> key(rx[i][j]) == key(rx[i][0]) by {
      forall i, j | 0 <= i < |rx| && 0 <= j < |rx[i]|
        ensures key(rx[i][j]) == key(rx[i][0])
      {
        if i < |closed| {
          assert rx[i] == rs[i];
        } else if j < |open| {
          assert rx[i][j] == rs[i][j] && rx[i][0] == rs[i][0];
        }
      }
    }
    assert forall i :: 0 < i < |rx| ==> key(rx[i - 1][0]) != key(rx[i][0]) by {
      forall i | 0 < i < |rx|
        ensures key(rx[i - 1][0]) != key(rx[i][0])
      {
        assert rx[i - 1][0] == rs[i - 1][0] && rx[i][0] == rs[i][0];
      }
    }
  }

  /** A line whose key differs from the last run's opens a run of its own. */
  lemma PartitionNewRun(key: string -> string, p: seq<string>, rs: seq<seq<string>>, x: string)
    requires IsRunPartition(key, p, rs) && (rs != [] ==> key(Last(rs)[0]) != key(x))
    ensures IsRunPartition(key, p + [x], rs + [[x]])
  {
    var rx := rs + [[x]];
    assert NonEmptyRuns(rx) by {
      forall i | 0 <= i < |rx| ensures rx[i] != [] {
        if i < |rs| {
          assert rx[i] == rs[i];
        }
      }
    }
    assert Flatten(rx) == p + [x] by {
      FlattenAppend(rs, [x]);
    }
    assert forall i, j :: 0 <= i < |rx| && 0 <= j < |rx[i]| ==> key(rx[i][j]) == key(rx[i][0]) by {
      forall i, j | 0 <= i < |rx| && 0 <= j < |rx[i]|
        ensures key(rx[i][j]) == key(rx[i][0])
      {
        if i < |rs| {
          assert rx[i] == rs[i];
        }
      }
    }
    assert forall i :: 0 < i < |rx| ==> key(rx[i - 1][0]) != key(rx[i][0]) by {
      forall i | 0 < i < |rx|
        ensures key(rx[i - 1][0]) != key(rx[i][0])
      {
        assert rx[i - 1] == rs[i - 1];
        if i < |rs| {
          assert rx[i] == rs[i];
        }
      }
    }
  }

  /** What `Runs` computes is a cut into maximal runs. */
  lemma {:induction false} RunsArePartition(key: string -> string, s: seq<string>)
    ensures IsRunPartition(key, s, Runs(key, s))
    decreases |s|
  {
    if s != [] {
      var p, x := DropLast(s), Last(s);
      assert s == p + [x];
      RunsArePartition(key, p);
      RunsStep(key, p, x);
      var prior := Runs(key, p);
      if prior != [] && key(Last(prior)[0]) == key(x) {
        PartitionExtendLast(key, p, prior, x);
      } else {
        PartitionNewRun(key, p, prior, x);
      }
    }
  }

  /** Maximal runs are unique: any cut that satisfies `IsRunPartition` is the
      one `Runs` computes. */
  lemma {:induction false} RunsUnique(key: string -> string, s: seq<string>, rs: seq<seq<string>>)
    requires IsRunPartition(key, s, rs)
    ensures rs == Runs(key, s)
    decreases |s|, 1
  {
    FlattenEmpty(rs);
    if s != [] {
      if |Last(rs)| == 1 {
        UniqueEndingInNewRun(key, s, rs);
      } else {
        UniqueEndingInLongerRun(key, s, rs);
      }
    }
  }

  lemma {:induction false} UniqueEndingInNewRun(key: string -> string, s: seq<string>, rs: seq<seq<string>>)
    requires IsRunPartition(key, s, rs) && s != [] && rs != [] && |Last(rs)| == 1
    ensures rs == Runs(key, s)
    decreases |s|, 0
  {
    var closed, p, x := DropLast(rs), DropLast(s), Last(s);
    PartitionDropRun(key, s, rs);
    RunsUnique(key, p, closed);
    RunsStepNew(key, p, x);
    assert s == p + [x];
    assert rs == closed + [[x]];
  }

  lemma {:induction false} UniqueEndingInLongerRun(key: string -> string, s: seq<string>, rs: seq<seq<string>>)
    requires IsRunPartition(key, s, rs) && s != [] && rs != [] && |Last(rs)| > 1
    ensures rs == Runs(key, s)
    decreases |s|, 0
  {
    var closed, open, p, x := DropLast(rs), Last(rs), DropLast(s), Last(s);
    var shorter := closed + [DropLast(open)];
    PartitionDropLine(key, s, rs);
    RunsUnique(key, p, shorter);
    RunsStepSame(key, p, x);
    assert s == p + [x];
    assert DropLast(shorter) == closed && Last(shorter) == DropLast(open);
    assert rs == closed + [DropLast(open) + [x]];
  }

  /** Removing a last run of one line leaves the partition of the shorter
      input; that line's key differs from the previous run's. */
  lemma PartitionDropRun(key: string -> string, s: seq<string>, rs: seq<seq<string>>)
    requires IsRunPartition(key, s, rs) && s != [] && rs != [] && |Last(rs)| == 1
    ensures IsRunPartition(key, DropLast(s), DropLast(rs))
    ensures Last(rs) == [Last(s)]
    ensures DropLast(rs) != [] ==> key(Last(DropLast(rs))[0]) != key(Last(s))
  {
    var closed, open := DropLast(rs), Last(rs);
    assert rs == closed + [open];
    FlattenAppend(closed, open);
    assert open == [Last(s)];
    assert forall i :: 0 <= i < |closed| ==> closed[i] == rs[i];
    if closed != [] {
      assert key(rs[|rs| - 2][0]) != key(rs[|rs| - 1][0]);
    }
  }

  /** Removing the last line of a longer last run leaves the partition of
      the shorter input; that line has the run's key. */
  lemma PartitionDropLine(key: string -> string, s: seq<string>, rs: seq<seq<string>>)
    requires IsRunPartition(key, s, rs) && s != [] && rs != [] && |Last(rs)| > 1
    ensures IsRunPartition(key, DropLast(s), DropLast(rs) + [DropLast(Last(rs))])
    ensures Last(rs) == DropLast(Last(rs)) + [Last(s)]
    ensures key(Last(s)) == key(Last(rs)[0])
  {
    var closed, open := DropLast(rs), Last(rs);
    assert rs == closed + [open];
    FlattenAppend(closed, open);
    var shorter := closed + [DropLast(open)];
    assert open == DropLast(open) + [Last(s)];
    FlattenAppend(closed, DropLast(open));
    assert key(open[|open| - 1]) == key(open[0]);
    forall i, j | 0 <= i < |shorter| && 0 <= j < |shorter[i]|
      ensures key(shorter[i][j]) == key(shorter[i][0])
    {
      assert shorter[i][j] == rs[i][j] && shorter[i][0] == rs[i][0];
    }
    forall i | 0 < i < |shorter|
      ensures key(shorter[i - 1][0]) != key(shorter[i][0])
    {
      assert shorter[i][0] == rs[i][0] && shorter[i - 1][0] == rs[i - 1][0];
    }
  }

  /** One more line either extends the open run or opens a new one. */
  lemma RunsStep(key: string -> string, s: seq<string>, x: string)
    ensures Runs(key, s + [x]) ==
      if s != [] && key(Last(Runs(key, s))[0]) == key(x) then
        DropLast(Runs(key, s)) + [Last(Runs(key, s)) + [x]]
      else
        Runs(key, s) + [[x]]
  {
    assert DropLast(s + [x]) == s;
  }

  /** A line with the open run's key extends that run. */
  lemma RunsStepSame(key: string -> string, s: seq<string>, x: string)
    requires s != [] && key(Last(Runs(key, s))[0]) == key(x)
    ensures Runs(key, s + [x]) == DropLast(Runs(key, s)) + [Last(Runs(key, s)) + [x]]
  {
    assert DropLast(s + [x]) == s;
  }

  /** Any other line opens a new run. */
  lemma RunsStepNew(key: string -> string, s: seq<string>, x: string)
    requires s == [] || key(Last(Runs(key, s))[0]) != key(x)
    ensures Runs(key, s + [x]) == Runs(key, s) + [[x]]
  {
    assert DropLast(s + [x]) == s;
  }

  /** The single-pass loops' view of the open run after reading `s`: it
      starts with `first` and has `count` lines. */
  predicate OpenRun(key: string -> string, s: seq<string>, first: string, count: int)
  {
    s != [] && first == Last(Runs(key, s))[0] && count == |Last(Runs(key, s))|
  }

  lemma OpenRunStart(key: string -> string, x: string)
    ensures OpenRun(key, [x], x, 1)
    ensures Runs(key, [x]) == [[x]]
  {
    RunsStep(key, [], x);
    assert [] + [x] == [x];
  }

  /** One more line: when its key is the key of the open run's first line it
      lengthens the open run and closes nothing; otherwise it closes the open
      run and opens a new one of its own. */
  lemma OpenRunStep(key: string -> string, s: seq<string>, x: string, first: string, count: int)
    requires OpenRun(key, s, first, count)
    ensures count >= 1
    ensures Runs(key, s) == DropLast(Runs(key, s)) + [Last(Runs(key, s))]
    ensures key(x) == key(first) ==>
      && OpenRun(key, s + [x], first, count + 1)
      && DropLast(Runs(key, s + [x])) == DropLast(Runs(key, s))
      && Last(Runs(key, s + [x])) == Last(Runs(key, s)) + [x]
    ensures key(x) != key(first) ==>
      && OpenRun(key, s + [x], x, 1)
      && DropLast(Runs(key, s + [x])) == Runs(key, s)
      && Last(Runs(key, s + [x])) == [x]
  {
    RunsStep(key, s, x);
    var rs := Runs(key, s);
    assert rs == DropLast(rs) + [Last(rs)];
    if key(x) == key(first) {
      assert DropLast(DropLast(rs) + [Last(rs) + [x]]) == DropLast(rs);
    } else {
      assert DropLast(rs + [[x]]) == rs;
    }
  }

  /** Runs depend on the key only through the equivalence it induces. */
  lemma {:induction false} RunsDependOnlyOnEquivalence(key1: string -> string, key2: string -> string, s: seq<string>)
    requires forall a, b :: key1(a) == key1(b) <==> key2(a) == key2(b)
    ensures Runs(key1, s) == Runs(key2, s)
    decreases |s|
  {
    if s != [] {
      RunsDependOnlyOnEquivalence(key1, key2, DropLast(s));
    }
  }

  lemma {:induction false} FlattenSingletons(s: seq<string>)
    ensures Flatten(Singletons(s)) == s
    decreases |s|
  {
    if s != [] {
      var init, ss := DropLast(s), Singletons(s);
      assert DropLast(ss) == Singletons(init);
      assert Last(ss) == [Last(s)];
      FlattenSingletons(init);
      assert s == init + [Last(s)];
    }
  }

  /** Every run is a single line exactly when no two adjacent lines are
      equivalent. */
  lemma RunsAreSingletonsIff(key: string -> string, s: seq<string>)
    ensures Runs(key, s) == Singletons(s) <==> NoAdjacentEquivalent(key, s)
  {
    FlattenSingletons(s);
    if NoAdjacentEquivalent(key, s) {
      RunsUnique(key, s, Singletons(s));
    }
    if Runs(key, s) == Singletons(s) {
      RunsArePartition(key, s);
      var rs := Singletons(s);
      forall i | 0 < i < |s|
        ensures key(s[i - 1]) != key(s[i])
      {
        assert rs[i - 1][0] == s[i - 1] && rs[i][0] == s[i];
      }
    }
  }

  /** Growing the last run or adding a run keeps the first `n - 1` runs and
      extends the `n`-th. */
  lemma GrowKeepsPrefix(before: seq<seq<string>>, after: seq<seq<string>>, y: string,
                        closed: seq<seq<string>>, open: seq<string>)
    requires |closed| < |before|
    requires closed == before[..|closed|] && open <= before[|closed|]
    requires after == DropLast(before) + [Last(before) + [y]] || after == before + [[y]]
    ensures |closed| < |after| && closed == after[..|closed|] && open <= after[|closed|]
  {
    var n := |closed|;
    if after == before + [[y]] {
      assert after[..n] == before[..n];
      assert after[n] == before[n];
    } else {
      assert after[..n] == before[..n];
      if n < |before| - 1 {
        assert after[n] == before[n];
      } else {
        assert after[n] == before[n] + [y];
      }
    }
  }

  /** Reading more input never changes a closed run: the runs already closed
      stay in place and the open run can only grow. */
  lemma {:induction false} RunsGrowAtTheEnd(key: string -> string, s: seq<string>, t: seq<string>)
    requires s != []
    ensures |Runs(key, s)| <= |Runs(key, s + t)|
    ensures DropLast(Runs(key, s)) == Runs(key, s + t)[..|Runs(key, s)| - 1]
    ensures Last(Runs(key, s)) <= Runs(key, s + t)[|Runs(key, s)| - 1]
    decreases |t|
  {
    if t == [] {
      assert s + t == s;
    } else {
      var t0, y := DropLast(t), Last(t);
      RunsGrowAtTheEnd(key, s, t0);
      assert s + t == (s + t0) + [y];
      RunsStep(key, s + t0, y);
      GrowKeepsPrefix(Runs(key, s + t0), Runs(key, s + t), y, DropLast(Runs(key, s)), Last(Runs(key, s)));
    }
  }

  /** Lines that all share one key form a single run. */
  lemma SingleRun(key: string -> string, xs: seq<string>)
    requires xs != []
    requires forall j :: 0 <= j < |xs| ==> key(xs[j]) == key(xs[0])
    ensures Runs(key, xs) == [xs]
  {
    FlattenAppend([], xs);
    assert [] + [xs] == [xs];
    RunsUnique(key, xs, [xs]);
  }

  /** Such a run followed by a line with another key gives two runs. */
  lemma SingleRunThenLine(key: string -> string, xs: seq<string>, y: string)
    requires xs != []
    requires forall j :: 0 <= j < |xs| ==> key(xs[j]) == key(xs[0])
    requires key(y) != key(xs[0])
    ensures Runs(key, xs + [y]) == [xs, [y]]
  {
    SingleRun(key, xs);
    CloseSingleRun(key, xs, y);
  }

  lemma CloseSingleRun(key: string -> string, xs: seq<string>, y: string)
    requires xs != [] && Runs(key, xs) == [xs]
    requires key(y) != key(xs[0])
    ensures Runs(key, xs + [y]) == [xs, [y]]
  {
    assert Last([xs]) == xs;
    RunsStepNew(key, xs, y);
    assert [xs] + [[y]] == [xs, [y]];
  }

  /** Runs that are all single lines are the singletons of their
      concatenation. */
  lemma {:induction false} SingletonRuns(rs: seq<seq<string>>)
    requires forall k :: 0 <= k < |rs| ==> |rs[k]| == 1
    ensures rs == Singletons(Flatten(rs))
    decreases |rs|
  {
    if rs != [] {
      var closed := DropLast(rs);
      SingletonRuns(closed);
      var f := Flatten(closed);
      assert Last(rs) == [Last(rs)[0]];
      assert Flatten(rs) == f + [Last(rs)[0]];
      assert Singletons(f + [Last(rs)[0]]) == Singletons(f) + [[Last(rs)[0]]];
      assert rs == closed + [Last(rs)];
    }
  }
}
