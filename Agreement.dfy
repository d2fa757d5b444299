/** How the reference listings relate to the production output.

    The test helpers and `main` cut the input into the same runs but print
    them differently: the helpers show a run as its first line bare, or as
    `(1) first`, `...`, `(n) last`, while `main` prints `(n) first` for every
    run. `Decode` reads a listing back into one `(n) first` record per run;
    the lemmas show that decoding either helper's listing gives exactly the
    records `main` writes for the same runs. */
module Agreement {
  import opened Grouping
  import opened Output
  import opened Matomail
  import opened ReferenceCompaction

  /** One record per run of a listing, read from the end: a bare line is a
      run of one; a counted entry closing `(1) first` (with or without an
      ellipsis between) is a run of that count starting with `first`; any
      other counted entry stands for itself. */
  function Decode(es: seq<Entry>): seq<Entry>
    decreases |es|
  {
    if es == [] then []
    else
      var k := |es|;
      match es[k - 1]
      case Plain(x) => Decode(es[..k - 1]) + [Counted(1, x)]
      case Ellipsis => Decode(es[..k - 1])
      case Counted(n, x) =>
        if n != 1 && k >= 3 && es[k - 2] == Ellipsis && es[k - 3].Counted? && es[k - 3].n == 1 then
          Decode(es[..k - 3]) + [Counted(n, es[k - 3].text)]
        else if n != 1 && k >= 2 && es[k - 2].Counted? && es[k - 2].n == 1 then
          Decode(es[..k - 2]) + [Counted(n, es[k - 2].text)]
        else
          Decode(es[..k - 1]) + [Counted(n, x)]
  }

  /** One `(n) first` record per run, built from the end. This is
      `Matomail.RunCounts` again, written back-recursively like `Decode`, so
      that the induction over a listing peels one run per step;
      `RecordsAreRunCounts` proves the two equal. */
  function Records(rs: seq<seq<string>>): seq<Entry>
    requires NonEmptyRuns(rs)
  {
    if rs == [] then [] else Records(DropLast(rs)) + [Counted(|Last(rs)|, Last(rs)[0])]
  }

  lemma {:induction false} RecordsAreRunCounts(rs: seq<seq<string>>)
    requires NonEmptyRuns(rs)
    ensures Records(rs) == RunCounts(rs)
    decreases |rs|
  {
    if rs != [] {
      RecordsAreRunCounts(DropLast(rs));
      RunCountsAppend(DropLast(rs), Last(rs));
      assert DropLast(rs) + [Last(rs)] == rs;
    }
  }

  /** Whatever precedes it, a block decodes to the record of its run. */
  lemma DecodeBlock(prefix: seq<Entry>, count: nat, first: string, last: string)
    requires count >= 1
    ensures Decode(prefix + Block(count, first, last)) == Decode(prefix) + [Counted(count, first)]
  {
    var es := prefix + Block(count, first, last);
    var k := |es|;
    if count == 1 {
      assert es[..k - 1] == prefix;
    } else if count == 2 {
      assert es[k - 2] == Counted(1, first);
      assert es[..k - 2] == prefix;
    } else {
      assert es[k - 2] == Ellipsis && es[k - 3] == Counted(1, first);
      assert es[..k - 3] == prefix;
    }
  }

  /** A listing of closed blocks never ends in an opening `(1) first` or an
      ellipsis, so what follows it is read on its own. */
  predicate EndsCleanly(es: seq<Entry>)
  {
    es == [] || Last(es).Plain? || (Last(es).Counted? && Last(es).n != 1)
  }

  lemma {:induction false} DecodeExactBlocks(rs: seq<seq<string>>)
    requires NonEmptyRuns(rs)
    ensures Decode(ExactBlocks(rs)) == Records(rs)
    ensures EndsCleanly(ExactBlocks(rs))
    decreases |rs|
  {
    if rs != [] {
      var init, g := DropLast(rs), Last(rs);
      DecodeExactBlocks(init);
      DecodeBlock(ExactBlocks(init), |g|, g[0], g[0]);
    }
  }

  lemma {:induction false} DecodeTypedBlocks(rs: seq<seq<string>>)
    requires NonEmptyRuns(rs)
    ensures Decode(TypedBlocks(rs)) == Records(rs)
    decreases |rs|
  {
    if rs != [] {
      var init, g := DropLast(rs), Last(rs);
      DecodeTypedBlocks(init);
      DecodeBlock(TypedBlocks(init), |g|, g[0], Last(g));
    }
  }

  /** The final entry of the exact listing decodes to the open run's record. */
  lemma DecodeExactFinal(prefix: seq<Entry>, g: seq<string>)
    requires g != [] && EndsCleanly(prefix)
    ensures Decode(prefix + ExactFinal(g)) == Decode(prefix) + [Counted(|g|, g[0])]
  {
    if |g| == 1 {
      DecodeAfterClean(prefix, Plain(g[0]));
    } else {
      DecodeAfterClean(prefix, Counted(|g|, g[0]));
    }
  }

  /** After a cleanly ending listing, a bare line or a count other than 1
      is read on its own. */
  lemma DecodeAfterClean(prefix: seq<Entry>, e: Entry)
    requires EndsCleanly(prefix)
    requires e.Plain? || (e.Counted? && e.n != 1)
    ensures Decode(prefix + [e]) == Decode(prefix) + [Counted(if e.Plain? then 1 else e.n, e.text)]
  {
    var es := prefix + [e];
    assert es[..|es| - 1] == prefix;
    if prefix != [] {
      assert es[|es| - 2] == Last(prefix);
    }
  }

  lemma DecodeExactCompaction(lines: seq<string>)
    requires lines != [""]
    ensures Decode(ExactCompaction(lines)) == Records(Runs(Exact, lines))
  {
    if lines != [] {
      var rs := Runs(Exact, lines);
      var init, g := DropLast(rs), Last(rs);
      var closedPart := ExactBlocks(init);
      assert ExactCompaction(lines) == closedPart + ExactFinal(g);
      DecodeExactBlocks(init);
      DecodeExactFinal(closedPart, g);
      assert Records(rs) == Records(init) + [Counted(|g|, g[0])];
    }
  }

  /** Decoding the listing of `runMatomailWithInput` gives exactly what
      `main` writes without a pattern. */
  lemma ExactListingAgreesWithMain(lines: seq<string>)
    requires lines != [""]
    ensures Decode(ExactCompaction(lines)) == CollapsedOutput(NoPattern, lines)
  {
    DecodeExactCompaction(lines);
    RecordsAreRunCounts(Runs(Exact, lines));
    RunsDependOnlyOnEquivalence(Exact, MaskFn(NoPattern), lines);
  }

  /** Decoding the listing of `runMatomailWithInputAndPattern` gives the
      records of the runs by message type; these are what `main` writes
      whenever its mask identifies exactly the lines of one message type. */
  lemma TypedListingAgreesWithMain(p: Pattern, lines: seq<string>)
    requires lines != [""]
    ensures Decode(TypedCompaction(lines)) == RunCounts(Runs(GetMessageType, lines))
    ensures (forall a, b :: Mask(p, a) == Mask(p, b) <==> GetMessageType(a) == GetMessageType(b)) ==>
      Decode(TypedCompaction(lines)) == CollapsedOutput(p, lines)
  {
    var rs := Runs(GetMessageType, lines);
    DecodeTypedBlocks(rs);
    RecordsAreRunCounts(rs);
    if forall a, b :: Mask(p, a) == Mask(p, b) <==> GetMessageType(a) == GetMessageType(b) {
      RunsDependOnlyOnEquivalence(GetMessageType, MaskFn(p), lines);
    }
  }
}
