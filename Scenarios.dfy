/** The expectations of the repository's tests, checked against the model,
    and what `main` itself prints for the same inputs. The tests compare
    whole outputs after trimming surrounding white space; here outputs are
    compared as sequences of lines. */
module Scenarios {
  import opened Grouping
  import opened Output
  import opened Matomail
  import opened ReferenceCompaction
  import opened ListingProperties

  /** The text of a counted entry whose count is below ten. */
  lemma RenderSmallCount(n: nat, line: string)
    requires 1 <= n < 10
    ensures Render(Counted(n, line)) == ['(', Digit(n), ')', ' '] + line
  {
    assert Decimal(n) == [Digit(n)];
  }

  const BasicInput: seq<string> := ["line1", "line2", "line2", "line2", "line3"]

  lemma BasicRuns()
    ensures Runs(Exact, BasicInput) == [["line1"], ["line2", "line2", "line2"], ["line3"]]
  {
    var rs := [["line1"], ["line2", "line2", "line2"], ["line3"]];
    assert Flatten(rs) == BasicInput by {
      FlattenAppend(rs[..2], rs[2]);
      FlattenAppend(rs[..1], rs[1]);
      FlattenAppend([], rs[0]);
      assert rs[..2] == rs[..1] + [rs[1]] && rs == rs[..2] + [rs[2]] && rs[..1] == [] + [rs[0]];
    }
    RunsUnique(Exact, BasicInput, rs);
  }

  lemma BasicListing()
    ensures ExactCompaction(BasicInput)
      == [Plain("line1"), Counted(1, "line2"), Ellipsis, Counted(3, "line2"), Plain("line3")]
  {
    BasicRuns();
    var rs := Runs(Exact, BasicInput);
    var closed := [["line1"], ["line2", "line2", "line2"]];
    assert DropLast(rs) == closed && Last(rs) == ["line3"];
    assert DropLast(closed) == [["line1"]] && DropLast([["line1"]]) == [];
    assert ExactBlocks([["line1"]]) == [Plain("line1")];
  }

  /** `TestBasicFunctionality`: a run of three is shown as `(1)`, `...`,
      `(3)`, and lines on their own stay bare. */
  lemma TestBasicFunctionality()
    ensures RenderAll(ExactCompaction(BasicInput)) == ["line1", "(1) line2", "...", "(3) line2", "line3"]
  {
    BasicListing();
    BasicListingText();
  }

  lemma BasicListingText()
    ensures RenderAll([Plain("line1"), Counted(1, "line2"), Ellipsis, Counted(3, "line2"), Plain("line3")])
      == ["line1", "(1) line2", "...", "(3) line2", "line3"]
  {
    var es := [Plain("line1"), Counted(1, "line2"), Ellipsis, Counted(3, "line2"), Plain("line3")];
    RenderSmallCount(1, "line2");
    RenderSmallCount(3, "line2");
    assert Digit(1) == '1' && Digit(3) == '3';
    assert ['(', '1', ')', ' '] + "line2" == "(1) line2";
    assert ['(', '3', ')', ' '] + "line2" == "(3) line2";
  }

  lemma MainRecordsOnBasicInput()
    ensures CollapsedOutput(NoPattern, BasicInput) == [Counted(1, "line1"), Counted(3, "line2"), Counted(1, "line3")]
  {
    BasicRuns();
    RunsDependOnlyOnEquivalence(Exact, MaskFn(NoPattern), BasicInput);
    RunCountsOfBasicRuns();
  }

  lemma RunCountsOfBasicRuns()
    ensures RunCounts([["line1"], ["line2", "line2", "line2"], ["line3"]])
      == [Counted(1, "line1"), Counted(3, "line2"), Counted(1, "line3")]
  {
  }

  /** `main` on the same input writes one counted record per run. */
  lemma MainOnBasicInput()
    ensures RenderAll(CollapsedOutput(NoPattern, BasicInput)) == ["(1) line1", "(3) line2", "(1) line3"]
  {
    MainRecordsOnBasicInput();
    MainRecordsText();
  }

  lemma MainRecordsText()
    ensures RenderAll([Counted(1, "line1"), Counted(3, "line2"), Counted(1, "line3")])
      == ["(1) line1", "(3) line2", "(1) line3"]
  {
    RenderSmallCount(1, "line1");
    RenderSmallCount(3, "line2");
    RenderSmallCount(1, "line3");
    assert Digit(1) == '1' && Digit(3) == '3';
    assert ['(', '1', ')', ' '] + "line1" == "(1) line1";
    assert ['(', '3', ')', ' '] + "line2" == "(3) line2";
    assert ['(', '1', ')', ' '] + "line3" == "(1) line3";
  }

  const Date := "2025-05-14"
  const ErrorType := "ERROR Connection failed"
  const InfoType := "INFO Connection established"
  const Log0 := Date + " " + "10:00:00" + " " + ErrorType
  const Log1 := Date + " " + "10:01:00" + " " + ErrorType
  const Log2 := Date + " " + "10:02:00" + " " + ErrorType
  const Log3 := Date + " " + "10:03:00" + " " + InfoType

  lemma RegexMessageTypes()
    ensures GetMessageType(Log0) == ErrorType && GetMessageType(Log1) == ErrorType
    ensures GetMessageType(Log2) == ErrorType && GetMessageType(Log3) == InfoType
  {
    MessageTypeAfterSecondSpace(Date, "10:00:00", ErrorType);
    MessageTypeAfterSecondSpace(Date, "10:01:00", ErrorType);
    MessageTypeAfterSecondSpace(Date, "10:02:00", ErrorType);
    MessageTypeAfterSecondSpace(Date, "10:03:00", InfoType);
  }

  lemma RegexListing()
    ensures TypedCompaction([Log0, Log1, Log2, Log3]) == [Counted(1, Log0), Ellipsis, Counted(3, Log2), Plain(Log3)]
  {
    RegexMessageTypes();
    var xs := [Log0, Log1, Log2];
    assert [Log0, Log1, Log2, Log3] == xs + [Log3];
    TypedClosedRunRendering(xs, Log3);
  }

  /** `TestRegexPattern`: three `ERROR` lines that differ only in their
      timestamps form one run, shown by its first and last line; the `INFO`
      line closes it. */
  lemma TestRegexPattern()
    ensures RenderAll(TypedCompaction([Log0, Log1, Log2, Log3]))
      == ["(1) " + Log0, "...", "(3) " + Log2, Log3]
  {
    RegexListing();
    RenderSmallCount(1, Log0);
    RenderSmallCount(3, Log2);
  }

  /** `TestEmptyInput`: the empty string splits into one empty line, and the
      listing is empty; `main` reads no line from it and writes nothing. */
  lemma TestEmptyInput()
    ensures RenderAll(ExactCompaction([""])) == []
    ensures RenderAll(TypedCompaction([""])) == []
    ensures CollapsedOutput(NoPattern, []) == []
  {
  }

  const Special := "line with !@#$%^&*()"
  const SpecialOther := "line with different !@#$%^&*()"

  /** `TestSpecialCharacters`: a run of two gets no ellipsis, and the
      characters need no escaping. */
  lemma TestSpecialCharacters()
    ensures RenderAll(ExactCompaction([Special, Special, SpecialOther]))
      == ["(1) " + Special, "(2) " + Special, SpecialOther]
  {
    var xs := [Special, Special];
    assert [Special, Special, SpecialOther] == xs + [SpecialOther];
    ExactClosedRunRendering(xs, SpecialOther);
    RenderSmallCount(1, Special);
    RenderSmallCount(2, Special);
  }
}
