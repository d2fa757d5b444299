/** The records the compaction engine writes, and their text.

    A record is a line copied verbatim, a line with a repeat counter
    (written `(n) line`, as Go's `"(%d) %s"` formats it), or the ellipsis
    marker `...` that stands for the middle of a long run. */
module Output {
  import opened Grouping

  datatype Entry = Plain(text: string) | Counted(n: nat, text: string) | Ellipsis

  function Digit(d: nat): char
    requires d < 10
  {
    ('0' as int + d) as char
  }

  function DigitValue(c: char): nat
    requires '0' <= c <= '9'
  {
    c as int - '0' as int
  }

  predicate IsDigits(s: string)
  {
    forall i :: 0 <= i < |s| ==> '0' <= s[i] <= '9'
  }

  /** The decimal numeral of `n`, as `%d` prints a non-negative integer. */
  function Decimal(n: nat): (r: string)
    ensures r != [] && IsDigits(r)
    ensures |r| > 1 ==> r[0] != '0'
    decreases n
  {
    if n < 10 then [Digit(n)] else Decimal(n / 10) + [Digit(n % 10)]
  }

  /** The value of a numeral, most significant digit first. */
  function ParseDecimal(s: string): nat
    requires IsDigits(s)
  {
    if s == [] then 0 else 10 * ParseDecimal(DropLast(s)) + DigitValue(Last(s))
  }

  /** `%d` loses nothing: the numeral reads back as the number. */
  lemma {:induction false} DecimalRoundTrip(n: nat)
    ensures ParseDecimal(Decimal(n)) == n
    decreases n
  {
    if n >= 10 {
      DecimalRoundTrip(n / 10);
      var r := Decimal(n);
      assert DropLast(r) == Decimal(n / 10);
    }
  }

  /** The text of one output line (without its newline): a bare line
      verbatim, the ellipsis as `...`, and a counted line as `"(%d) %s"`
      prints it, the counter in parentheses ahead of the unchanged line. */
  function Render(e: Entry): (r: string)
    ensures e.Plain? ==> r == e.text
    ensures e.Ellipsis? ==> r == "..."
    ensures e.Counted? ==> |r| >= |e.text| + 4 && r[0] == '(' && r[|r| - |e.text| - 2..] == ") " + e.text
  {
    match e
    case Plain(line) => line
    case Counted(n, line) => "(" + Decimal(n) + ") " + line
    case Ellipsis => "..."
  }

  function RenderAll(es: seq<Entry>): (lines: seq<string>)
    ensures |lines| == |es|
  {
    seq(|es|, k requires 0 <= k < |es| => Render(es[k]))
  }

  /** A counted line starts with its counter in parentheses, so the count
      can be read back from the text. */
  lemma CountedLineShowsCount(n: nat, line: string)
    ensures var r := Render(Counted(n, line));
      |r| == |Decimal(n)| + 3 + |line|
      && r[0] == '(' && r[1..1 + |Decimal(n)|] == Decimal(n) && r[1 + |Decimal(n)|] == ')'
      && r[|Decimal(n)| + 3..] == line
      && ParseDecimal(r[1..1 + |Decimal(n)|]) == n
  {
    DecimalRoundTrip(n);
  }

  /** The number of input lines a record of the production output stands
      for: a counted record stands for its count, a bare line for itself. */
  function Represented(e: Entry): nat
  {
    match e
    case Plain(_) => 1
    case Counted(n, _) => n
    case Ellipsis => 0
  }

  function TotalRepresented(es: seq<Entry>): nat
  {
    if es == [] then 0 else TotalRepresented(DropLast(es)) + Represented(Last(es))
  }
}
