/** The parser's view of a résumé section: lines of positioned text
    items, of which only the texts matter here. */
module ResumeLines {
  import opened Strings

  /** A line of a section: the texts of its items, left to right. */
  type Line = seq<string>

  /** `lines.flat().map(item => item.text)`: every item text, line by line. */
  function Flatten(lines: seq<Line>): (r: seq<string>)
    ensures |lines| == 0 ==> r == []
  {
    if lines == [] then [] else lines[0] + Flatten(lines[1..])
  }

  lemma {:induction false} FlattenAppend(a: seq<Line>, b: seq<Line>)
    ensures Flatten(a + b) == Flatten(a) + Flatten(b)
    decreases |a|
  {
    if a == [] {
      assert a + b == b;
    } else {
      assert (a + b)[0] == a[0];
      assert (a + b)[1..] == a[1..] + b;
      FlattenAppend(a[1..], b);
    }
  }

  /** A section's text: all item texts joined with single spaces. */
  function SectionText(lines: seq<Line>): string
  {
    Join(Flatten(lines), " ")
  }
}
