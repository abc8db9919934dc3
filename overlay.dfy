/**
 * The overlay label: `criar_overlay` (src/rateio.py, src/pdf_utils.py)
 * draws each line of a text 12 points below the previous one. The canvas
 * is left out; what is modelled is the sequence of strings drawn and where.
 */
module Overlay {
  import opened Text

  /** Where the label starts on the page. */
  const DefaultX: int := 410
  const DefaultY: int := 120
  /** The distance between two lines. */
  const LineStep: int := 12

  /** One `drawString(x, y, line)` call. */
  datatype Draw = Draw(x: int, y: int, line: string)

  /** Python's `s.split("\n")`: at least one piece, none containing a newline. */
  function SplitLines(s: string): (r: seq<string>)
    ensures |r| >= 1
    ensures forall i :: 0 <= i < |r| ==> '\n' !in r[i]
    decreases |s|
  {
    var k := IndexOf(s, '\n');
    if k == |s| then [s] else [s[..k]] + SplitLines(s[k + 1..])
  }

  /** Python's `"\n".join(lines)`. */
  function JoinLines(lines: seq<string>): string
  {
    if lines == [] then "" else if |lines| == 1 then lines[0] else lines[0] + "\n" + JoinLines(lines[1..])
  }

  /** Splitting what was joined gives back the lines, provided none holds a newline. */
  lemma {:induction false} SplitJoin(lines: seq<string>)
    requires |lines| >= 1
    requires forall i :: 0 <= i < |lines| ==> '\n' !in lines[i]
    ensures SplitLines(JoinLines(lines)) == lines
    decreases |lines|
  {
    if |lines| == 1 {
      assert IndexOf(lines[0], '\n') == |lines[0]|;
    } else {
      var s := JoinLines(lines);
      var head := lines[0];
      assert s == head + "\n" + JoinLines(lines[1..]);
      assert IndexOf(s, '\n') == |head| by {
        assert s[|head|] == '\n';
        forall j | 0 <= j < |head| ensures s[j] != '\n' {
          assert s[j] == head[j];
        }
      }
      assert s[..|head|] == head;
      assert s[|head| + 1..] == JoinLines(lines[1..]);
      SplitJoin(lines[1..]);
      assert [head] + lines[1..] == lines;
    }
  }

  /** `criar_overlay`: the lines of `text`, top to bottom, starting at `(x, y)`. */
  method DrawLines(text: string, x: int, y: int) returns (draws: seq<Draw>)
    ensures |draws| == |SplitLines(text)|
    ensures forall k :: 0 <= k < |draws| ==> draws[k] == Draw(x, y - LineStep * k, SplitLines(text)[k])
  {
    var lines := SplitLines(text);
    var cursor := y;
    draws := [];
    var k := 0;
    while k < |lines|
      invariant 0 <= k <= |lines|
      invariant |draws| == k
      invariant cursor == y - LineStep * k
      invariant forall j :: 0 <= j < k ==> draws[j] == Draw(x, y - LineStep * j, lines[j])
    {
      draws := draws + [Draw(x, cursor, lines[k])];
      cursor := cursor - LineStep;
      k := k + 1;
    }
  }

  /** Drawing joined lines puts line `k` exactly at `(410, 120 - 12k)`. */
  method DrawLabel(lines: seq<string>) returns (draws: seq<Draw>)
    requires |lines| >= 1
    requires forall i :: 0 <= i < |lines| ==> '\n' !in lines[i]
    ensures |draws| == |lines|
    ensures forall k :: 0 <= k < |lines| ==> draws[k] == Draw(410, 120 - 12 * k, lines[k])
  {
    SplitJoin(lines);
    draws := DrawLines(JoinLines(lines), DefaultX, DefaultY);
  }
}
