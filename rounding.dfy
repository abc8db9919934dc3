/**
 * Rounding reconciliation: `ajustar_por_arredondamento`
 * (src/generalsutils.py), which adds the difference, in place, to the first
 * line holding the smallest value. The same step is written inline in
 * `processar` (src/.gui.py), which reuses `AdjustByRounding` below.
 *
 * Line values are amounts already quantised to 0.01, held as cents.
 */
module Rounding {
  import opened Operation

  /** One overlay line: its operation prefix and its value in cents. */
  datatype Line = Line(prefix: Prefix, value: int)

  /** The sum of the line values. */
  function Sum(s: seq<Line>): int
  {
    if s == [] then 0 else s[0].value + Sum(s[1..])
  }

  /**
   * `min(lines, key=value)`: the index of the first line with the smallest
   * value (Python's `min` keeps the first of equal keys).
   */
  function FirstMinIndex(s: seq<Line>): (k: nat)
    requires |s| > 0
    ensures k < |s|
    ensures forall i :: 0 <= i < |s| ==> s[k].value <= s[i].value
    ensures forall i :: 0 <= i < k ==> s[k].value < s[i].value
  {
    if |s| == 1 then 0
    else
      var j := FirstMinIndex(s[1..]);
      assert forall i :: 1 <= i < |s| ==> s[i] == s[1..][i - 1];
      if s[0].value <= s[1..][j].value then 0 else j + 1
  }

  /**
   * The lines after the adjustment and whether it took place: nothing
   * changes for no lines or a zero difference; otherwise the first minimum
   * line receives the difference.
   */
  function Adjusted(s: seq<Line>, diff: int): (seq<Line>, bool)
  {
    if s == [] || diff == 0 then (s, false)
    else
      var k := FirstMinIndex(s);
      (s[k := s[k].(value := s[k].value + diff)], true)
  }

  /** `ajustar_por_arredondamento`: updates the chosen line in place. */
  method AdjustByRounding(lines: array<Line>, diff: int) returns (adjusted: bool)
    modifies lines
    ensures (lines[..], adjusted) == Adjusted(old(lines[..]), diff)
  {
    if lines.Length == 0 || diff == 0 {
      return false;
    }
    var k := FirstMinIndex(lines[..]);
    lines[k] := lines[k].(value := lines[k].value + diff);
    return true;
  }

  /** Replacing one line changes the sum by the difference of the two values. */
  lemma {:induction false} SumUpdate(s: seq<Line>, k: nat, x: Line)
    requires k < |s|
    ensures Sum(s[k := x]) == Sum(s) - s[k].value + x.value
  {
    if k > 0 {
      SumUpdate(s[1..], k - 1, x);
      assert s[k := x][1..] == s[1..][k - 1 := x];
    }
  }

  /**
   * The adjustment reports whether it happened, keeps the number of lines,
   * and raises the sum by exactly the difference when it happens.
   */
  lemma AdjustedSum(s: seq<Line>, diff: int)
    ensures |Adjusted(s, diff).0| == |s|
    ensures Adjusted(s, diff).1 <==> s != [] && diff != 0
    ensures Sum(Adjusted(s, diff).0) == Sum(s) + (if Adjusted(s, diff).1 then diff else 0)
  {
    if s != [] && diff != 0 {
      var k := FirstMinIndex(s);
      SumUpdate(s, k, s[k].(value := s[k].value + diff));
    }
  }

  /**
   * Only the first minimum line changes, and only its value; every other
   * line, and every prefix, is kept.
   */
  lemma AdjustedChangesOneValue(s: seq<Line>, diff: int)
    requires s != [] && diff != 0
    ensures var t := Adjusted(s, diff).0; var k := FirstMinIndex(s);
      |t| == |s| && t[k].prefix == s[k].prefix && t[k].value == s[k].value + diff
      && forall i :: 0 <= i < |s| && i != k ==> t[i] == s[i]
  {
  }
}
