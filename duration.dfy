/**
 * `converter_tempo` (src/rateio.py): a duration in seconds as
 * "M min R s", or "R s" under a minute. Seconds are exact reals here.
 */
module Duration {
  import opened Text

  /** `int(seconds // 60)`: whole minutes, rounded down. */
  function Minutes(seconds: real): int
  {
    (seconds / 60.0).Floor
  }

  /** `int(seconds % 60)`: Python's `%` has the sign of the divisor, so the rest is in [0, 60). */
  function Rest(seconds: real): int
  {
    (seconds - 60.0 * Minutes(seconds) as real).Floor
  }

  /** The minutes and the rest account for the whole seconds of the duration. */
  lemma MinutesAndRest(seconds: real)
    ensures 0 <= Rest(seconds) < 60
    ensures (Minutes(seconds) * 60 + Rest(seconds)) as real <= seconds < (Minutes(seconds) * 60 + Rest(seconds) + 1) as real
  {
    var m := Minutes(seconds);
    assert m as real <= seconds / 60.0 < m as real + 1.0;
    assert 60.0 * m as real <= seconds < 60.0 * m as real + 60.0;
  }

  /** On a whole number of seconds the split is integer division and remainder. */
  lemma WholeSeconds(n: nat)
    ensures Minutes(n as real) == n / 60 && Rest(n as real) == n % 60
  {
    var q, r := n / 60, n % 60;
    assert n as real / 60.0 == q as real + r as real / 60.0;
    assert 0.0 <= r as real / 60.0 < 1.0;
    assert n as real - 60.0 * q as real == r as real;
  }

  /** `converter_tempo`. */
  function FormatDuration(seconds: real): string
  {
    var minutes := Minutes(seconds);
    var rest := Rest(seconds);
    if minutes > 0 then IntToString(minutes) + " min " + IntToString(rest) + " s"
    else IntToString(rest) + " s"
  }

  /** 125 seconds print as "2 min 5 s", 59.9 seconds as "59 s". */
  lemma DurationExamples()
    ensures FormatDuration(125.0) == "2 min 5 s"
    ensures FormatDuration(59.9) == "59 s"
  {
    WholeSeconds(125);
    assert NatDigits(2) == "2" && NatDigits(5) == "5";
    assert Minutes(59.9) == 0;
    assert Rest(59.9) == 59;
    assert NatDigits(59) == NatDigits(5) + [DigitChar(9)];
  }
}
