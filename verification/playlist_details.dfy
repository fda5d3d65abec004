/**
 * `formatDuration` of the playlist page: the same `m:ss` layout as the player
 * clock, without the clamp of negative input. It is modelled on every integer
 * with JavaScript's operators: `Math.floor` of a quotient and the `%` whose
 * remainder takes the sign of the dividend.
 */
module PlaylistDetails {
  import opened Decimal
  import NowPlaying

  /**
   * JavaScript's `a % b` for a positive divisor: what is left after taking the
   * quotient rounded toward zero, so it has the sign of `a`.
   */
  function JsRem(a: int, b: int): (r: int)
    requires b > 0
    ensures a - r == b * (if a >= 0 then a / b else -((-a) / b))
    ensures a >= 0 ==> 0 <= r < b
    ensures a < 0 ==> -b < r <= 0
  {
    if a >= 0 then a % b else -((-a) % b)
  }

  /** `Math.floor(a / b)` for a positive divisor. */
  function FloorDiv(a: int, b: int): (q: int)
    requires b > 0
    ensures q * b <= a < q * b + b
  {
    a / b
  }

  /** `formatDuration`, rendered with JavaScript's template-literal integers. */
  function FormatDuration(ms: int): (r: string)
    ensures ms >= 0 ==> r == NowPlaying.FormatTime(ms)
    ensures ms < 0 ==> |r| > 0 && r[0] == '-'
  {
    var minutes := FloorDiv(ms, 60000);
    var seconds := FloorDiv(JsRem(ms, 60000), 1000);
    var r := IntToString(minutes) + ":" + (if seconds < 10 then "0" else "") + IntToString(seconds);
    if ms >= 0 then
      assert r == NowPlaying.Clock(minutes, seconds);
      r
    else
      assert minutes < 0;
      assert r[0] == IntToString(minutes)[0];
      r
  }

  /** Without the clamp a negative duration renders garbled: -1 ms shows as `-1:0-1`. */
  lemma NegativeGarbled(ms: int)
    requires ms == -1
    ensures FormatDuration(ms) == "-1:0-1"
  {
    assert FloorDiv(ms, 60000) == -1;
    assert JsRem(ms, 60000) == -1;
    assert FloorDiv(-1, 1000) == -1;
    assert IntToString(-1) == "-1";
  }
}
