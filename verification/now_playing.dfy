/**
 * The small pure helpers of the player panel: the `m:ss` clock, the repeat
 * button's cycle, and the volume icon.
 */
module NowPlaying {
  import opened Decimal

  /** Two-digit seconds: a leading `0` below ten. */
  function SecondsField(s: nat): (r: string)
    requires s < 60
    ensures |r| == 2 && AllDigits(r) && DecimalValue(r) == s
  {
    ShortNumeral(s);
    if s < 10 then
      var r := ['0'] + NatToString(s);
      assert r == ['0', DigitChar(s)];
      TwoDigitValue('0', DigitChar(s));
      r
    else
      NatToString(s)
  }

  /** `minutes:ss`: minutes unpadded, seconds zero-padded to two digits. */
  function Clock(minutes: nat, seconds: nat): (r: string)
    requires seconds < 60
    ensures |r| >= 4 && r[|r| - 3] == ':'
    ensures AllDigits(r[..|r| - 3]) && DecimalValue(r[..|r| - 3]) == minutes
    ensures |r| > 4 ==> r[0] != '0'
    ensures AllDigits(r[|r| - 2..]) && DecimalValue(r[|r| - 2..]) == seconds
  {
    var m := NatToString(minutes);
    var r := m + ":" + SecondsField(seconds);
    assert r[..|r| - 3] == m;
    assert r[|r| - 2..] == SecondsField(seconds);
    r
  }

  /**
   * `formatTime`: a negative position shows as zero; otherwise the text reads
   * back as whole minutes and whole seconds (0..59) that together fall in the
   * last second before `ms`.
   */
  function FormatTime(ms: int): (r: string)
    ensures |r| >= 4 && r[|r| - 3] == ':'
    ensures AllDigits(r[..|r| - 3]) && AllDigits(r[|r| - 2..])
    ensures |r| > 4 ==> r[0] != '0'
    ensures var t := if ms < 0 then 0 else ms;
      var minutes, seconds := DecimalValue(r[..|r| - 3]), DecimalValue(r[|r| - 2..]);
      && seconds < 60
      && 60000 * minutes + 1000 * seconds <= t < 60000 * minutes + 1000 * seconds + 1000
  {
    var t := if ms < 0 then 0 else ms;
    Clock(t / 60000, (t % 60000) / 1000)
  }

  /** Any negative position renders as `0:00`. */
  lemma FormatTimeNegative(ms: int)
    requires ms < 0
    ensures FormatTime(ms) == "0:00"
  {
    var r := FormatTime(ms);
    assert r == NatToString(0) + ":" + SecondsField(0);
  }

  /** The repeat modes of the player. */
  datatype RepeatMode = Off | Context | Track

  /** `nextMap`: the repeat button advances off → context → track → off. */
  function NextRepeat(m: RepeatMode): (r: RepeatMode)
    ensures r != m
  {
    match m
    case Off => Context
    case Context => Track
    case Track => Off
  }

  /** Three presses bring the mode back; one or two never do. */
  lemma RepeatCycle(m: RepeatMode)
    ensures NextRepeat(NextRepeat(NextRepeat(m))) == m
    ensures NextRepeat(NextRepeat(m)) != m
  {
  }

  /** The four volume icons. */
  datatype VolumeIcon = VolumeOff | VolumeMute | VolumeDown | VolumeUp

  /** `VolumeIcon`: off at zero, then mute, down and up at the thresholds 30 and 70. */
  function Icon(volume: int): (r: VolumeIcon)
    ensures r == VolumeOff <==> volume == 0
    ensures r == VolumeMute <==> volume != 0 && volume < 30
    ensures r == VolumeDown <==> 30 <= volume < 70
    ensures r == VolumeUp <==> volume >= 70
  {
    if volume == 0 then VolumeOff
    else if volume < 30 then VolumeMute
    else if volume < 70 then VolumeDown
    else VolumeUp
  }

  /** Position of an icon on the loudness scale. */
  function Loudness(i: VolumeIcon): nat {
    match i
    case VolumeOff => 0
    case VolumeMute => 1
    case VolumeDown => 2
    case VolumeUp => 3
  }

  /** Over the slider's range 0..100 the icon only gets louder as the volume rises. */
  lemma IconMonotone(a: int, b: int)
    requires 0 <= a <= b <= 100
    ensures Loudness(Icon(a)) <= Loudness(Icon(b))
  {
  }
}
