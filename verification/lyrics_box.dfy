/**
 * The active-line scan of the lyrics view: the highlighted line is the last
 * one whose start time has been reached by the playback position. The scan
 * does not assume the lines are sorted by time.
 */
module LyricsBox {
  import opened LyricsParser

  /** The line has started by `progress`. */
  predicate Started(l: LyricLine, progress: int) {
    l.time <= progress
  }

  /**
   * Reference definition: the last index whose line has started, or -1 when
   * none has.
   */
  function LastStarted(lyrics: seq<LyricLine>, progress: int): (k: int)
    ensures -1 <= k < |lyrics|
    ensures k >= 0 ==> Started(lyrics[k], progress)
    ensures forall j :: k < j < |lyrics| ==> !Started(lyrics[j], progress)
    decreases |lyrics|
  {
    if lyrics == [] then -1
    else if Started(lyrics[|lyrics| - 1], progress) then |lyrics| - 1
    else LastStarted(lyrics[..|lyrics| - 1], progress)
  }

  /** `activeIndex`: scan from the end, stop at the first line that has started. */
  method ActiveIndex(lyrics: seq<LyricLine>, progressMs: int) returns (activeIndex: int)
    ensures -1 <= activeIndex < |lyrics|
    ensures activeIndex >= 0 ==> lyrics[activeIndex].time <= progressMs
    ensures forall j :: activeIndex < j < |lyrics| ==> lyrics[j].time > progressMs
    ensures activeIndex == -1 <==> forall j :: 0 <= j < |lyrics| ==> lyrics[j].time > progressMs
    ensures activeIndex == LastStarted(lyrics, progressMs)
  {
    activeIndex := -1;
    var i := |lyrics| - 1;
    while i >= 0
      invariant -1 <= i < |lyrics| && activeIndex == -1
      invariant forall j :: i < j < |lyrics| ==> lyrics[j].time > progressMs
      invariant LastStarted(lyrics, progressMs) == LastStarted(lyrics[..i + 1], progressMs)
      decreases i
    {
      if lyrics[i].time <= progressMs {
        activeIndex := i;
        break;
      }
      assert lyrics[..i + 1][..i] == lyrics[..i];
      i := i - 1;
    }
  }

  /** The highlight never moves backwards while playback moves forwards. */
  lemma LastStartedMonotone(lyrics: seq<LyricLine>, p: int, q: int)
    requires p <= q
    ensures LastStarted(lyrics, p) <= LastStarted(lyrics, q)
  {
    var k := LastStarted(lyrics, p);
    if k >= 0 {
      assert Started(lyrics[k], q);
    }
  }
}
