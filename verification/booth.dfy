/**
  The component as a whole: a session started from a fresh page feeds its
  raw photos to the composite that the Download button produces.
 */
module PhotoBooth {
  import opened Options
  import opened Canvas2D
  import opened CaptureSession
  import opened StripLayout
  import opened Compositor

  /** From a freshly loaded page, a session whose four captures all succeed
      leaves exactly those four photos as raw photos; once each of their
      images has loaded, in any order, the strip is downloaded exactly once,
      with the second photo at y = 522 and the frame drawn over all four. */
  lemma FreshSessionDownloadsOnce(shots: seq<Photo>, order: seq<nat>, frameWidth: int, frameHeight: int)
    requires |shots| == StripLength
    requires Distinct(order) && |order| == StripLength
    requires forall k :: 0 <= k < |order| ==> order[k] < StripLength
    ensures var t := Run(Start(Initial), Schedule(seq(StripLength, i requires 0 <= i < StripLength => Some(shots[i]))));
            && t.Some? && t.value.rawPhotos == shots
            && var log := Composite(frameWidth, frameHeight, |t.value.rawPhotos|, order);
               && Downloads(log) == 1
               && |log| == StripLength + 3
               && (forall k :: 0 <= k < StripLength ==> log[k].DrawPhoto?)
               && log[StripLength] == DrawFrame
               && exists k :: 0 <= k < StripLength && log[k] == DrawPhoto(1, Rect(Slot(frameWidth, 1).x, 522.0, PhotoWidth as real, PhotoHeight as real))
  {
    FullSession(Initial, shots);
    FinishesExactlyWhenAllLoaded(frameWidth, frameHeight, StripLength, order);
    SecondSlot(frameWidth);
  }
}
