/**
  The capture session of the photo booth: the state the component keeps in
  React state hooks and the transitions that `startCountdown` and the
  countdown effect apply to it. The interval's tick and the effect's capture
  are explicit events, so every transition is a pure function.
 */
module CaptureSession {
  import opened Options

  /** A captured still, as the PNG data URL the canvas produces. */
  type Photo = string

  /** The countdown restarts from this many seconds before every shot. */
  const CountdownSeconds: int := 5
  /** The shot taken while `capturedCount` is this value is the last one. */
  const LastShotCount: int := 3
  /** The strip holds this many photos; the start button is offered below it. */
  const StripLength: int := 4

  datatype Session = Session(
    isCapturing: bool,
    countdown: int,
    capturedCount: int,
    photos: seq<Photo>,
    rawPhotos: seq<Photo>,
    showCameraFeed: bool)

  /** The state the hooks are initialised with when the page loads. */
  const Initial: Session := Session(false, 0, 0, [], [], false)

  /** What can happen to a session: the one-second interval fires, or the
      effect captures a frame. The capture yields no photo when the video or
      canvas element or the 2D context is unavailable. */
  datatype Event = Tick | Trigger(shot: Option<Photo>)

  /** The effect keeps an interval running exactly in these states. */
  predicate TickEnabled(s: Session) {
    s.isCapturing && s.countdown > 0
  }

  /** The effect captures a frame exactly in these states. */
  predicate TriggerEnabled(s: Session) {
    s.countdown == 0 && s.isCapturing
  }

  predicate Enabled(s: Session, e: Event) {
    match e
    case Tick => TickEnabled(s)
    case Trigger(_) => TriggerEnabled(s)
  }

  /** The "Start Photobooth" button is rendered exactly in these states. */
  predicate StartOffered(s: Session) {
    !s.isCapturing && |s.photos| < StripLength
  }

  /** The review grid with the "Take Again" and "Download" buttons is
      rendered exactly in these states. */
  predicate DownloadOffered(s: Session) {
    |s.photos| == StripLength
  }

  predicate IsSuffix(a: seq<Photo>, b: seq<Photo>) {
    |a| <= |b| && b[|b| - |a|..] == a
  }

  /** What holds of every session reachable from the initial one. */
  predicate Valid(s: Session) {
    && 0 <= s.countdown <= CountdownSeconds
    && 0 <= s.capturedCount <= LastShotCount
    && s.showCameraFeed == s.isCapturing
    && (!s.isCapturing ==> s.countdown == 0)
    && IsSuffix(s.photos, s.rawPhotos)
    && |s.photos| <= (if s.isCapturing then s.capturedCount else s.capturedCount + 1)
  }

  /** The photos a capture appends: one, or none when the capture failed. */
  function Taken(shot: Option<Photo>): seq<Photo> {
    match shot
    case None => []
    case Some(p) => [p]
  }

  /** The interval fires: one second less, nothing else changes. */
  function AfterTick(s: Session): (t: Session)
    requires TickEnabled(s)
    ensures 0 <= t.countdown == s.countdown - 1
    ensures t.(countdown := s.countdown) == s
  {
    s.(countdown := s.countdown - 1)
  }

  /** The countdown reached zero: the frame is captured into both photo lists;
      then either the countdown restarts for the next shot, or, after the shot
      taken at `capturedCount == 3`, capturing ends and the feed is hidden
      while `capturedCount` stays at 3. */
  function AfterTrigger(s: Session, shot: Option<Photo>): (t: Session)
    requires TriggerEnabled(s)
    ensures t.photos == s.photos + Taken(shot) && t.rawPhotos == s.rawPhotos + Taken(shot)
    ensures s.capturedCount < LastShotCount ==>
              && t.isCapturing && t.showCameraFeed == s.showCameraFeed
              && t.countdown == CountdownSeconds && t.capturedCount == s.capturedCount + 1
    ensures s.capturedCount >= LastShotCount ==>
              && !t.isCapturing && !t.showCameraFeed
              && t.countdown == 0 && t.capturedCount == s.capturedCount
  {
    var captured := s.(photos := s.photos + Taken(shot), rawPhotos := s.rawPhotos + Taken(shot));
    if s.capturedCount < LastShotCount then
      captured.(countdown := CountdownSeconds, capturedCount := s.capturedCount + 1)
    else
      captured.(isCapturing := false, showCameraFeed := false)
  }

  function Step(s: Session, e: Event): Session
    requires Enabled(s, e)
  {
    match e
    case Tick => AfterTick(s)
    case Trigger(shot) => AfterTrigger(s, shot)
  }

  /** `startCountdown`: a fresh session of four shots. The photos shown are
      cleared, the raw photos the composite is drawn from are not. */
  function Start(s: Session): (t: Session)
    ensures Valid(t)
    ensures t.isCapturing && t.showCameraFeed
    ensures t.countdown == CountdownSeconds && t.capturedCount == 0 && t.photos == []
    ensures t.rawPhotos == s.rawPhotos
  {
    s.(isCapturing := true, capturedCount := 0, photos := [], countdown := CountdownSeconds,
       showCameraFeed := true)
  }

  /** Applies the events in order; None if one of them cannot happen in the
      state it meets. */
  function Run(s: Session, evs: seq<Event>): Option<Session>
    decreases |evs|
  {
    if |evs| == 0 then Some(s)
    else if Enabled(s, evs[0]) then Run(Step(s, evs[0]), evs[1..])
    else None
  }

  /** The photos the triggers of a trace captured, in order. */
  function Shots(evs: seq<Event>): seq<Photo>
    decreases |evs|
  {
    if |evs| == 0 then []
    else (match evs[0] case Tick => [] case Trigger(shot) => Taken(shot)) + Shots(evs[1..])
  }

  function Triggers(evs: seq<Event>): nat
    decreases |evs|
  {
    if |evs| == 0 then 0
    else (if evs[0].Trigger? then 1 else 0) + Triggers(evs[1..])
  }

  function Ticks(evs: seq<Event>): nat
    decreases |evs|
  {
    if |evs| == 0 then 0
    else (if evs[0].Tick? then 1 else 0) + Ticks(evs[1..])
  }

  /** Every trigger in the trace produced a photo. */
  predicate AllShotsTaken(evs: seq<Event>) {
    forall i :: 0 <= i < |evs| && evs[i].Trigger? ==> evs[i].shot.Some?
  }

  lemma InitialValid()
    ensures Valid(Initial)
    ensures StartOffered(Initial) && !DownloadOffered(Initial)
  {
  }

  /** The screen never offers both buttons: while capturing it offers
      neither, and an idle session offers exactly one of "Start Photobooth"
      and the download view. */
  lemma OneViewAtATime(s: Session)
    requires Valid(s)
    ensures s.isCapturing ==> !StartOffered(s) && !DownloadOffered(s)
    ensures !s.isCapturing ==> (StartOffered(s) <==> !DownloadOffered(s))
  {
  }

  /** In a valid session, exactly one event can happen while capturing and
      none when idle: the machine is deterministic up to the captured photo. */
  lemma OneEventAtATime(s: Session, shot: Option<Photo>)
    requires Valid(s)
    ensures s.isCapturing <==> (TickEnabled(s) != TriggerEnabled(s))
    ensures !s.isCapturing ==> !Enabled(s, Tick) && !Enabled(s, Trigger(shot))
  {
  }

  /** Every transition keeps the session valid; in particular the countdown
      never goes negative and `capturedCount` stays within [0, 3]. */
  lemma StepPreservesValid(s: Session, e: Event)
    requires Valid(s) && Enabled(s, e)
    ensures Valid(Step(s, e))
  {
  }

  /** What a run of events does to a valid session, counted event by event:
      the captured photos are appended to both lists, each tick takes one
      second off, each non-final trigger adds one to `capturedCount` and
      restarts the countdown, and the final trigger is the only way to stop. */
  lemma RunAccounting(s: Session, evs: seq<Event>, t: Session)
    requires Valid(s) && Run(s, evs) == Some(t)
    ensures Valid(t)
    ensures t.photos == s.photos + Shots(evs) && t.rawPhotos == s.rawPhotos + Shots(evs)
    ensures t.isCapturing ==> s.isCapturing
    ensures !s.isCapturing ==> evs == [] && t == s
    ensures Triggers(evs)
              == t.capturedCount - s.capturedCount + (if s.isCapturing && !t.isCapturing then 1 else 0)
    ensures Ticks(evs)
              == s.countdown - t.countdown + CountdownSeconds * (t.capturedCount - s.capturedCount)
    ensures s.isCapturing && !t.isCapturing ==> t.capturedCount == LastShotCount
  {
    RunKeepsValid(s, evs, t);
    RunAppendsShots(s, evs, t);
    RunCounts(s, evs, t);
  }

  /** A run keeps the invariant, can only stop a session (never restart one),
      stops it only at `capturedCount` 3, and does nothing to an idle one. */
  lemma {:induction false} RunKeepsValid(s: Session, evs: seq<Event>, t: Session)
    requires Valid(s) && Run(s, evs) == Some(t)
    ensures Valid(t)
    ensures t.isCapturing ==> s.isCapturing
    ensures !s.isCapturing ==> evs == [] && t == s
    ensures s.isCapturing && !t.isCapturing ==> t.capturedCount == LastShotCount
    decreases |evs|
  {
    if |evs| > 0 {
      var e, rest := evs[0], evs[1..];
      assert Enabled(s, e) && Run(Step(s, e), rest) == Some(t);
      StepPreservesValid(s, e);
      RunKeepsValid(Step(s, e), rest, t);
    }
  }

  /** A run appends the photos its triggers captured to both photo lists. */
  lemma {:induction false} RunAppendsShots(s: Session, evs: seq<Event>, t: Session)
    requires Run(s, evs) == Some(t)
    ensures t.photos == s.photos + Shots(evs) && t.rawPhotos == s.rawPhotos + Shots(evs)
    decreases |evs|
  {
    if |evs| > 0 {
      var e, rest := evs[0], evs[1..];
      assert Enabled(s, e) && Run(Step(s, e), rest) == Some(t);
      RunAppendsShots(Step(s, e), rest, t);
      match e {
        case Tick =>
          assert Shots(evs) == Shots(rest);
        case Trigger(shot) =>
          assert Shots(evs) == Taken(shot) + Shots(rest);
      }
    }
  }

  /** The ticks and triggers of a run, counted against the countdown and
      `capturedCount` it leaves behind. */
  lemma {:induction false} RunCounts(s: Session, evs: seq<Event>, t: Session)
    requires Valid(s) && Run(s, evs) == Some(t)
    ensures Triggers(evs)
              == t.capturedCount - s.capturedCount + (if s.isCapturing && !t.isCapturing then 1 else 0)
    ensures Ticks(evs)
              == s.countdown - t.countdown + CountdownSeconds * (t.capturedCount - s.capturedCount)
    decreases |evs|
  {
    if |evs| > 0 {
      var e, rest := evs[0], evs[1..];
      assert Enabled(s, e) && Run(Step(s, e), rest) == Some(t);
      var s' := Step(s, e);
      StepPreservesValid(s, e);
      RunCounts(s', rest, t);
      if !s'.isCapturing {
        assert rest == [];
      } else {
        RunKeepsValid(s', rest, t);
      }
    }
  }

  /** A trace has as many photos as triggers exactly when no capture failed. */
  lemma {:induction false} ShotsCount(evs: seq<Event>)
    ensures |Shots(evs)| <= Triggers(evs)
    ensures |Shots(evs)| == Triggers(evs) <==> AllShotsTaken(evs)
    decreases |evs|
  {
    if |evs| > 0 {
      ShotsCount(evs[1..]);
      if AllShotsTaken(evs[1..]) && (evs[0].Trigger? ==> evs[0].shot.Some?) {
        forall i | 0 <= i < |evs| && evs[i].Trigger?
          ensures evs[i].shot.Some?
        {
          if i > 0 {
            assert evs[1..][i - 1] == evs[i];
          }
        }
      } else if !AllShotsTaken(evs[1..]) {
        var i :| 0 <= i < |evs[1..]| && evs[1..][i].Trigger? && !evs[1..][i].shot.Some?;
        assert evs[i + 1] == evs[1..][i];
      }
    }
  }

  lemma {:induction false} TraceLength(evs: seq<Event>)
    ensures |evs| == Ticks(evs) + Triggers(evs)
    decreases |evs|
  {
    if |evs| > 0 {
      TraceLength(evs[1..]);
    }
  }

  /** Any run from `startCountdown` that stops capturing took exactly four
      triggers and twenty ticks, left `capturedCount` at 3, and holds every
      captured photo; the strip is full, and the start button gone, exactly
      when no capture failed. */
  lemma SessionCompletes(s: Session, evs: seq<Event>, t: Session)
    requires Run(Start(s), evs) == Some(t) && !t.isCapturing
    ensures Triggers(evs) == StripLength && Ticks(evs) == StripLength * CountdownSeconds
    ensures |evs| == StripLength * (CountdownSeconds + 1)
    ensures t.capturedCount == LastShotCount
    ensures t.photos == Shots(evs) && t.rawPhotos == s.rawPhotos + Shots(evs)
    ensures |t.photos| <= StripLength
    ensures |t.photos| == StripLength <==> AllShotsTaken(evs)
    ensures AllShotsTaken(evs) <==> !StartOffered(t)
  {
    RunAccounting(Start(s), evs, t);
    ShotsCount(evs);
    TraceLength(evs);
  }

  /** A finished session shows the download view exactly when no capture
      failed; otherwise it offers the start button again. */
  lemma SessionOffersDownload(s: Session, evs: seq<Event>, t: Session)
    requires Run(Start(s), evs) == Some(t) && !t.isCapturing
    ensures DownloadOffered(t) <==> AllShotsTaken(evs)
    ensures DownloadOffered(t) <==> !StartOffered(t)
  {
    SessionCompletes(s, evs, t);
  }

  /** The countdown of one shot: one tick per second of `CountdownSeconds`. */
  function Countdown(): seq<Event> {
    seq(CountdownSeconds, _ => Tick)
  }

  /** The trace the timers produce for the given outcomes of the captures. */
  function Schedule(shots: seq<Option<Photo>>): seq<Event>
    decreases |shots|
  {
    if |shots| == 0 then [] else Countdown() + [Trigger(shots[0])] + Schedule(shots[1..])
  }

  lemma {:induction false} RunAppend(s: Session, a: seq<Event>, b: seq<Event>)
    ensures Run(s, a + b) == (match Run(s, a) case None => None case Some(m) => Run(m, b))
    decreases |a|
  {
    if |a| > 0 {
      assert (a + b)[0] == a[0];
      assert (a + b)[1..] == a[1..] + b;
      if Enabled(s, a[0]) {
        RunAppend(Step(s, a[0]), a[1..], b);
        assert Run(s, a) == Run(Step(s, a[0]), a[1..]);
        assert Run(s, a + b) == Run(Step(s, a[0]), a[1..] + b);
      } else {
        assert Run(s, a) == None;
        assert Run(s, a + b) == None;
      }
    } else {
      assert a + b == b;
    }
  }

  /** One shot: the countdown runs down from five and the frame is captured. */
  lemma OneShot(s: Session, shot: Option<Photo>)
    requires s.isCapturing && s.countdown == CountdownSeconds
    ensures Run(s, Countdown() + [Trigger(shot)])
              == Some(AfterTrigger(s.(countdown := 0), shot))
  {
    var z := s.(countdown := 0);
    assert Run(z, [Trigger(shot)]) == Some(AfterTrigger(z, shot));
    var s4 := s.(countdown := 1);
    assert Run(s4, [Tick]) == Some(z);
    var s3 := s.(countdown := 2);
    assert Run(s3, [Tick]) == Some(s4);
    var s2 := s.(countdown := 3);
    assert Run(s2, [Tick]) == Some(s3);
    var s1 := s.(countdown := 4);
    assert Run(s1, [Tick]) == Some(s2);
    assert Run(s, [Tick]) == Some(s1);
    RunAppend(s, [Tick], [Tick, Tick, Tick, Tick, Trigger(shot)]);
    RunAppend(s1, [Tick], [Tick, Tick, Tick, Trigger(shot)]);
    RunAppend(s2, [Tick], [Tick, Tick, Trigger(shot)]);
    RunAppend(s3, [Tick], [Tick, Trigger(shot)]);
    RunAppend(s4, [Tick], [Trigger(shot)]);
    assert Countdown() + [Trigger(shot)] == [Tick, Tick, Tick, Tick, Tick, Trigger(shot)];
  }

  /** The photos among the capture outcomes, in order. */
  function Successful(shots: seq<Option<Photo>>): seq<Photo>
    decreases |shots|
  {
    if |shots| == 0 then [] else Taken(shots[0]) + Successful(shots[1..])
  }

  /** The timers always drive a session to its end: from any state of a
      session with a fresh countdown, one capture outcome per remaining shot
      completes it, with exactly the successful captures appended. */
  lemma {:induction false} ScheduleCompletes(s: Session, shots: seq<Option<Photo>>)
    requires Valid(s) && s.isCapturing && s.countdown == CountdownSeconds
    requires |shots| == StripLength - s.capturedCount
    ensures Run(s, Schedule(shots))
              == Some(s.(isCapturing := false, showCameraFeed := false, countdown := 0,
                         capturedCount := LastShotCount,
                         photos := s.photos + Successful(shots),
                         rawPhotos := s.rawPhotos + Successful(shots)))
    decreases |shots|
  {
    var first, rest := shots[0], shots[1..];
    var round := Countdown() + [Trigger(first)];
    OneShot(s, first);
    var z := s.(countdown := 0);
    var m := AfterTrigger(z, first);
    assert Run(s, round) == Some(m);
    assert Schedule(shots) == round + Schedule(rest);
    RunAppend(s, round, Schedule(rest));
    assert Run(s, Schedule(shots)) == Run(m, Schedule(rest));
    assert Successful(shots) == Taken(first) + Successful(rest);
    if s.capturedCount < LastShotCount {
      assert Valid(z);
      StepPreservesValid(z, Trigger(first));
      ScheduleCompletes(m, rest);
      assert m.photos + Successful(rest) == s.photos + Successful(shots);
      assert m.rawPhotos + Successful(rest) == s.rawPhotos + Successful(shots);
    } else {
      assert rest == [];
      assert Successful(shots) == Taken(first);
      assert Run(m, Schedule(rest)) == Some(m);
    }
  }

  /** A whole session from the button press: four countdowns and captures;
      with every capture succeeding, the strip holds the four photos in order
      and the download view replaces the start button. */
  lemma FullSession(s: Session, shots: seq<Photo>)
    requires |shots| == StripLength
    ensures var t := Run(Start(s), Schedule(seq(StripLength, i requires 0 <= i < StripLength => Some(shots[i]))));
            && t.Some?
            && t.value.photos == shots
            && t.value.rawPhotos == s.rawPhotos + shots
            && !t.value.isCapturing && !StartOffered(t.value) && DownloadOffered(t.value)
  {
    var outcomes := seq(StripLength, i requires 0 <= i < StripLength => Some(shots[i]));
    ScheduleCompletes(Start(s), outcomes);
    AllSuccessful(outcomes, shots);
  }

  lemma {:induction false} AllSuccessful(outcomes: seq<Option<Photo>>, shots: seq<Photo>)
    requires |outcomes| == |shots|
    requires forall i :: 0 <= i < |shots| ==> outcomes[i] == Some(shots[i])
    ensures Successful(outcomes) == shots
    decreases |shots|
  {
    if |shots| > 0 {
      AllSuccessful(outcomes[1..], shots[1..]);
      assert shots == [shots[0]] + shots[1..];
    }
  }
}
