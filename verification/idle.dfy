/** Idle monitoring of `src/mate-ui-session.c`: the idle-time query with
    its fallback, the once-a-second check that compares it against a
    threshold, and the registration of an idle callback. The timer itself
    is left out; one tick of it is one call of `IdleCheck`. */
module Idle {
  import opened Common
  import Session

  /** What the X11 screen-saver query meets: no X11 display, no
      screen-saver extension, a failed info allocation, or the idle time it
      reports in milliseconds. A build without X11 or XSS always sees the
      first. */
  datatype IdleSource =
    | NoX11Display
    | NoScreenSaverExtension
    | InfoAllocFailed
    | ScreenSaverIdle(ms: uint64)

  /** `mate_ui_session_get_idle_time`: the reported idle time, or 0 ("not
      idle") whenever the query cannot be made. */
  function GetIdleTime(src: IdleSource): (r: uint64)
    ensures r != 0 ==> src.ScreenSaverIdle?
    ensures src.ScreenSaverIdle? ==> r == src.ms
  {
    match src
    case ScreenSaverIdle(ms) => ms
    case _ => 0
  }

  /** The outcome of one timer tick: whether the callback ran, and whether
      the source stays installed. */
  datatype Tick = Tick(fired: bool, keepRunning: bool)

  /** `idle_check_callback`: run the callback whenever the sampled idle
      time has reached the threshold. The source is never removed. */
  function IdleCheck(threshold: uint64, src: IdleSource): (r: Tick)
    ensures r.keepRunning
    ensures r.fired <==> GetIdleTime(src) >= threshold
  {
    Tick(GetIdleTime(src) >= threshold, true)
  }

  /** The ticks of a watch over successive samples, one `IdleCheck` each,
      in order; the result says on which ticks the callback ran. */
  function RunTicks(threshold: uint64, samples: seq<IdleSource>): (fired: seq<bool>)
    ensures |fired| == |samples|
    ensures forall i :: 0 <= i < |samples| ==> (fired[i] <==> GetIdleTime(samples[i]) >= threshold)
    decreases |samples|
  {
    if samples == [] then []
    else
      var t := IdleCheck(threshold, samples[0]);
      [t.fired] + RunTicks(threshold, samples[1..])
  }

  /** The check is level-triggered, not edge-triggered: a tick whose
      sample is still at or above the threshold fires again. */
  lemma FiresOnEveryTickAboveThreshold(threshold: uint64, samples: seq<IdleSource>, i: nat)
    requires i + 1 < |samples|
    requires GetIdleTime(samples[i]) >= threshold && GetIdleTime(samples[i + 1]) >= threshold
    ensures RunTicks(threshold, samples)[i] && RunTicks(threshold, samples)[i + 1]
  {
  }

  /** A zero threshold fires on every tick, the first included. */
  lemma ZeroThresholdAlwaysFires(samples: seq<IdleSource>)
    ensures forall i :: 0 <= i < |samples| ==> RunTicks(0, samples)[i]
  {
  }

  /** Without a working screen-saver query the idle time is 0, so a watch
      fires on every tick when its threshold is 0 and never otherwise. */
  lemma NoQueryFiresOnlyAtZero(threshold: uint64, samples: seq<IdleSource>)
    requires forall i :: 0 <= i < |samples| ==> !samples[i].ScreenSaverIdle?
    ensures forall i :: 0 <= i < |samples| ==> (RunTicks(threshold, samples)[i] <==> threshold == 0)
  {
  }

  /** A 5000 ms threshold over samples of 1000, 3000, 6000 and 8000 ms
      fires on the third and fourth ticks only. */
  lemma ThresholdExample()
    ensures RunTicks(5000, [ScreenSaverIdle(1000), ScreenSaverIdle(3000),
                            ScreenSaverIdle(6000), ScreenSaverIdle(8000)])
            == [false, false, true, true]
  {
  }

  /** A GLib source id; GLib never hands out 0. */
  type SourceId = x: uint32 | x > 0 witness 1

  /** `IdleCallbackData`: threshold, callback, user data, destroy notify and
      the id of the timer source that polls for it. */
  datatype IdleWatch = IdleWatch(threshold: uint64, callback: nat, userData: nat,
                                 destroy: Option<nat>, sourceId: SourceId)

  /** `mate_ui_session_set_idle_callback`: a NULL callback is refused with
      0; otherwise a watch is installed on the timer source `sourceId`
      that GLib allocates, and that id is returned. */
  function SetIdleCallback(threshold: uint64, callback: Option<nat>, userData: nat, destroy: Option<nat>,
                           sourceId: SourceId): (r: (uint32, Option<IdleWatch>))
    ensures r.0 == 0 <==> callback.None?
    ensures r.1.None? <==> callback.None?
    ensures r.1.Some? ==> r.1.value.sourceId == r.0 && r.1.value.threshold == threshold
                          && r.1.value.callback == callback.value && r.1.value.userData == userData
                          && r.1.value.destroy == destroy
  {
    if callback.None? then (0 as uint32, None)
    else (sourceId as uint32, Some(IdleWatch(threshold, callback.value, userData, destroy, sourceId)))
  }

  /** `idle_callback_data_free`, run when the source is removed: the destroy
      notify, if any, on the watch's user data. */
  function FreeWatch(w: IdleWatch): (r: seq<Session.DestroyNotify>)
    ensures |r| <= 1
    ensures |r| == 1 <==> w.destroy.Some?
    ensures |r| == 1 ==> r[0] == Session.DestroyNotify(w.destroy.value, w.userData)
  {
    if w.destroy.Some? then [Session.DestroyNotify(w.destroy.value, w.userData)] else []
  }

  /** A registered watch fires by its own threshold, and a zero threshold
      fires on its first tick. */
  lemma WatchFiresByItsThreshold(threshold: uint64, callback: nat, userData: nat, destroy: Option<nat>,
                                 sourceId: SourceId, samples: seq<IdleSource>)
    ensures var w := SetIdleCallback(threshold, Some(callback), userData, destroy, sourceId).1.value;
            forall i :: 0 <= i < |samples| ==>
              (RunTicks(w.threshold, samples)[i] <==> GetIdleTime(samples[i]) >= threshold)
    ensures threshold == 0 && samples != [] ==>
              RunTicks(SetIdleCallback(threshold, Some(callback), userData, destroy, sourceId).1.value.threshold,
                       samples)[0]
  {
  }
}
