/**
 * The intrusion decision (src/intrusion_detector.py): the debounced alarm and
 * the per-frame reduction of detections to one intrusion flag that drives it.
 */
module Intrusion {
  import opened Wrappers
  import opened Geometry
  import opened Zones

  /** The hysteresis: how long the alarm stays on after the last intrusion, in clock units. */
  const DeactivateDelay: real := 3.0

  /** The alarm's state: on or off, and a pending switch-off time. */
  datatype Alarm = Alarm(active: bool, deactivateTime: Option<real>)

  /** A switch-off time is only ever pending while the alarm is on. */
  predicate Consistent(a: Alarm) {
    a.deactivateTime.Some? ==> a.active
  }

  /** Every pending switch-off time is at least the delay, as it is when the clock never reads a negative time. */
  predicate WellTimed(a: Alarm) {
    a.deactivateTime.Some? ==> a.deactivateTime.value >= DeactivateDelay
  }

  /** Python's truthiness of an optional time: None and 0.0 are false. */
  predicate Truthy(t: Option<real>) {
    t.Some? && t.value != 0.0
  }

  /** The state as the source's truthiness tests see it: a pending time of 0.0 reads as none. */
  function AsTested(a: Alarm): (seen: Alarm)
    ensures Truthy(seen.deactivateTime) <==> seen.deactivateTime.Some?
    ensures Truthy(a.deactivateTime) ==> seen == a
    ensures WellTimed(a) ==> seen == a
    ensures Consistent(a) ==> Consistent(seen)
  {
    if a.deactivateTime == Some(0.0) then Alarm(a.active, None) else a
  }

  /**
   * One frame without intrusion, with the truthiness quirk set aside: an idle alarm
   * stays idle, a fresh quiet spell schedules the switch-off `DeactivateDelay`
   * after now, and a pending switch-off happens once it is due and not before.
   */
  function Deactivation(a: Alarm, now: real): (r: Alarm)
    ensures Consistent(a) && !a.active ==> r == a
    ensures a.active && a.deactivateTime.None? ==> r.active && r.deactivateTime == Some(now + DeactivateDelay)
    ensures a.deactivateTime.Some? && now >= a.deactivateTime.value ==> !r.active && r.deactivateTime.None?
    ensures a.deactivateTime.Some? && now < a.deactivateTime.value ==> r == a
    ensures r.active ==> a.active
    ensures Consistent(a) ==> Consistent(r)
    ensures r.deactivateTime.Some? ==> now < r.deactivateTime.value
    ensures WellTimed(a) && now >= 0.0 ==> WellTimed(r)
  {
    match a.deactivateTime
    case None => if a.active then Alarm(true, Some(now + DeactivateDelay)) else a
    case Some(t) => if now >= t then Alarm(false, None) else a
  }

  /** One frame of `process_frame`: an intrusion activates the alarm, a quiet frame checks for deactivation. */
  function Step(a: Alarm, hasIntrusion: bool, now: real): (r: Alarm)
    ensures hasIntrusion ==> r.active && r.deactivateTime.None?
    ensures Consistent(a) ==> Consistent(r)
    ensures WellTimed(a) && now >= 0.0 ==> WellTimed(r)
    ensures Consistent(a) && !hasIntrusion && WellTimed(a) ==> r == Deactivation(a, now)
  {
    if hasIntrusion then Alarm(true, None) else Deactivation(AsTested(a), now)
  }

  /** What one frame feeds the alarm: whether it had an intrusion, and the clock. */
  datatype Frame = Frame(hasIntrusion: bool, now: real)

  /** The alarm after a sequence of frames, in order. */
  function Run(a: Alarm, frames: seq<Frame>): (final: Alarm)
    decreases |frames|
  {
    if frames == [] then a else Run(Step(a, frames[0].hasIntrusion, frames[0].now), frames[1..])
  }

  /** Runs keep a pending switch-off tied to an active alarm, and keep it at least the delay on a non-negative clock. */
  lemma {:induction false} RunInvariants(a: Alarm, frames: seq<Frame>)
    requires Consistent(a)
    ensures Consistent(Run(a, frames))
    ensures WellTimed(a) && (forall k :: 0 <= k < |frames| ==> frames[k].now >= 0.0) ==> WellTimed(Run(a, frames))
    decreases |frames|
  {
    if frames != [] {
      var next := Step(a, frames[0].hasIntrusion, frames[0].now);
      RunInvariants(next, frames[1..]);
      assert forall k :: 1 <= k < |frames| ==> frames[1..][k - 1] == frames[k];
    }
  }

  /** Quiet frames leave an idle alarm idle. */
  lemma {:induction false} QuietWhileIdle(frames: seq<Frame>)
    requires forall k :: 0 <= k < |frames| ==> !frames[k].hasIntrusion
    ensures Run(Alarm(false, None), frames) == Alarm(false, None)
  {
    if frames != [] {
      QuietWhileIdle(frames[1..]);
    }
  }

  /**
   * A pending switch-off at time `d` is never moved: over quiet frames the alarm
   * goes off exactly when some frame's clock reaches `d`, and until then stays on
   * with the same pending time.
   */
  lemma {:induction false} PendingSwitchOff(d: real, frames: seq<Frame>)
    requires d > 0.0
    requires forall k :: 0 <= k < |frames| ==> !frames[k].hasIntrusion
    ensures Run(Alarm(true, Some(d)), frames)
         == if exists k :: 0 <= k < |frames| && frames[k].now >= d then Alarm(false, None) else Alarm(true, Some(d))
  {
    if frames != [] {
      var rest := frames[1..];
      assert forall k :: 1 <= k < |frames| ==> rest[k - 1] == frames[k];
      if frames[0].now >= d {
        QuietWhileIdle(rest);
      } else {
        PendingSwitchOff(d, rest);
        if exists k :: 0 <= k < |rest| && rest[k].now >= d {
          var k :| 0 <= k < |rest| && rest[k].now >= d;
          assert frames[k + 1].now >= d;
        }
      }
    }
  }

  /**
   * The hysteresis: after an intrusion, a run of quiet frames starting at a
   * non-negative time t switches the alarm off exactly when some frame reaches
   * t + DeactivateDelay; the activating frame cancelled anything pending before it.
   */
  lemma QuietPeriod(a: Alarm, intrusionTime: real, frames: seq<Frame>)
    requires frames != [] && frames[0].now >= 0.0
    requires forall k :: 0 <= k < |frames| ==> !frames[k].hasIntrusion
    ensures !Run(a, [Frame(true, intrusionTime)] + frames).active
        <==> exists k :: 0 <= k < |frames| && frames[k].now >= frames[0].now + DeactivateDelay
  {
    var all := [Frame(true, intrusionTime)] + frames;
    assert all[1..] == frames;
    assert Run(a, all) == Run(Alarm(true, None), frames);
    var d := frames[0].now + DeactivateDelay;
    var rest := frames[1..];
    assert frames[1..] == rest;
    assert Run(Alarm(true, None), frames) == Run(Alarm(true, Some(d)), rest);
    PendingSwitchOff(d, rest);
    assert forall k :: 1 <= k < |frames| ==> rest[k - 1] == frames[k];
    if exists k :: 0 <= k < |frames| && frames[k].now >= d {
      var k :| 0 <= k < |frames| && frames[k].now >= d;
      assert k > 0 && rest[k - 1].now >= d;
    }
  }

  /**
   * A timeline: on at t = 0, still on at t = 1 with the switch-off set
   * for t = 4, off at t = 4; an intrusion at t = 2 in between cancels that and
   * the alarm is still on at t = 4, now due off at t = 7.
   */
  lemma Timeline()
    ensures Run(Alarm(false, None), [Frame(true, 0.0)]) == Alarm(true, None)
    ensures Run(Alarm(false, None), [Frame(true, 0.0), Frame(false, 1.0)]) == Alarm(true, Some(4.0))
    ensures Run(Alarm(false, None), [Frame(true, 0.0), Frame(false, 1.0), Frame(false, 4.0)]) == Alarm(false, None)
    ensures Run(Alarm(false, None), [Frame(true, 0.0), Frame(false, 1.0), Frame(true, 2.0), Frame(false, 4.0)])
         == Alarm(true, Some(7.0))
  {
  }

  /** The alarm object of the source; its fields change in place. */
  class AlarmState {
    var active: bool
    var deactivateTime: Option<real>
    const deactivateDelay: real

    ghost function Value(): Alarm
      reads this
    {
      Alarm(active, deactivateTime)
    }

    ghost predicate Valid()
      reads this
    {
      deactivateDelay == DeactivateDelay && Consistent(Value())
    }

    /** A new alarm is off with nothing pending. */
    constructor ()
      ensures Valid()
      ensures Value() == Alarm(false, None)
    {
      active := false;
      deactivateTime := None;
      deactivateDelay := 3.0;
    }

    /** Switches the alarm on at once and cancels any pending switch-off. */
    method Activate()
      requires Valid()
      modifies this
      ensures Valid()
      ensures Value() == Alarm(true, None)
    {
      active := true;
      deactivateTime := None;
    }

    /**
     * A quiet frame at time `now`: schedules or performs the delayed switch-off.
     * The tests are Python truthiness tests, so a pending time of exactly 0.0
     * is taken for none.
     */
    method CheckDeactivate(now: real)
      requires Valid()
      modifies this
      ensures Valid()
      ensures Value() == Deactivation(AsTested(old(Value())), now)
    {
      if active && !Truthy(deactivateTime) {
        deactivateTime := Some(now + deactivateDelay);
      }
      if Truthy(deactivateTime) && now >= deactivateTime.value {
        active := false;
        deactivateTime := None;
      }
    }

    /** Switches the alarm off and drops any pending switch-off, whatever the state. */
    method Reset()
      requires Valid()
      modifies this
      ensures Valid()
      ensures Value() == Alarm(false, None)
    {
      active := false;
      deactivateTime := None;
    }
  }

  /** One detected person: its box and the detector's confidence. */
  datatype Detection = Detection(box: BBox, confidence: real)

  /** How a detection is labelled: inside the zone with the given id, or clear with its confidence. */
  datatype Verdict = Intruding(zoneId: int) | Clear(confidence: real)

  /**
   * The label of one detection: intruding, with the id of the first zone in
   * registry order that contains the box centre, when some zone does.
   */
  function VerdictFor(d: Detection, zones: seq<Zone>): (v: Verdict)
    requires AllPolygons(zones)
    ensures v.Intruding? <==> exists i :: 0 <= i < |zones| && PointInPolygon(BBoxCenter(d.box), zones[i].points)
    ensures v.Intruding? ==> exists i :: && 0 <= i < |zones| && zones[i].id == v.zoneId
                                       && PointInPolygon(BBoxCenter(d.box), zones[i].points)
                                       && forall j :: 0 <= j < i ==> !PointInPolygon(BBoxCenter(d.box), zones[j].points)
    ensures v.Clear? ==> v.confidence == d.confidence
  {
    var ids := ZonesContaining(BBoxCenter(d.box), zones);
    FirstContainingZone(BBoxCenter(d.box), zones);
    if ids != [] then Intruding(ids[0]) else Clear(d.confidence)
  }

  /** Some detection's centre lies in some zone. */
  predicate HasIntrusion(detections: seq<Detection>, zones: seq<Zone>)
    requires AllPolygons(zones)
  {
    exists k, i :: 0 <= k < |detections| && 0 <= i < |zones| && PointInPolygon(BBoxCenter(detections[k].box), zones[i].points)
  }

  /** The decision loop of `process_frame`: the frame's intrusion flag and each detection's label. */
  method ScanDetections(detections: seq<Detection>, zones: seq<Zone>) returns (hasIntrusion: bool, verdicts: seq<Verdict>)
    requires AllPolygons(zones)
    ensures hasIntrusion <==> HasIntrusion(detections, zones)
    ensures |verdicts| == |detections|
    ensures forall k :: 0 <= k < |detections| ==> verdicts[k] == VerdictFor(detections[k], zones)
  {
    hasIntrusion := false;
    verdicts := [];
    for k := 0 to |detections|
      invariant hasIntrusion <==> HasIntrusion(detections[..k], zones)
      invariant |verdicts| == k
      invariant forall j :: 0 <= j < k ==> verdicts[j] == VerdictFor(detections[j], zones)
    {
      var center := BBoxCenter(detections[k].box);
      var intersectingZones := CheckPersonInZones(center, zones);
      FirstContainingZone(center, zones);
      assert forall j :: 0 <= j < k ==> detections[..k + 1][j] == detections[..k][j];
      if intersectingZones != [] {
        hasIntrusion := true;
        verdicts := verdicts + [Intruding(intersectingZones[0])];
      } else {
        verdicts := verdicts + [Clear(detections[k].confidence)];
      }
    }
    assert detections[..|detections|] == detections;
  }

  /** The detection run's state: the zones it loaded and its alarm. */
  class IntrusionDetector {
    const zoneManager: ZoneManager
    const zones: seq<Zone>
    const alarmState: AlarmState

    ghost predicate Valid()
      reads this, alarmState
    {
      alarmState.Valid()
    }

    /** A detector over the zones stored in `file`, with its alarm off. */
    constructor (zonesJson: string, file: ZoneFile)
      ensures Valid() && fresh(alarmState) && fresh(zoneManager)
      ensures zones == Loaded([], file)
      ensures alarmState.Value() == Alarm(false, None)
    {
      var manager := new ZoneManager(zonesJson, file);
      var loaded := manager.GetZones();
      zoneManager := manager;
      zones := loaded;
      alarmState := new AlarmState();
    }

    /**
     * Decides one frame: labels every detection, and either activates the alarm
     * (some detection is in some zone) or lets it count down (none is).
     */
    method ProcessFrame(detections: seq<Detection>, currentTime: real) returns (verdicts: seq<Verdict>)
      requires Valid() && AllPolygons(zones)
      modifies alarmState
      ensures Valid()
      ensures |verdicts| == |detections|
      ensures forall k :: 0 <= k < |detections| ==> verdicts[k] == VerdictFor(detections[k], zones)
      ensures alarmState.Value() == Step(old(alarmState.Value()), HasIntrusion(detections, zones), currentTime)
    {
      var hasIntrusion;
      hasIntrusion, verdicts := ScanDetections(detections, zones);
      if hasIntrusion {
        alarmState.Activate();
      } else {
        alarmState.CheckDeactivate(currentTime);
      }
    }
  }
}
