/** The activity tracker: a finite-state machine over idle and the three
    named activities, driven by committed gestures, with a cooldown between
    transitions and per-activity accumulated time. */
module ActivityTracking {
  import opened Base
  import opened Constants

  const DefaultCooldown: real := 0.8

  /** The time of the last transition before any has happened: far enough in
      the past that the first transition is not held back by the cooldown. */
  const InitialLastSwitch: real := -10000.0

  /** Accumulated seconds per activity, one entry for each of them. */
  type Totals = m: map<Activity, real> | m.Keys == AllActivities
    witness map[Studying := 0.0, Youtube := 0.0, Lol := 0.0]

  /** Where a recognised gesture leads: none is idle. Gestures that are
      neither the stop gesture nor in the table lead nowhere. */
  predicate Recognised(g: Gesture) {
    g == GestureStop || g in ActivityByGesture
  }

  function TargetOf(g: Gesture): Option<Activity>
    requires Recognised(g)
  {
    if g == GestureStop then None else Some(ActivityByGesture[g])
  }

  datatype Tracker = Tracker(
    totals: Totals,
    active: Option<Activity>,
    startedAt: Option<real>,
    cooldown: real,
    lastSwitchAt: real)
  {
    /** The tracker's invariant: totals are never negative, and a start time
        is recorded exactly while an activity is active. */
    predicate Valid() {
      && (forall a :: a in totals ==> totals[a] >= 0.0)
      && (active.None? <==> startedAt.None?)
    }

    /** Seconds the active activity has run by `now`, clamped at zero;
        zero when idle. */
    function Elapsed(now: real): (e: real)
      ensures e >= 0.0
      ensures active.Some? && startedAt.Some? ==> e >= now - startedAt.value
      ensures active.None? ==> e == 0.0
      ensures e == 0.0 || (startedAt.Some? && e == now - startedAt.value)
    {
      if active.Some? && startedAt.Some? then Max0(now - startedAt.value) else 0.0
    }

    /** Add the active activity's elapsed time to its total and clear its
        start time; the tracker is left unchanged when nothing is running. */
    function CloseActive(now: real): (t: Tracker)
      requires Valid()
      ensures active.None? ==> t == this
      ensures t.active == active && t.cooldown == cooldown && t.lastSwitchAt == lastSwitchAt
      ensures t.startedAt.None?
      ensures forall a :: a in AllActivities ==>
                t.totals[a] == totals[a] + (if active == Some(a) then Elapsed(now) else 0.0)
    {
      if active.None? || startedAt.None? then this
      else
        var a := active.value;
        EveryActivityListed(a);
        this.(totals := totals[a := totals[a] + Max0(now - startedAt.value)], startedAt := None)
    }

    /** Apply one committed gesture (or none) at time `now`; the output says
        whether a transition happened. */
    function ApplyGesture(g: Option<Gesture>, now: real): (r: Step<Tracker, bool>)
      requires Valid()
      ensures r.next.Valid() && r.next.cooldown == cooldown
      ensures r.output <==>
                && g.Some? && Recognised(g.value)
                && TargetOf(g.value) != active
                && now - lastSwitchAt >= cooldown
      ensures !r.output ==> r.next == this
      ensures r.output ==>
                && r.next.active == TargetOf(g.value)
                && r.next.startedAt == (if r.next.active.Some? then Some(now) else None)
                && r.next.lastSwitchAt == now
                && forall a :: a in AllActivities ==>
                     r.next.totals[a] == totals[a] + (if active == Some(a) then Elapsed(now) else 0.0)
      ensures forall a :: a in AllActivities ==> r.next.totals[a] >= totals[a]
    {
      if g.None? then Step(false, this)
      else
        var gesture := g.value;
        if gesture != GestureStop && gesture !in ActivityByGesture then Step(false, this)
        else
          var target := TargetOf(gesture);
          if target == active then Step(false, this)
          else if now - lastSwitchAt < cooldown then Step(false, this)
          else
            var closed := CloseActive(now);
            Step(true, closed.(
              active := target,
              startedAt := if target.Some? then Some(now) else None,
              lastSwitchAt := now))
    }

    /** The totals as they stand at `now`, counting the active activity's
        running time; the tracker itself is not changed. */
    function Snapshot(now: real): (m: Totals)
      ensures forall a :: a in AllActivities ==>
                m[a] == totals[a] + (if active == Some(a) then Elapsed(now) else 0.0)
    {
      if active.Some? && startedAt.Some? then
        EveryActivityListed(active.value);
        totals[active.value := totals[active.value] + Max0(now - startedAt.value)]
      else totals
    }
  }

  function NewTracker(cooldown: real): (t: Tracker)
    ensures t.Valid() && t.active.None?
    ensures t.cooldown == cooldown && t.lastSwitchAt == InitialLastSwitch
    ensures forall a :: a in AllActivities ==> t.totals[a] == 0.0
  {
    Tracker(map a | a in AllActivities :: 0.0, None, None, cooldown, InitialLastSwitch)
  }

  /** Total tracked time across all activities. */
  function Sum(m: Totals): real {
    m[Studying] + m[Youtube] + m[Lol]
  }

  /** A snapshot never reads less than the stored totals. */
  lemma SnapshotCoversTotals(t: Tracker, now: real)
    requires t.Valid()
    ensures forall a :: a in AllActivities ==> t.Snapshot(now)[a] >= t.totals[a] >= 0.0
  {
  }

  /** A transition moves running time into the totals without losing or
      adding any: the snapshot taken at the moment of a gesture is the same
      before and after it is applied. */
  lemma SnapshotContinuous(t: Tracker, g: Option<Gesture>, now: real)
    requires t.Valid()
    ensures t.ApplyGesture(g, now).next.Snapshot(now) == t.Snapshot(now)
  {
    var t' := t.ApplyGesture(g, now).next;
    forall a | a in AllActivities
      ensures t'.Snapshot(now)[a] == t.Snapshot(now)[a]
    {
    }
  }

  /** Between two instants after the active activity started, its snapshot
      entry grows by the time between them and the others stay put. */
  lemma SnapshotGrowth(t: Tracker, now1: real, now2: real)
    requires t.Valid()
    requires t.startedAt.Some? ==> t.startedAt.value <= now1
    requires now1 <= now2
    ensures forall a :: a in AllActivities ==>
              t.Snapshot(now2)[a] == t.Snapshot(now1)[a] + (if t.active == Some(a) then now2 - now1 else 0.0)
    ensures Sum(t.Snapshot(now2)) == Sum(t.Snapshot(now1)) + (if t.active.Some? then now2 - now1 else 0.0)
  {
    EveryActivityListed(Studying);
  }

  /** Apply a sequence of (gesture, time) frames in order. */
  function Run(t: Tracker, frames: seq<(Option<Gesture>, real)>): (r: Tracker)
    requires t.Valid()
    ensures r.Valid()
    decreases |frames|
  {
    if |frames| == 0 then t else Run(t.ApplyGesture(frames[0].0, frames[0].1).next, frames[1..])
  }

  /** Frame times that never go backwards and start no earlier than `from`. */
  ghost predicate Chronological(frames: seq<(Option<Gesture>, real)>, from: real) {
    && (|frames| > 0 ==> from <= frames[0].1)
    && forall i :: 0 < i < |frames| ==> frames[i - 1].1 <= frames[i].1
  }

  /** Wall time spent with some activity active, from `from` to the last
      frame, following the transitions the frames cause. */
  ghost function BusyTime(t: Tracker, frames: seq<(Option<Gesture>, real)>, from: real): real
    requires t.Valid()
    decreases |frames|
  {
    if |frames| == 0 then 0.0
    else
      (if t.active.Some? then frames[0].1 - from else 0.0)
      + BusyTime(t.ApplyGesture(frames[0].0, frames[0].1).next, frames[1..], frames[0].1)
  }

  /** The time accounted in the snapshot grows by exactly the wall time
      spent in non-idle states, over any chronological run of frames. */
  lemma {:induction false} AccountingMatchesWallTime(t: Tracker, frames: seq<(Option<Gesture>, real)>, from: real)
    requires t.Valid() && |frames| > 0
    requires t.startedAt.Some? ==> t.startedAt.value <= from
    requires Chronological(frames, from)
    ensures Sum(Run(t, frames).Snapshot(frames[|frames| - 1].1))
            == Sum(t.Snapshot(from)) + BusyTime(t, frames, from)
    decreases |frames|
  {
    var now := frames[0].1;
    var t1 := t.ApplyGesture(frames[0].0, now).next;
    SnapshotGrowth(t, from, now);
    SnapshotContinuous(t, frames[0].0, now);
    assert Sum(t1.Snapshot(now)) == Sum(t.Snapshot(from)) + (if t.active.Some? then now - from else 0.0);
    if |frames| > 1 {
      var rest := frames[1..];
      assert Chronological(rest, now) by {
        assert frames[0].1 <= frames[1].1;
        forall i | 0 < i < |rest|
          ensures rest[i - 1].1 <= rest[i].1
        {
          assert rest[i - 1] == frames[i] && rest[i] == frames[i + 1];
        }
      }
      AccountingMatchesWallTime(t1, rest, now);
      assert rest[|rest| - 1] == frames[|frames| - 1];
    }
  }

  /** Re-applying the gesture that caused a transition is refused and leaves
      the tracker alone, whenever it comes. */
  lemma ReapplyIsRefused(t: Tracker, g: Gesture, now: real, later: real)
    requires t.Valid() && t.ApplyGesture(Some(g), now).output
    ensures var t1 := t.ApplyGesture(Some(g), now).next;
            !t1.ApplyGesture(Some(g), later).output && t1.ApplyGesture(Some(g), later).next == t1
  {
  }

  /** Two transitions closer together than the cooldown: the second is
      refused and the tracker stays as the first left it. */
  lemma CooldownBlocksFastSwitch(t: Tracker, g1: Gesture, now1: real, g2: Option<Gesture>, now2: real)
    requires t.Valid() && t.ApplyGesture(Some(g1), now1).output
    requires now2 - now1 < t.cooldown
    ensures var t1 := t.ApplyGesture(Some(g1), now1).next;
            !t1.ApplyGesture(g2, now2).output && t1.ApplyGesture(g2, now2).next == t1
  {
  }

  /** From the initial state, a gesture is accepted exactly when it starts
      an activity and `now` lies at least the cooldown after the sentinel;
      with the default cooldown, that is any `now >= -9999.2`. */
  lemma FirstTransition(cooldown: real, g: Option<Gesture>, now: real)
    ensures NewTracker(cooldown).ApplyGesture(g, now).output
            <==> g.Some? && g.value != GestureStop && now >= InitialLastSwitch + cooldown
    ensures cooldown == DefaultCooldown && g.Some? && g.value != GestureStop && now >= -9999.2 ==>
              NewTracker(cooldown).ApplyGesture(g, now).output
  {
  }

  /** The switch-and-accumulate scenario of the program's unit tests, with
      the default 0.8 s cooldown. */
  lemma SwitchAndAccumulateScenario()
    ensures var t0 := NewTracker(DefaultCooldown);
            var s1 := t0.ApplyGesture(Some(Ily), 0.0);
            var s2 := s1.next.ApplyGesture(Some(OpenPalm), 1.0);
            var s3 := s2.next.ApplyGesture(Some(Fist), 2.0);
            var totals := s3.next.Snapshot(2.0);
            && s1.output && s2.output && s3.output
            && totals[Studying] == 1.0 && totals[Lol] == 1.0 && totals[Youtube] == 0.0
  {
  }

  /** The cooldown scenario of the program's unit tests. */
  lemma CooldownScenario()
    ensures var t0 := NewTracker(DefaultCooldown);
            var s1 := t0.ApplyGesture(Some(Ily), 0.0);
            var s2 := s1.next.ApplyGesture(Some(ThumbsUp), 0.2);
            var s3 := s2.next.ApplyGesture(Some(ThumbsUp), 1.0);
            && s1.output && !s2.output && s2.next.active == Some(Studying)
            && s3.output && s3.next.active == Some(Youtube)
  {
  }
}
