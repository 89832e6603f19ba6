# Observer: gesture interpretation and activity tracking, in Dafny

Observer turns a stream of hand-skeleton observations into a debounced
"current activity" signal. Each observation is 21 landmarks per frame, with an
optional handedness label. The signal comes with accumulated time per
activity. This project models the per-frame core and proves properties of it:

- `Gestures` (`gestures.dfy`): the geometry predicates over one landmark set,
  the first-match gesture classifier (FIST, ILY, OPEN_PALM, THUMBS_UP or
  none) and the palm-orientation gate.
- `Gates` (`gates.dfy`): the sliding-window majority-vote smoother and the
  hold-to-commit gate. Both are generic in the label type.
- `ActivityTracking` (`activity.dfy`): the activity state machine. It has
  idle plus three activities, a stop gesture, idempotence, a cooldown, and
  per-activity totals with a read-only snapshot.
- `ClockText` (`clock_text.dfy`): `format_seconds`, plus a parser for its
  output used to state the round trip.
- `Constants` (`constants.dfy`) and `Base` (`base.dfy`): the closed
  vocabularies, the gesture-to-activity table, `Option`, and the
  `Step(output, next)` pair that every stateful update returns.

Every stateful component is an immutable datatype. Its update is a pure
function that returns the call's output and the next state. Time is always a
parameter. Coordinates and timestamps are `real`.

`observer/constants.py` is not part of this model. The table is fixed from
the unit tests:

- ILY starts "studying", THUMBS_UP starts "youtube" and OPEN_PALM starts
  "lol" (tests/test_logic.py:30-34).
- FIST has no entry and is the stop gesture, because applying it returns
  `True` (tests/test_logic.py:40).

The classifier in `observer/gestures.py:78-93` is a first-match cascade:

- It checks FIST, then ILY, then OPEN_PALM, then THUMBS_UP.
- The ILY branch requires index and pinky extended, middle and ring
  *curled*, a sideways thumb (`thumb_side_extended`) and `not thumb_up`.
- A finger can be extended and curled at once, because a short
  tip-to-knuckle distance counts as curled. So four extended fingers with
  the thumb far from the palm do not always give OPEN_PALM.
  `Gestures.OpenPalmPreemptedByIly` exhibits a hand that is labelled ILY
  instead.

Two guards in the code can never change a result. The model keeps both and
proves that they are redundant:

- the `not thumb_up` guard on ILY (`Gestures.ThumbPosesExclusive`,
  `Gestures.DetectIsFirstMatch`);
- the `normal_strength > 0.02` conjunct of the palm gate, which every
  handedness branch already implies (the three cases of
  `Gestures.PalmFacingCamera`).

## Model

| member | source | states |
|---|---|---|
| Gestures.Within | observer/gestures.py:12-13 | The test `dist(a, b) < c`. Nothing passes a zero threshold, and no pair passes both it and `dist(a, b) > c` at the same threshold. |
| Gestures.Beyond | observer/gestures.py:12-13 | The test `dist(a, b) > c`. Two landmarks that pass it for any threshold are at different image positions. |
| Gestures.DistanceComparison | observer/gestures.py:12-13 | For any non-negative threshold, comparing the planar distance (the non-negative root of the squared x/y distance, which is what `hypot` returns) with it is equivalent to comparing the squared distance with the squared threshold. Both `<` and `>` are covered. |
| Gestures.DistanceIgnoresDepth | observer/gestures.py:12-13 | The distance used by every threshold test does not depend on either landmark's depth `z`. |
| Gestures.FingerExtended | observer/gestures.py:16-20 | An extended finger's tip is more than 0.05 above its MCP. Such a finger is curled exactly when its tip is within 0.11 of its MCP. |
| Gestures.FingerCurled | observer/gestures.py:23-27 | Either clause alone makes a finger curled: the tip below the PIP, or the tip within 0.11 of the MCP. In particular a tip lying on its own MCP is curled. |
| Gestures.ExtendedFingerCurledOnlyByDistance | observer/gestures.py:16-27 | An extended finger has tip above PIP above MCP and spans more than 0.05. Such a finger is curled exactly when its tip is within 0.11 of its MCP, never through the tip-below-PIP clause. |
| Gestures.ExtendedAndCurledOverlap | observer/gestures.py:16-27 | Some finger pose is both extended and curled, so the two predicates are not exclusive. |
| Gestures.ThumbUpStrict | observer/gestures.py:30-45 | A strict thumb-up has the tip above the wrist and more than 0.06 above the thumb MCP, and is never also a sideways thumb. |
| Gestures.ThumbSideExtended | observer/gestures.py:48-53 | A sideways thumb has its tip at a different image x than its MCP. |
| Gestures.ThumbPosesExclusive | observer/gestures.py:30-53 | The strict thumb-up pose and the sideways thumb pose never hold together. |
| Gestures.DetectGesture | observer/gestures.py:56-93 | FIST is returned exactly when all four fingers are curled and the thumb tip is within 0.18 of landmark 9, whatever else holds. ILY implies its branch condition and not FIST. OPEN_PALM implies four extended fingers, a thumb farther than 0.22, and that neither FIST nor ILY applies. THUMBS_UP implies strict thumb-up, four curled fingers and a thumb at least 0.18 from the palm. None implies that no branch condition holds. |
| Gestures.FirstMatch | observer/gestures.py:78-93 | Over an ordered rule list, the result is present exactly when some rule holds, and it is the label of the first rule that holds. |
| Gestures.DetectIsFirstMatch | observer/gestures.py:78-93 | The classifier equals first-match evaluation of the rule list FIST, ILY, OPEN_PALM, THUMBS_UP in which ILY lacks the `not thumb_up` guard, so that guard never decides. |
| Gestures.OpenPalmUnlessIly | observer/gestures.py:71-90 | With four extended fingers and the thumb farther than 0.22 from the palm, the label is OPEN_PALM or ILY. It is ILY exactly when the ILY condition holds. |
| Gestures.OpenPalmPreemptedByIly | observer/gestures.py:78-90 | Some hand with four extended fingers and a far thumb is labelled ILY, not OPEN_PALM. |
| Gestures.NormalZ | observer/gestures.py:106-110 | The cross product is zero whenever two of wrist, index MCP and pinky MCP coincide, so a degenerate palm has no orientation. |
| Gestures.DepthScore | observer/gestures.py:120-123 | A negative mean depth means at least one of the index, middle and pinky tips is nearer the camera than its MCP. |
| Gestures.PalmFacingCamera | observer/gestures.py:96-126 | A true result needs the absolute cross product above 0.02, a mean fingertip depth below -0.025, and a palm centre more than 0.01 in front of the wrist. "Right" passes iff the cross product is below -0.02 and the depth test holds. "Left" passes iff it is above 0.02 and the depth test holds. Any other label, or none, passes iff its absolute value exceeds 0.03 and the depth test holds. |
| Gestures.NotPalmFacingForBothHands | observer/gestures.py:113-116 | The same landmarks never pass the gate as both a right and a left hand. |
| Gestures.MirrorSwapsHandedness | observer/gestures.py:106-126 | A hand passes as "Right" exactly when its left-to-right mirror image passes as "Left". |
| Gates.Count | observer/gates.py:12 | A label's votes never exceed the window length. |
| Gates.CountZeroIffAbsent | observer/gates.py:12 | A label's votes are zero exactly when the label does not occur in the window. |
| Gates.LastN | observer/gates.py:7-11 | A bounded deque keeps `min(window, length)` entries. |
| Gates.LastNElements | observer/gates.py:7-11 | The kept entries are the newest ones of the input, in their original order. |
| Gates.ScanBest | observer/gates.py:12-15 | Scanning the window left to right with a strict `>` replacement yields no position exactly when the window holds no label. Otherwise it yields a position whose label has the most votes, and no earlier position holds a label with as many. |
| Gates.MostCommonAt | observer/gates.py:12-15 | The vote's winning position: none iff there are no votes. Otherwise its label's count is maximal, and every earlier label has strictly fewer votes. |
| Gates.FirstPos | observer/gates.py:15 | The returned position holds the label, and no earlier position does. |
| Gates.Smoother.Push | observer/gates.py:7-11 | The new window is the newest `window` entries of the old window plus the label. When `window > 0`, its last entry is the new label and the rest are the old window's newest `window - 1` entries. Its length never exceeds `window`, and a zero window stays empty. |
| Gates.Smoother.Update | observer/gates.py:10-18 | One frame pushes the label and then votes over the new window. Window size and threshold are unchanged. |
| Gates.Vote | observer/gates.py:12-18 | No labels in the window, or fewer entries than `min_count`, gives none. A returned label has at least `min_count` votes and no label has more. Some label is returned exactly when some label reaches `min_count`. |
| Gates.VoteTieBreak | observer/gates.py:15 | When another label has as many votes as the winner, the winner's first occurrence in the window is earlier. |
| Gates.CountTwoLabels | observer/gates.py:12 | The votes of two different labels add up to at most the window length. |
| Gates.StrictMajorityWinner | observer/gates.py:6-17 | When `2 * min_count` exceeds the window length (defaults 5 and 7), the smoother returns `x` exactly when `x` has at least `min_count` votes, so the tie-break never matters. |
| Gates.FeedRepeatedStep | observer/gates.py:10-11 | Feeding a label `k + 1` times is feeding it `k` times followed by one update. |
| Gates.PushRepeatedSuffix | observer/gates.py:7-11 | After `k` pushes of one label, the newest `min(k, window)` entries are all that label. |
| Gates.RepeatedLabelWins | observer/gates.py:10-18 | With a strict-majority threshold no larger than the window, the `k`-th consecutive update with the same label returns that label, for every `k >= min_count`. |
| Gates.NewSmoother | observer/gates.py:6-8 | A new smoother starts with an empty window, and stores the window size and threshold it is given. |
| Gates.HoldGate.Update | observer/gates.py:27-35 | The candidate becomes the input. The timer restarts at `now` exactly when the input differs from the previous candidate, and is otherwise unchanged. The output is none or the input. It is the input exactly when the input is present and at least `min_hold_seconds` have passed since the timer started. |
| Gates.DefaultSmootherLatency | observer/gates.py:6-18 | With the defaults (window 7, threshold 5), a label fed steadily into a new smoother is emitted on the `k`-th update exactly when `k >= 5`. |
| Gates.NewHoldGate | observer/gates.py:22-25 | A new gate stores the hold time it is given, watches nothing, and has its timer at 0. |
| Gates.HoldRunSameLabel | observer/gates.py:27-30 | Feeding the watched label again, at any times, leaves the gate's state unchanged. |
| Gates.HoldCommitsAfterMinHold | observer/gates.py:27-35 | A label first fed at `t0` and then fed without interruption is emitted at `t` exactly when `t - t0 >= min_hold_seconds`. |
| Gates.HoldGateScenarios | tests/test_logic.py:14-26 | With a 1.5 s hold: none at 0.0 and 1.49, emitted at 1.5. After a change at 0.8: none at 2.2, emitted at 2.31. |
| ActivityTracking.NewTracker | observer/activity.py:7-12 | The tracker starts idle, valid, with every total at zero, the given cooldown, and the last switch at -10000. |
| ActivityTracking.Tracker.Elapsed | observer/activity.py:17 | Running time is `max(0, now - started_at)` while active and zero while idle. |
| ActivityTracking.Tracker.CloseActive | observer/activity.py:14-18 | When idle, nothing changes. Otherwise only the active activity's total grows, by its clamped running time, the start time is cleared, and nothing else changes. |
| ActivityTracking.Tracker.ApplyGesture | observer/activity.py:20-35 | A gesture is accepted exactly when it is present, is the stop gesture or in the table, leads away from the active state, and the cooldown has passed. A refusal changes nothing. On acceptance: the previous activity's total grows by its clamped running time and the others are unchanged; the new active state is the target; the start time is `now`, or none when idle; the last switch is `now`. Validity is preserved, and totals never decrease. |
| ActivityTracking.Tracker.Snapshot | observer/activity.py:37-41 | Each entry is the stored total, plus the clamped running time for the active activity. |
| ActivityTracking.SnapshotCoversTotals | observer/activity.py:37-41 | A snapshot never reads less than the stored totals, which are never negative. |
| ActivityTracking.SnapshotContinuous | observer/activity.py:14-41 | Applying any gesture at `now` leaves the snapshot at `now` unchanged: a transition moves time into the totals without losing or adding any. |
| ActivityTracking.SnapshotGrowth | observer/activity.py:37-41 | Between two instants after the activity started, the active entry of the snapshot, and its sum, grow by exactly the time between them. The other entries are unchanged. |
| ActivityTracking.AccountingMatchesWallTime | observer/activity.py:14-41 | Over any chronological run of frames, the snapshot sum grows by exactly the wall time spent in non-idle states. |
| ActivityTracking.ReapplyIsRefused | observer/activity.py:26-27 | Re-applying the gesture that caused a transition is refused at any later time and changes nothing. |
| ActivityTracking.CooldownBlocksFastSwitch | observer/activity.py:28-29 | After an accepted transition, any gesture less than the cooldown later is refused, and the state stays as the transition left it. |
| ActivityTracking.FirstTransition | observer/activity.py:7-29 | From the initial state, a gesture is accepted exactly when it starts an activity and `now >= -10000 + cooldown`. With the default cooldown, that covers every `now >= -9999.2`. |
| ActivityTracking.SwitchAndAccumulateScenario | tests/test_logic.py:36-44 | ILY at 0, OPEN_PALM at 1 and FIST at 2 are all accepted. The snapshot at 2 gives studying 1, lol 1 and youtube 0. |
| ActivityTracking.CooldownScenario | tests/test_logic.py:46-52 | ILY at 0 is accepted. THUMBS_UP at 0.2 is refused and studying stays active. THUMBS_UP at 1.0 is accepted and youtube becomes active. |
| ClockText.Truncate | observer/activity.py:45 | `int()` rounds toward zero: for `v >= 0` the result is the greatest whole number not above `v`, and for negative `v` the least one not below it. |
| ClockText.Decompose | observer/activity.py:45-48 | `minutes < 60`, `secs < 60` and `hours * 3600 + minutes * 60 + secs == total`, using floor division and modulo. |
| ClockText.Pad2 | observer/activity.py:50-51 | The field reads back as `n`, has at least two digits, and has exactly two iff `n < 100`. It has a leading zero only when `n < 10`. |
| ClockText.FormatSeconds | observer/activity.py:44-51 | The text holds only digits and colons. Below one hour it is `MM:SS` (5 characters). From one hour up it ends in `:MM:SS`, and it is 8 characters long iff there are fewer than 100 hours. |
| ClockText.ParseClock | observer/activity.py:49-51 | Reads `MM:SS` or `HH:MM:SS` back into its fields, with zero hours for the short form. Anything it accepts has a colon and a non-negative hours field and total. |
| ClockText.FormatRoundTrip | observer/activity.py:44-51 | Parsing the text gives back exactly the hours, minutes and seconds that floor division of the truncated seconds yields, so the printed minutes and seconds are below 60 and add up to the truncated seconds for every non-negative input. For a negative input the hours field is dropped, so the value comes back modulo 3600. |

## Left out

- `observer/runtime.py` is not modelled: the camera loop, the hand-tracking calls, drawing, the clock read and key handling. Its per-frame wiring of gate, classifier, smoother and hold gate into the tracker is not modelled either.
- `gesture_checklines` and `draw_gesture_debug` are imported by observer/runtime.py:9-10 from observer/gestures.py and observer/ui.py, neither of which defines them, so they are not part of this model.
- `app.py` (argument parsing, camera open and release) and `observer/ui.py` (text rendering) are not modelled. The display's use of `snapshot` and `format_seconds` is covered by those members.
- Floating point is not modelled. Coordinates and times are exact reals, so nothing is claimed about rounding at a threshold boundary. `math.hypot` is replaced by squared-distance comparisons, and `Gestures.DistanceComparison` relates the two.
- Gesture labels are a closed datatype, not strings. The tracker's refusal of a gesture that is neither the stop gesture nor in the table is modelled, but every label here is one or the other, so that branch is never taken.
- A smoother window of `None` (an unbounded deque) and a negative window (a `ValueError`) are not modelled. The window is a natural number.
- Multiple hands and the hand-tracking library's result shapes are not modelled: the model takes one landmark set of exactly 21 points.
