/** Geometry predicates over one hand's 21 landmarks, the first-match gesture
    classifier built from them, and the palm-orientation gate. */
module Gestures {
  import opened Base
  import opened Constants

  /** One tracked key point in normalised image coordinates; `z` is relative
      depth, more negative being closer to the camera. */
  datatype Landmark = Landmark(x: real, y: real, z: real)

  /** A landmark set: exactly 21 points with fixed semantic indices. */
  type Hand = s: seq<Landmark> | |s| == 21 witness seq(21, _ => Landmark(0.0, 0.0, 0.0))

  const Wrist: nat := 0
  const ThumbMcp: nat := 2
  const ThumbIp: nat := 3
  const ThumbTip: nat := 4
  /** The middle finger's MCP joint doubles as the palm centre. */
  const PalmCenter: nat := 9

  /** The four non-thumb fingers, with the indices of their joints. */
  datatype Finger = Index | Middle | Ring | Pinky {
    function Mcp(): (i: nat)
      ensures i < 21
    {
      match this
      case Index => 5
      case Middle => 9
      case Ring => 13
      case Pinky => 17
    }
    function Pip(): (i: nat)
      ensures i < 21
    {
      Mcp() + 1
    }
    function Tip(): (i: nat)
      ensures i < 21
    {
      Mcp() + 3
    }
  }

  function Abs(v: real): (r: real)
    ensures r >= 0.0 && (r == v || r == -v)
  {
    if v < 0.0 then -v else v
  }

  /** Square of the distance between two landmarks in the image plane; depth
      plays no part. The program takes `hypot` of the same two differences. */
  function DistSq(a: Landmark, b: Landmark): (r: real)
    ensures r >= 0.0
  {
    (a.x - b.x) * (a.x - b.x) + (a.y - b.y) * (a.y - b.y)
  }

  /** `dist(a, b) < c`, for a non-negative threshold `c`. Nothing is within
      a zero threshold, and no pair is both within and beyond the same one. */
  function Within(a: Landmark, b: Landmark, c: real): (r: bool)
    ensures r ==> c != 0.0
    ensures r ==> !Beyond(a, b, c)
  {
    DistSq(a, b) < c * c
  }

  /** `dist(a, b) > c`, for a non-negative threshold `c`. Landmarks beyond
      any threshold of each other are apart in the image plane. */
  function Beyond(a: Landmark, b: Landmark, c: real): (r: bool)
    ensures r ==> a.x != b.x || a.y != b.y
  {
    DistSq(a, b) > c * c
  }

  /** Squaring is strictly monotone on the non-negative reals. */
  lemma SquareStrict(x: real, y: real)
    requires 0.0 <= x < y
    ensures x * x < y * y
  {
    var lower := x * x;
    var middle := y * x;
    var upper := y * y;
    assert (y - x) * x >= 0.0;
    assert lower <= middle;
    assert (y - x) * y > 0.0;
    assert middle < upper;
  }

  /** The squared comparisons agree with comparing the planar distance
      itself: for the non-negative `d` with `d * d == DistSq(a, b)` (the value
      `hypot` returns) and any non-negative threshold `c`. */
  lemma DistanceComparison(a: Landmark, b: Landmark, d: real, c: real)
    requires d >= 0.0 && d * d == DistSq(a, b) && c >= 0.0
    ensures d < c <==> Within(a, b, c)
    ensures d > c <==> Beyond(a, b, c)
  {
    if d < c {
      SquareStrict(d, c);
    } else if c < d {
      SquareStrict(c, d);
    }
  }

  /** Moving either landmark in depth never changes a distance test. */
  lemma DistanceIgnoresDepth(a: Landmark, b: Landmark, za: real, zb: real)
    ensures DistSq(a.(z := za), b.(z := zb)) == DistSq(a, b)
  {
  }

  /** Tip above PIP above MCP in image-y, by more than 0.05 overall. */
  function FingerExtended(h: Hand, f: Finger): (r: bool)
    ensures r ==> h[f.Tip()].y + 0.05 < h[f.Mcp()].y
    ensures r ==> (FingerCurled(h, f) <==> Within(h[f.Tip()], h[f.Mcp()], 0.11))
  {
    var tip := h[f.Tip()];
    var pip := h[f.Pip()];
    var mcp := h[f.Mcp()];
    tip.y < pip.y < mcp.y && mcp.y - tip.y > 0.05
  }

  /** Tip below PIP, or tip within 0.11 of its own MCP; either suffices, so
      a tip lying on its own MCP always counts. */
  function FingerCurled(h: Hand, f: Finger): (r: bool)
    ensures h[f.Tip()].y > h[f.Pip()].y ==> r
    ensures Within(h[f.Tip()], h[f.Mcp()], 0.11) ==> r
    ensures h[f.Tip()].x == h[f.Mcp()].x && h[f.Tip()].y == h[f.Mcp()].y ==> r
  {
    var tip := h[f.Tip()];
    var pip := h[f.Pip()];
    var mcp := h[f.Mcp()];
    tip.y > pip.y || Within(tip, mcp, 0.11)
  }

  /** An extended finger has its joints strictly ordered upwards, and it
      counts as curled only through the short tip-to-MCP distance. */
  lemma ExtendedFingerCurledOnlyByDistance(h: Hand, f: Finger)
    requires FingerExtended(h, f)
    ensures h[f.Tip()].y < h[f.Pip()].y < h[f.Mcp()].y
    ensures h[f.Mcp()].y - h[f.Tip()].y > 0.05
    ensures FingerCurled(h, f) <==> Within(h[f.Tip()], h[f.Mcp()], 0.11)
  {
  }

  /** The two finger predicates are not exclusive: a finger whose tip is
      0.1 above its MCP is both extended and curled. */
  lemma ExtendedAndCurledOverlap()
    ensures exists h: Hand :: FingerExtended(h, Index) && FingerCurled(h, Index)
  {
    var h: Hand := seq(21, _ => Landmark(0.5, 0.5, 0.0));
    h := h[Index.Pip() := Landmark(0.5, 0.45, 0.0)][Index.Tip() := Landmark(0.5, 0.4, 0.0)];
    assert FingerExtended(h, Index) && FingerCurled(h, Index);
  }

  /** The thumb points up: tip above IP above wrist, at least 0.06 above its
      MCP, more vertical than horizontal by a factor 1.2, and longer than 0.14. */
  function ThumbUpStrict(h: Hand): (r: bool)
    ensures r ==> h[ThumbTip].y < h[Wrist].y && h[ThumbTip].y + 0.06 < h[ThumbMcp].y
    ensures r ==> !ThumbSideExtended(h)
  {
    var tip := h[ThumbTip];
    var ip := h[ThumbIp];
    var mcp := h[ThumbMcp];
    var wrist := h[Wrist];
    var dy := tip.y - mcp.y;
    var dx := tip.x - mcp.x;
    tip.y < ip.y < wrist.y && dy < -0.06 && Abs(dy) > Abs(dx) * 1.2 && Beyond(tip, mcp, 0.14)
  }

  /** The thumb points sideways: more horizontal than vertical, longer than 0.14. */
  function ThumbSideExtended(h: Hand): (r: bool)
    ensures r ==> h[ThumbTip].x != h[ThumbMcp].x
  {
    var tip := h[ThumbTip];
    var mcp := h[ThumbMcp];
    Abs(tip.x - mcp.x) > Abs(tip.y - mcp.y) && Beyond(tip, mcp, 0.14)
  }

  /** The two thumb poses exclude each other: `|dy| > 1.2 |dx|` and
      `|dx| > |dy|` cannot both hold. */
  lemma ThumbPosesExclusive(h: Hand)
    ensures !(ThumbUpStrict(h) && ThumbSideExtended(h))
  {
  }

  predicate AllExtended(h: Hand) {
    FingerExtended(h, Index) && FingerExtended(h, Middle) && FingerExtended(h, Ring) && FingerExtended(h, Pinky)
  }

  predicate AllCurled(h: Hand) {
    FingerCurled(h, Index) && FingerCurled(h, Middle) && FingerCurled(h, Ring) && FingerCurled(h, Pinky)
  }

  predicate ThumbNearPalm(h: Hand) {
    Within(h[ThumbTip], h[PalmCenter], 0.18)
  }

  predicate ThumbAwayFromPalm(h: Hand) {
    Beyond(h[ThumbTip], h[PalmCenter], 0.22)
  }

  /** The condition of the ILY branch as the classifier writes it, including
      its `not thumb_up` guard. */
  predicate IlyPose(h: Hand) {
    FingerExtended(h, Index) && FingerExtended(h, Pinky)
    && FingerCurled(h, Middle) && FingerCurled(h, Ring)
    && ThumbSideExtended(h) && !ThumbUpStrict(h)
  }

  /** The gesture of one frame: the first branch of the cascade FIST, ILY,
      OPEN_PALM, THUMBS_UP whose condition holds, else none. */
  function DetectGesture(h: Hand): (r: Option<Gesture>)
    ensures AllCurled(h) && ThumbNearPalm(h) ==> r == Some(Fist)
    ensures r == Some(Fist) ==> AllCurled(h) && ThumbNearPalm(h)
    ensures r == Some(Ily) ==>
              && FingerExtended(h, Index) && FingerExtended(h, Pinky)
              && FingerCurled(h, Middle) && FingerCurled(h, Ring)
              && ThumbSideExtended(h) && !ThumbUpStrict(h)
              && !(AllCurled(h) && ThumbNearPalm(h))
    ensures r == Some(OpenPalm) ==>
              && AllExtended(h) && ThumbAwayFromPalm(h)
              && !(AllCurled(h) && ThumbNearPalm(h)) && !IlyPose(h)
    ensures r == Some(ThumbsUp) ==>
              && ThumbUpStrict(h) && AllCurled(h) && !ThumbNearPalm(h)
              && !ThumbSideExtended(h)
    ensures r == None ==>
              && !(AllCurled(h) && ThumbNearPalm(h)) && !IlyPose(h)
              && !(AllExtended(h) && ThumbAwayFromPalm(h))
              && !(ThumbUpStrict(h) && AllCurled(h))
  {
    ThumbPosesExclusive(h);
    if AllCurled(h) && ThumbNearPalm(h) then Some(Fist)
    else if IlyPose(h) then Some(Ily)
    else if AllExtended(h) && ThumbAwayFromPalm(h) then Some(OpenPalm)
    else if ThumbUpStrict(h) && AllCurled(h) then Some(ThumbsUp)
    else None
  }

  /** The cascade as an ordered list of (label, condition) rules; the ILY
      rule here omits the `not thumb_up` guard. */
  function Rules(h: Hand): seq<(Gesture, bool)> {
    [ (Fist, AllCurled(h) && ThumbNearPalm(h)),
      (Ily, FingerExtended(h, Index) && FingerExtended(h, Pinky)
            && FingerCurled(h, Middle) && FingerCurled(h, Ring) && ThumbSideExtended(h)),
      (OpenPalm, AllExtended(h) && ThumbAwayFromPalm(h)),
      (ThumbsUp, ThumbUpStrict(h) && AllCurled(h)) ]
  }

  /** The label of the first rule whose condition holds. */
  function FirstMatch(rules: seq<(Gesture, bool)>): (r: Option<Gesture>)
    ensures r.Some? <==> exists i :: 0 <= i < |rules| && rules[i].1
    ensures r.Some? ==> exists i :: 0 <= i < |rules| && rules[i] == (r.value, true)
                                   && forall j :: 0 <= j < i ==> !rules[j].1
  {
    if |rules| == 0 then None
    else if rules[0].1 then Some(rules[0].0)
    else
      var r := FirstMatch(rules[1..]);
      assert forall i :: 1 <= i < |rules| ==> rules[i] == rules[1..][i - 1];
      r
  }

  /** The classifier is exactly the first-match evaluation of the rule
      list; in particular its `not thumb_up` guard on ILY never decides. */
  lemma DetectIsFirstMatch(h: Hand)
    ensures DetectGesture(h) == FirstMatch(Rules(h))
  {
    ThumbPosesExclusive(h);
    var rules := Rules(h);
    assert rules[3..][1..] == [];
    assert FirstMatch(rules[3..]) == if rules[3].1 then Some(ThumbsUp) else None;
    assert rules[2..][1..] == rules[3..];
    assert FirstMatch(rules[2..]) == if rules[2].1 then Some(OpenPalm) else FirstMatch(rules[3..]);
    assert rules[1..][1..] == rules[2..];
    assert FirstMatch(rules[1..]) == if rules[1].1 then Some(Ily) else FirstMatch(rules[2..]);
    assert FirstMatch(rules) == if rules[0].1 then Some(Fist) else FirstMatch(rules[1..]);
  }

  /** Four extended fingers with the thumb far from the palm give OPEN_PALM
      unless the ILY branch fires first, which it can. */
  lemma OpenPalmUnlessIly(h: Hand)
    requires AllExtended(h) && ThumbAwayFromPalm(h)
    ensures DetectGesture(h) == Some(OpenPalm) || DetectGesture(h) == Some(Ily)
    ensures DetectGesture(h) == Some(Ily) <==> IlyPose(h)
  {
    assert !(ThumbNearPalm(h) && ThumbAwayFromPalm(h));
  }

  /** A hand with four extended fingers and the thumb far from the palm that
      the classifier labels ILY: its middle and ring tips lie within 0.11 of
      their MCPs, so they also count as curled, and the thumb points sideways. */
  lemma OpenPalmPreemptedByIly()
    ensures exists h: Hand :: AllExtended(h) && ThumbAwayFromPalm(h) && DetectGesture(h) == Some(Ily)
  {
    var h: Hand := seq(21, _ => Landmark(0.5, 0.9, 0.0));
    h := h[ThumbMcp := Landmark(0.4, 0.7, 0.0)][ThumbTip := Landmark(0.2, 0.7, 0.0)];
    h := h[5 := Landmark(0.45, 0.5, 0.0)][6 := Landmark(0.45, 0.35, 0.0)][8 := Landmark(0.45, 0.2, 0.0)];
    h := h[9 := Landmark(0.5, 0.5, 0.0)][10 := Landmark(0.5, 0.47, 0.0)][12 := Landmark(0.5, 0.42, 0.0)];
    h := h[13 := Landmark(0.55, 0.5, 0.0)][14 := Landmark(0.55, 0.47, 0.0)][16 := Landmark(0.55, 0.42, 0.0)];
    h := h[17 := Landmark(0.6, 0.5, 0.0)][18 := Landmark(0.6, 0.35, 0.0)][20 := Landmark(0.6, 0.2, 0.0)];
    assert AllExtended(h) && ThumbAwayFromPalm(h);
    assert FingerCurled(h, Middle) && FingerCurled(h, Ring) && ThumbSideExtended(h);
    assert !FingerCurled(h, Index);
    assert DetectGesture(h) == Some(Ily);
  }

  /** Sign of the 2-D cross product of wrist->index MCP and wrist->pinky MCP. */
  function NormalZ(h: Hand): (n: real)
    ensures h[5] == h[Wrist] || h[17] == h[Wrist] || h[5] == h[17] ==> n == 0.0
  {
    var v1x := h[5].x - h[Wrist].x;
    var v1y := h[5].y - h[Wrist].y;
    var v2x := h[17].x - h[Wrist].x;
    var v2y := h[17].y - h[Wrist].y;
    v1x * v2y - v1y * v2x
  }

  /** Mean tip-minus-MCP depth of the index, middle and pinky fingers. */
  function DepthScore(h: Hand): (d: real)
    ensures d < 0.0 ==> h[Middle.Tip()].z < h[Middle.Mcp()].z || h[Index.Tip()].z < h[Index.Mcp()].z
                        || h[Pinky.Tip()].z < h[Pinky.Mcp()].z
  {
    var middleDepth := h[Middle.Tip()].z - h[Middle.Mcp()].z;
    var indexDepth := h[Index.Tip()].z - h[Index.Mcp()].z;
    var pinkyDepth := h[Pinky.Tip()].z - h[Pinky.Mcp()].z;
    (middleDepth + indexDepth + pinkyDepth) / 3.0
  }

  /** Fingertips well in front of their knuckles and the palm centre in front
      of the wrist. */
  predicate DepthOk(h: Hand) {
    DepthScore(h) < -0.025 && h[PalmCenter].z - h[Wrist].z < -0.01
  }

  /** Whether the palm, not the back of the hand, faces the camera. */
  function PalmFacingCamera(h: Hand, handedness: Option<string>): (r: bool)
    ensures r ==> Abs(NormalZ(h)) > 0.02 && DepthScore(h) < -0.025 && h[PalmCenter].z - h[Wrist].z < -0.01
    ensures handedness == Some("Right") ==> (r <==> NormalZ(h) < -0.02 && DepthOk(h))
    ensures handedness == Some("Left") ==> (r <==> NormalZ(h) > 0.02 && DepthOk(h))
    ensures handedness != Some("Right") && handedness != Some("Left") ==>
              (r <==> Abs(NormalZ(h)) > 0.03 && DepthOk(h))
  {
    var normalZ := NormalZ(h);
    var strength := Abs(normalZ);
    var orientationOk :=
      if handedness == Some("Right") then normalZ < -0.02
      else if handedness == Some("Left") then normalZ > 0.02
      else strength > 0.03;
    orientationOk && strength > 0.02 && DepthOk(h)
  }

  /** The same landmarks never pass the gate as both a right and a left hand. */
  lemma NotPalmFacingForBothHands(h: Hand)
    ensures !(PalmFacingCamera(h, Some("Right")) && PalmFacingCamera(h, Some("Left")))
  {
  }

  /** The hand mirrored left-to-right in the image. */
  function Mirror(h: Hand): (m: Hand)
    ensures forall i :: 0 <= i < 21 ==> m[i] == h[i].(x := 1.0 - h[i].x)
  {
    seq(21, i requires 0 <= i < 21 => h[i].(x := 1.0 - h[i].x))
  }

  /** Mirroring reverses the chirality sign, so a right hand passes the gate
      exactly when its mirror image passes as a left hand. */
  lemma MirrorSwapsHandedness(h: Hand)
    ensures PalmFacingCamera(h, Some("Right")) == PalmFacingCamera(Mirror(h), Some("Left"))
  {
    var m := Mirror(h);
    var v1x, v1y := h[5].x - h[Wrist].x, h[5].y - h[Wrist].y;
    var v2x, v2y := h[17].x - h[Wrist].x, h[17].y - h[Wrist].y;
    assert m[5].x - m[Wrist].x == -v1x && m[17].x - m[Wrist].x == -v2x;
    assert m[5].y - m[Wrist].y == v1y && m[17].y - m[Wrist].y == v2y;
    assert (-v1x) * v2y - v1y * (-v2x) == -(v1x * v2y - v1y * v2x);
    assert NormalZ(m) == -NormalZ(h);
    assert DepthScore(m) == DepthScore(h);
  }
}
