/**
 * The in-browser gesture classifier of the webcam component
 * (`detectGesture` and the keypoint conversion in `predictHands`).
 *
 * A hand is a sequence of keypoints in the MediaPipe layout: wrist 0,
 * thumb 1-4, index 5-8, middle 9-12, ring 13-16, pinky 17-20, each finger
 * listed from its base to its tip; y grows downwards. The classifier computes
 * one "folded" flag per non-thumb finger and then tries an ordered list of
 * rules; the first rule that holds gives the label.
 *
 * `Classify` is the decision list as the component writes it, with early
 * returns. `FirstMatch` is the same list held as data (a sequence of rule
 * labels tried in order), and `ClassifyIsFirstMatch` proves the two agree; the
 * properties about rule order are proved on `FirstMatch`.
 */
module BrowserGesture {
  import opened Wrappers
  import opened Geometry

  const NO_HAND := "No hand detected"
  const NO_MATCH := "No recognized gesture"
  const TRACKING_FAILED := "Hand detected but tracking failed"

  const FOLDED := "FOLDED"
  const LIKE := "LIKE"
  const DISLIKE := "DISLIKE"
  const OK := "OK"
  const PEACE := "PEACE"
  const STOP := "STOP"
  const FORWARD := "FORWARD"
  const I_LOVE_YOU := "I LOVE YOU"

  /** Fewer keypoints than this means no hand. */
  const MIN_KEYPOINTS: nat := 21

  /** Thumb tip and index tip closer than this (in 3D) make the OK sign. */
  const OK_DISTANCE: real := 0.1

  /** The decision list, in the order the rules are tried. */
  const RULES: seq<string> := [FOLDED, LIKE, DISLIKE, OK, PEACE, STOP, FORWARD, I_LOVE_YOU]

  /** Every label the classifier can return. */
  const OUTPUTS: set<string> := {NO_HAND, FOLDED, OK, PEACE, STOP, FORWARD, I_LOVE_YOU, NO_MATCH}

  /** Folded flags of the index, middle, ring and pinky fingers, in that order. */
  type Folds = s: seq<bool> | |s| == 4 witness [false, false, false, false]

  /** What the rules look at: the four fold flags, three thumb joints and the index tip. */
  datatype Features = Features(folds: Folds, thumbTip: Point, thumbIp: Point, thumbMcp: Point, indexTip: Point)

  /** Keypoint number of the tip of non-thumb finger `k` (0 index, ..., 3 pinky). */
  function TipIndex(k: nat): (tip: nat)
    requires k < 4
  {
    8 + 4 * k
  }

  /**
   * A finger is folded when its tip lies strictly below the joint it is
   * compared with. The test is strict, so a tip level with its joint (or a
   * tip lying on its joint) counts as extended.
   */
  predicate IsFolded(tip: Point, base: Point)
    ensures tip.y == base.y ==> !IsFolded(tip, base)
    ensures IsFolded(tip, base) ==> tip != base
  {
    tip.y > base.y
  }

  /**
   * The features of a hand. Each finger is taken tip first, so element [2]
   * of a finger is its PIP joint (keypoint 6, 10, 14 or 18), and that joint,
   * not the finger's base, is what the tip is compared with. The wrist
   * (keypoint 0) never affects the result.
   */
  function Extract(landmarks: seq<Point>): (f: Features)
    requires |landmarks| >= MIN_KEYPOINTS
    ensures forall k :: 0 <= k < 4 ==> (f.folds[k] <==> landmarks[TipIndex(k)].y > landmarks[TipIndex(k) - 2].y)
    ensures f.thumbTip == landmarks[4] && f.thumbIp == landmarks[3] && f.thumbMcp == landmarks[2]
    ensures f.indexTip == landmarks[8]
  {
    var thumb := [landmarks[4], landmarks[3], landmarks[2], landmarks[1]];
    var indexFinger := [landmarks[8], landmarks[7], landmarks[6], landmarks[5]];
    var middleFinger := [landmarks[12], landmarks[11], landmarks[10], landmarks[9]];
    var ringFinger := [landmarks[16], landmarks[15], landmarks[14], landmarks[13]];
    var pinkyFinger := [landmarks[20], landmarks[19], landmarks[18], landmarks[17]];
    var folds := [IsFolded(indexFinger[0], indexFinger[2]), IsFolded(middleFinger[0], middleFinger[2]),
                  IsFolded(ringFinger[0], ringFinger[2]), IsFolded(pinkyFinger[0], pinkyFinger[2])];
    Features(folds, thumb[0], thumb[1], thumb[2], indexFinger[0])
  }

  predicate AllFolded(folds: Folds)
  {
    folds[0] && folds[1] && folds[2] && folds[3]
  }

  // The rules, one predicate each, as the decision list states them.

  predicate FoldedRule(f: Features)
  {
    AllFolded(f.folds)
  }

  predicate LikeRule(f: Features)
  {
    f.thumbTip.y < f.thumbIp.y && f.thumbIp.y < f.thumbMcp.y && AllFolded(f.folds)
  }

  predicate DislikeRule(f: Features)
  {
    f.thumbTip.y > f.thumbIp.y && f.thumbIp.y > f.thumbMcp.y && AllFolded(f.folds)
  }

  /** The distance test is on squares: see `OkRuleIsDistanceTest`. */
  predicate OkRule(f: Features)
  {
    SqDistance3(f.thumbTip, f.indexTip) < OK_DISTANCE * OK_DISTANCE
    && !f.folds[1] && !f.folds[2] && !f.folds[3]
  }

  predicate PeaceRule(f: Features)
  {
    !f.folds[0] && !f.folds[1] && f.folds[2] && f.folds[3]
  }

  predicate StopRule(f: Features)
  {
    !f.folds[0] && !f.folds[1] && !f.folds[2] && !f.folds[3] && f.thumbTip.y < f.thumbIp.y
  }

  predicate ForwardRule(f: Features)
  {
    !f.folds[0] && f.folds[1] && f.folds[2] && f.folds[3]
  }

  predicate ILoveYouRule(f: Features)
  {
    !f.folds[0] && f.folds[1] && f.folds[2] && !f.folds[3] && f.thumbTip.x > f.thumbIp.x
  }

  /** The rule behind each label of the decision list; any other string names no rule. */
  predicate Holds(f: Features, gesture: string)
  {
    if gesture == FOLDED then FoldedRule(f)
    else if gesture == LIKE then LikeRule(f)
    else if gesture == DISLIKE then DislikeRule(f)
    else if gesture == OK then OkRule(f)
    else if gesture == PEACE then PeaceRule(f)
    else if gesture == STOP then StopRule(f)
    else if gesture == FORWARD then ForwardRule(f)
    else if gesture == I_LOVE_YOU then ILoveYouRule(f)
    else false
  }

  /**
   * The decision list as the component writes it: each rule returns early,
   * so only a rule that holds can give its label, and the fallback is
   * "No recognized gesture".
   */
  function Classify(f: Features): (gesture: string)
    ensures gesture == NO_MATCH || (gesture in RULES && Holds(f, gesture))
  {
    if FoldedRule(f) then FOLDED
    else if LikeRule(f) then LIKE
    else if DislikeRule(f) then DISLIKE
    else if OkRule(f) then OK
    else if PeaceRule(f) then PEACE
    else if StopRule(f) then STOP
    else if ForwardRule(f) then FORWARD
    else if ILoveYouRule(f) then I_LOVE_YOU
    else NO_MATCH
  }

  /**
   * The label of the first rule in `rules` that holds, or `NO_MATCH`: only a
   * label of the list whose rule holds, or `NO_MATCH`, comes out.
   */
  function FirstMatch(f: Features, rules: seq<string>): (gesture: string)
    ensures gesture == NO_MATCH || (gesture in rules && Holds(f, gesture))
    decreases |rules|
  {
    if rules == [] then NO_MATCH
    else if Holds(f, rules[0]) then rules[0]
    else FirstMatch(f, rules[1..])
  }

  /** `detectGesture`: too few keypoints means no hand; otherwise the decision list decides. */
  function DetectGesture(landmarks: seq<Point>): (gesture: string)
    ensures |landmarks| < MIN_KEYPOINTS ==> gesture == NO_HAND
    ensures |landmarks| >= MIN_KEYPOINTS ==> gesture == FirstMatch(Extract(landmarks), RULES)
  {
    if |landmarks| < MIN_KEYPOINTS then NO_HAND
    else
      ClassifyIsFirstMatch(Extract(landmarks));
      Classify(Extract(landmarks))
  }

  // ---------------------------------------------------------------------
  // The decision list as data

  /** The rules written out with early returns try them in the order of `RULES`. */
  lemma ClassifyIsFirstMatch(f: Features)
    ensures Classify(f) == FirstMatch(f, RULES)
  {
    var r := RULES;
    assert r[1..] == [LIKE, DISLIKE, OK, PEACE, STOP, FORWARD, I_LOVE_YOU];
    assert r[2..] == r[1..][1..] == [DISLIKE, OK, PEACE, STOP, FORWARD, I_LOVE_YOU];
    assert r[3..] == r[2..][1..] == [OK, PEACE, STOP, FORWARD, I_LOVE_YOU];
    assert r[4..] == r[3..][1..] == [PEACE, STOP, FORWARD, I_LOVE_YOU];
    assert r[5..] == r[4..][1..] == [STOP, FORWARD, I_LOVE_YOU];
    assert r[6..] == r[5..][1..] == [FORWARD, I_LOVE_YOU];
    assert r[7..] == r[6..][1..] == [I_LOVE_YOU];
    assert r[7..][1..] == [];
    assert FirstMatch(f, r[7..]) == if ILoveYouRule(f) then I_LOVE_YOU else NO_MATCH;
    assert FirstMatch(f, r[6..]) == if ForwardRule(f) then FORWARD else FirstMatch(f, r[7..]);
    assert FirstMatch(f, r[5..]) == if StopRule(f) then STOP else FirstMatch(f, r[6..]);
    assert FirstMatch(f, r[4..]) == if PeaceRule(f) then PEACE else FirstMatch(f, r[5..]);
    assert FirstMatch(f, r[3..]) == if OkRule(f) then OK else FirstMatch(f, r[4..]);
    assert FirstMatch(f, r[2..]) == if DislikeRule(f) then DISLIKE else FirstMatch(f, r[3..]);
    assert FirstMatch(f, r[1..]) == if LikeRule(f) then LIKE else FirstMatch(f, r[2..]);
    assert FirstMatch(f, r) == if FoldedRule(f) then FOLDED else FirstMatch(f, r[1..]);
  }

  /**
   * First match wins: the result is the label of the earliest rule that
   * holds, and `NO_MATCH` when none does.
   */
  lemma {:induction false} FirstMatchIsEarliest(f: Features, rules: seq<string>)
    ensures (forall k :: 0 <= k < |rules| ==> !Holds(f, rules[k])) ==> FirstMatch(f, rules) == NO_MATCH
    ensures forall k :: 0 <= k < |rules| && Holds(f, rules[k]) && (forall j :: 0 <= j < k ==> !Holds(f, rules[j]))
                        ==> FirstMatch(f, rules) == rules[k]
    decreases |rules|
  {
    if rules != [] {
      FirstMatchIsEarliest(f, rules[1..]);
      forall k | 0 <= k < |rules| && Holds(f, rules[k]) && (forall j :: 0 <= j < k ==> !Holds(f, rules[j]))
        ensures FirstMatch(f, rules) == rules[k]
      {
        if k > 0 {
          assert rules[k] == rules[1..][k - 1];
          forall j | 0 <= j < k - 1 ensures !Holds(f, rules[1..][j]) {
            assert rules[1..][j] == rules[j + 1];
          }
        }
      }
      if forall k :: 0 <= k < |rules| ==> !Holds(f, rules[k]) {
        forall j | 0 <= j < |rules| - 1 ensures !Holds(f, rules[1..][j]) {
          assert rules[1..][j] == rules[j + 1];
        }
      }
    }
  }

  /**
   * A rule whose condition implies that of an earlier rule with another label
   * can never be the one chosen: it is dead code.
   */
  lemma ShadowedRuleNeverChosen(f: Features, rules: seq<string>, i: nat, j: nat)
    requires i < j < |rules|
    requires rules[j] !in rules[..j] && rules[j] != NO_MATCH
    requires Holds(f, rules[j]) ==> Holds(f, rules[i])
    ensures FirstMatch(f, rules) != rules[j]
  {
    if Holds(f, rules[j]) {
      FirstMatchIsEarliest(f, rules);
      var m := Earliest(f, rules, i);
      assert rules[m] in rules[..j];
    }
  }

  /** `FirstMatch` over `pre + post` is decided by `pre` when some rule of `pre` holds. */
  lemma {:induction false} FirstMatchAppend(f: Features, pre: seq<string>, post: seq<string>)
    ensures FirstMatch(f, pre + post) ==
            if exists k :: 0 <= k < |pre| && Holds(f, pre[k]) then FirstMatch(f, pre) else FirstMatch(f, post)
    decreases |pre|
  {
    if pre != [] {
      assert (pre + post)[0] == pre[0];
      assert (pre + post)[1..] == pre[1..] + post;
      FirstMatchAppend(f, pre[1..], post);
      if !Holds(f, pre[0]) {
        if exists k :: 0 <= k < |pre[1..]| && Holds(f, pre[1..][k]) {
          var k :| 0 <= k < |pre[1..]| && Holds(f, pre[1..][k]);
          assert Holds(f, pre[k + 1]);
        }
        if exists k :: 0 <= k < |pre| && Holds(f, pre[k]) {
          var k :| 0 <= k < |pre| && Holds(f, pre[k]);
          assert Holds(f, pre[1..][k - 1]);
        }
      }
    } else {
      assert pre + post == post;
    }
  }

  /** At most one distinct label of `seg` has a rule that holds. */
  predicate AtMostOneHolds(f: Features, seg: seq<string>)
  {
    forall i, j :: 0 <= i < |seg| && 0 <= j < |seg| && Holds(f, seg[i]) && Holds(f, seg[j]) ==> seg[i] == seg[j]
  }

  /** When at most one label of `seg` has a rule that holds, `FirstMatch` does not depend on their order. */
  lemma FirstMatchOfExclusive(f: Features, seg: seq<string>, gesture: string)
    requires AtMostOneHolds(f, seg)
    requires gesture in seg && Holds(f, gesture)
    ensures FirstMatch(f, seg) == gesture
  {
    FirstMatchIsEarliest(f, seg);
    var k :| 0 <= k < |seg| && seg[k] == gesture;
    var m := Earliest(f, seg, k);
    assert seg[m] == gesture;
  }

  /** The index of the earliest rule of `seg` that holds, given that rule `k` holds. */
  ghost function Earliest(f: Features, seg: seq<string>, k: nat): (m: nat)
    requires k < |seg| && Holds(f, seg[k])
    ensures m <= k && Holds(f, seg[m]) && forall j :: 0 <= j < m ==> !Holds(f, seg[j])
  {
    if exists j :: 0 <= j < k && Holds(f, seg[j]) then
      var j :| 0 <= j < k && Holds(f, seg[j]);
      Earliest(f, seg, j)
    else k
  }

  /**
   * Rules that cannot hold together may be tried in any order: putting the
   * labels of `seg1` in another order after the same `pre` gives the same result.
   */
  lemma ExclusiveRulesReorder(f: Features, pre: seq<string>, seg1: seq<string>, seg2: seq<string>)
    requires multiset(seg1) == multiset(seg2)
    requires AtMostOneHolds(f, seg1)
    ensures FirstMatch(f, pre + seg1) == FirstMatch(f, pre + seg2)
  {
    FirstMatchAppend(f, pre, seg1);
    FirstMatchAppend(f, pre, seg2);
    ExclusiveSegmentsAgree(f, seg1, seg2);
  }

  /** Two orders of the same mutually exclusive rules give the same first match. */
  lemma ExclusiveSegmentsAgree(f: Features, seg1: seq<string>, seg2: seq<string>)
    requires multiset(seg1) == multiset(seg2)
    requires AtMostOneHolds(f, seg1)
    ensures FirstMatch(f, seg1) == FirstMatch(f, seg2)
  {
    SameLabels(seg1, seg2);
    AtMostOneHoldsPermuted(f, seg1, seg2);
    if exists k :: 0 <= k < |seg1| && Holds(f, seg1[k]) {
      var k :| 0 <= k < |seg1| && Holds(f, seg1[k]);
      FirstMatchOfExclusive(f, seg1, seg1[k]);
      FirstMatchOfExclusive(f, seg2, seg1[k]);
    } else {
      FirstMatchIsEarliest(f, seg1);
      FirstMatchIsEarliest(f, seg2);
      forall k | 0 <= k < |seg2| ensures !Holds(f, seg2[k]) {
        assert seg2[k] in seg1;
      }
    }
  }

  lemma SameLabels(seg1: seq<string>, seg2: seq<string>)
    requires multiset(seg1) == multiset(seg2)
    ensures forall x :: x in seg1 <==> x in seg2
  {
    forall x ensures x in seg1 <==> x in seg2 {
      assert x in multiset(seg1) <==> x in multiset(seg2);
    }
  }

  lemma AtMostOneHoldsPermuted(f: Features, seg1: seq<string>, seg2: seq<string>)
    requires forall x :: x in seg1 <==> x in seg2
    requires AtMostOneHolds(f, seg1)
    ensures AtMostOneHolds(f, seg2)
  {
    forall i, j | 0 <= i < |seg2| && 0 <= j < |seg2| && Holds(f, seg2[i]) && Holds(f, seg2[j])
      ensures seg2[i] == seg2[j]
    {
      assert seg2[i] in seg1 && seg2[j] in seg1;
      var a :| 0 <= a < |seg1| && seg1[a] == seg2[i];
      var b :| 0 <= b < |seg1| && seg1[b] == seg2[j];
    }
  }

  // ---------------------------------------------------------------------
  // Properties of the browser classifier

  /**
   * The fold patterns of PEACE (extended, extended, folded, folded), STOP
   * (all extended), FORWARD (extended, folded, folded, folded) and I LOVE YOU
   * (extended, folded, folded, extended) are pairwise different, so at most
   * one of these rules holds.
   */
  lemma FoldPatternsDisjoint(f: Features)
    ensures AtMostOneHolds(f, RULES[4..])
  {
    assert RULES[4..] == [PEACE, STOP, FORWARD, I_LOVE_YOU];
  }

  /** The last four rules may be tried in any order without changing any result. */
  lemma FoldPatternOrderIrrelevant(landmarks: seq<Point>, order: seq<string>)
    requires |landmarks| >= MIN_KEYPOINTS
    requires multiset(order) == multiset([PEACE, STOP, FORWARD, I_LOVE_YOU])
    ensures FirstMatch(Extract(landmarks), RULES[..4] + order) == DetectGesture(landmarks)
  {
    var f := Extract(landmarks);
    FoldPatternsDisjoint(f);
    assert RULES[4..] == [PEACE, STOP, FORWARD, I_LOVE_YOU];
    assert RULES == RULES[..4] + RULES[4..];
    ExclusiveRulesReorder(f, RULES[..4], RULES[4..], order);
  }

  /**
   * LIKE and DISLIKE are never returned: each needs all four fingers folded,
   * and that alone already makes the earlier FOLDED rule fire.
   */
  lemma LikeAndDislikeUnreachable(landmarks: seq<Point>)
    ensures DetectGesture(landmarks) != LIKE && DetectGesture(landmarks) != DISLIKE
  {
    if |landmarks| >= MIN_KEYPOINTS {
      var f := Extract(landmarks);
      assert RULES[..1] == [FOLDED] && RULES[..2] == [FOLDED, LIKE];
      ShadowedRuleNeverChosen(f, RULES, 0, 1);
      ShadowedRuleNeverChosen(f, RULES, 0, 2);
    }
  }

  /** The result always lies in the closed set `OUTPUTS`. */
  lemma DetectGestureOutputs(landmarks: seq<Point>)
    ensures DetectGesture(landmarks) in OUTPUTS
  {
    if |landmarks| >= MIN_KEYPOINTS {
      LikeAndDislikeUnreachable(landmarks);
    }
  }

  /** With all four fingers folded the result is FOLDED, whatever the thumb does. */
  lemma AllFoldedIsFolded(landmarks: seq<Point>)
    requires |landmarks| >= MIN_KEYPOINTS
    requires forall k :: 0 <= k < 4 ==> landmarks[TipIndex(k)].y > landmarks[TipIndex(k) - 2].y
    ensures DetectGesture(landmarks) == FOLDED
  {
    var f := Extract(landmarks);
    assert f.folds[0] && f.folds[1] && f.folds[2] && f.folds[3];
  }

  /**
   * OK is returned exactly when not all four fingers are folded, the thumb
   * tip is within 0.1 of the index tip (squared distance below 0.01) and the
   * middle, ring and pinky fingers are not folded.
   */
  lemma OkIff(landmarks: seq<Point>)
    ensures DetectGesture(landmarks) == OK <==>
      |landmarks| >= MIN_KEYPOINTS
      && !(landmarks[8].y > landmarks[6].y && landmarks[12].y > landmarks[10].y
           && landmarks[16].y > landmarks[14].y && landmarks[20].y > landmarks[18].y)
      && SqDistance3(landmarks[4], landmarks[8]) < 0.01
      && !(landmarks[12].y > landmarks[10].y) && !(landmarks[16].y > landmarks[14].y)
      && !(landmarks[20].y > landmarks[18].y)
  {
    if |landmarks| >= MIN_KEYPOINTS {
      var f := Extract(landmarks);
      ClassifyIsFirstMatch(f);
      assert TipIndex(0) == 8 && TipIndex(1) == 12 && TipIndex(2) == 16 && TipIndex(3) == 20;
    }
  }

  /**
   * A hand whose keypoints all coincide is labelled OK: no finger is folded,
   * since the fold test is strict, and the thumb-index distance is 0.
   */
  lemma CoincidentKeypointsAreOk(landmarks: seq<Point>)
    requires |landmarks| >= MIN_KEYPOINTS
    requires forall i :: 0 <= i < |landmarks| ==> landmarks[i] == landmarks[0]
    ensures DetectGesture(landmarks) == OK
  {
    OkIff(landmarks);
    assert landmarks[4] == landmarks[8];
  }

  /**
   * OK takes precedence over STOP: with all fingers extended, the thumb tip
   * above its IP joint and the thumb tip within 0.1 of the index tip, the
   * result is OK.
   */
  lemma OkBeatsStop(landmarks: seq<Point>)
    requires |landmarks| >= MIN_KEYPOINTS
    requires forall k :: 0 <= k < 4 ==> !(landmarks[TipIndex(k)].y > landmarks[TipIndex(k) - 2].y)
    requires landmarks[4].y < landmarks[3].y
    requires SqDistance3(landmarks[4], landmarks[8]) < OK_DISTANCE * OK_DISTANCE
    ensures StopRule(Extract(landmarks))
    ensures DetectGesture(landmarks) == OK
  {
    var f := Extract(landmarks);
    ClassifyIsFirstMatch(f);
    assert !f.folds[0] && !f.folds[1] && !f.folds[2] && !f.folds[3];
  }

  /** When no rule holds, the result is "No recognized gesture", and only then (for a whole hand). */
  lemma NoMatchIffNoRuleHolds(landmarks: seq<Point>)
    requires |landmarks| >= MIN_KEYPOINTS
    ensures DetectGesture(landmarks) == NO_MATCH <==> forall k :: 0 <= k < |RULES| ==> !Holds(Extract(landmarks), RULES[k])
  {
    var f := Extract(landmarks);
    FirstMatchIsEarliest(f, RULES);
    if exists k :: 0 <= k < |RULES| && Holds(f, RULES[k]) {
      var k :| 0 <= k < |RULES| && Holds(f, RULES[k]);
      var m := Earliest(f, RULES, k);
      assert RULES[m] != NO_MATCH;
    }
  }

  /** The rule on squared distances decides as the component's square-root distance test. */
  lemma OkRuleIsDistanceTest(f: Features, distance: real)
    requires distance >= 0.0 && distance * distance == SqDistance3(f.thumbTip, f.indexTip)
    ensures OkRule(f) <==> distance < OK_DISTANCE && !f.folds[1] && !f.folds[2] && !f.folds[3]
  {
    SqrtThreshold(distance, SqDistance3(f.thumbTip, f.indexTip), OK_DISTANCE);
  }

  /** Only keypoints 1 to 20 are read: the wrist and anything after keypoint 20 do not matter. */
  lemma OnlyKeypointsOneToTwentyMatter(landmarks: seq<Point>, other: seq<Point>)
    requires |landmarks| >= MIN_KEYPOINTS && |other| >= MIN_KEYPOINTS
    requires landmarks[1..MIN_KEYPOINTS] == other[1..MIN_KEYPOINTS]
    ensures DetectGesture(landmarks) == DetectGesture(other)
  {
    forall i | 1 <= i < MIN_KEYPOINTS ensures landmarks[i] == other[i] {
      assert landmarks[i] == landmarks[1..MIN_KEYPOINTS][i - 1];
    }
    assert Extract(landmarks) == Extract(other);
  }

  // ---------------------------------------------------------------------
  // From detector output to the displayed label

  /** One hand prediction of the detector: pixel keypoints and, when present, normalised 3D keypoints. */
  datatype Prediction = Prediction(keypoints: seq<Point>, keypoints3D: Option<seq<Point>>)

  /**
   * The keypoints handed to `DetectGesture`: the 3D keypoints when present,
   * otherwise the pixel keypoints divided by the video size, with depth 0.
   */
  function Normalize(hand: Prediction, videoWidth: real, videoHeight: real): (landmarks: seq<Point>)
    requires videoWidth > 0.0 && videoHeight > 0.0
    ensures hand.keypoints3D.Some? ==> landmarks == hand.keypoints3D.value
    ensures hand.keypoints3D.None? ==>
      |landmarks| == |hand.keypoints|
      && forall i :: 0 <= i < |landmarks| ==>
           landmarks[i].x * videoWidth == hand.keypoints[i].x
           && landmarks[i].y * videoHeight == hand.keypoints[i].y
           && landmarks[i].z == 0.0
  {
    match hand.keypoints3D
    case Some(k3) => k3
    case None =>
      seq(|hand.keypoints|, i requires 0 <= i < |hand.keypoints| =>
        Point(hand.keypoints[i].x / videoWidth, hand.keypoints[i].y / videoHeight, 0.0))
  }

  /** A pixel keypoint inside the video frame becomes a keypoint inside the unit square. */
  lemma NormalizeInFrame(hand: Prediction, videoWidth: real, videoHeight: real, i: nat)
    requires videoWidth > 0.0 && videoHeight > 0.0
    requires hand.keypoints3D.None? && i < |hand.keypoints|
    requires 0.0 <= hand.keypoints[i].x <= videoWidth && 0.0 <= hand.keypoints[i].y <= videoHeight
    ensures var p := Normalize(hand, videoWidth, videoHeight)[i];
            0.0 <= p.x <= 1.0 && 0.0 <= p.y <= 1.0
  {
  }

  /**
   * The label one frame publishes: no prediction means no hand; a first
   * prediction without any keypoint is a tracking failure; otherwise its
   * normalised keypoints are classified.
   */
  function FrameLabel(predictions: seq<Prediction>, videoWidth: real, videoHeight: real): (gesture: string)
    requires videoWidth > 0.0 && videoHeight > 0.0
    ensures predictions == [] ==> gesture == NO_HAND
    ensures predictions != [] && predictions[0].keypoints == [] ==> gesture == TRACKING_FAILED
    ensures predictions != [] && predictions[0].keypoints != [] ==>
              gesture == DetectGesture(Normalize(predictions[0], videoWidth, videoHeight))
    ensures gesture == TRACKING_FAILED || gesture in OUTPUTS
  {
    if predictions == [] then NO_HAND
    else
      var hand := predictions[0];
      if |hand.keypoints| == 0 then TRACKING_FAILED
      else
        var landmarks := Normalize(hand, videoWidth, videoHeight);
        DetectGestureOutputs(landmarks);
        DetectGesture(landmarks)
  }

  /**
   * The overlay is green unless the label is one of the two "nothing
   * recognised" sentinels: among the classifier's outputs, exactly the rule
   * labels are shown in green.
   */
  predicate OverlayIsGreen(gesture: string)
    ensures gesture in OUTPUTS ==> (OverlayIsGreen(gesture) <==> gesture in RULES)
  {
    gesture != NO_HAND && gesture != NO_MATCH
  }

  /** The overlay turns green exactly when a whole hand is seen and some rule of the list holds. */
  lemma OverlayGreenIffRuleHolds(landmarks: seq<Point>)
    ensures OverlayIsGreen(DetectGesture(landmarks)) <==>
      |landmarks| >= MIN_KEYPOINTS && exists k :: 0 <= k < |RULES| && Holds(Extract(landmarks), RULES[k])
  {
    if |landmarks| >= MIN_KEYPOINTS {
      NoMatchIffNoRuleHolds(landmarks);
    }
  }

  /** A tracking failure is shown in green, like a recognised gesture. */
  lemma TrackingFailureShownGreen(predictions: seq<Prediction>, videoWidth: real, videoHeight: real)
    requires videoWidth > 0.0 && videoHeight > 0.0
    requires predictions != [] && predictions[0].keypoints == []
    ensures FrameLabel(predictions, videoWidth, videoHeight) == TRACKING_FAILED
    ensures OverlayIsGreen(FrameLabel(predictions, videoWidth, videoHeight))
  {
  }
}
