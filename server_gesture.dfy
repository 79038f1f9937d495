/**
 * The gesture endpoint of the Python recognition server (`recognize_gesture`).
 *
 * It strips a data-URL prefix from the posted image text, lets the hand
 * detector find hands, and classifies each hand with a cascade of rules in
 * which the last rule that holds wins: `detected_gesture` is overwritten by
 * every rule whose condition holds. The label survives from one hand to the
 * next. The label is finally paired with its meaning from
 * `SUPPORTED_GESTURES`. Decoding the image and running the detector are a
 * parameter of the model (`detect`).
 *
 * Keypoints use the MediaPipe layout (wrist 0, thumb 1-4, index 5-8,
 * middle 9-12, ring 13-16, pinky 17-20, each finger base to tip); y grows
 * downwards. A finger counts as folded here when its tip's x is strictly
 * less than the x of the joint three below it (its base).
 */
module ServerGesture {
  import opened Wrappers
  import opened Geometry
  import opened PyStrings

  /** The landmarks of one detected hand, in detector order. */
  type Hand = seq<Point>

  const FINGER_TIPS: seq<nat> := [8, 12, 16, 20]
  const THUMB_TIP: nat := 4

  /** The cascade reads landmarks up to number 20, so a hand needs this many. */
  const HAND_SIZE: nat := 21

  const NO_HAND := "No hand detected"
  const ERROR := "Error"
  const NO_GESTURE_MEANING := "No gesture detected"
  const FAILED_MEANING := "Failed to process image"
  const INVALID_FORMAT := "Invalid image format"
  /** The message of the IndexError raised when a hand has too few landmarks. */
  const INDEX_ERROR := "list index out of range"
  /** The marker that ends a data-URL prefix. */
  const DATA_URL_MARKER := "base64,"

  const LIKE := "LIKE"
  const DISLIKE := "DISLIKE"
  const OK := "OK"
  const PEACE := "PEACE"
  const CALL_ME := "CALL ME"
  const STOP := "STOP"
  const FORWARD := "FORWARD"
  const LEFT := "LEFT"
  const RIGHT := "RIGHT"
  const I_LOVE_YOU := "I LOVE YOU"

  /** Distance thresholds, in normalised image units (x and y only). */
  const OK_DISTANCE: real := 0.05
  const PEACE_DISTANCE: real := 0.05
  const CALL_ME_DISTANCE: real := 0.4

  /** The rules of the cascade, in the order they are evaluated. */
  const CASCADE: seq<string> := [LIKE, DISLIKE, OK, PEACE, CALL_ME, STOP, FORWARD, LEFT, RIGHT, I_LOVE_YOU]

  const SUPPORTED_GESTURES: map<string, string> := map[
    LIKE := "Thumbs-up gesture - indicates approval or agreement",
    DISLIKE := "Thumbs-down gesture - indicates disapproval or disagreement",
    OK := "Thumb and index finger forming a circle - indicates everything is good",
    PEACE := "Index and middle fingers extended in a V shape - represents peace",
    CALL_ME := "Thumb and pinky extended, other fingers folded - mimics a phone",
    STOP := "All fingers extended with palm facing forward - signals to stop",
    FORWARD := "Index finger pointing forward, other fingers folded - indicates direction",
    LEFT := "Hand pointing to the left - indicates left direction",
    RIGHT := "Hand pointing to the right - indicates right direction",
    I_LOVE_YOU := "Index finger and pinky extended with thumb out - sign language for 'I love you'"
  ]

  /** The labels a successful classification can end with. */
  const HAND_LABELS: set<string> := SUPPORTED_GESTURES.Keys + {NO_HAND}

  // ---------------------------------------------------------------------
  // Data-URL prefix

  /**
   * `image_data.split("base64,")[1]` when the marker occurs, else the text
   * unchanged. The payload never contains the marker.
   */
  function ImagePayload(imageData: string): (payload: string)
    ensures !Contains(imageData, DATA_URL_MARKER) ==> payload == imageData
    ensures !Contains(payload, DATA_URL_MARKER)
  {
    if Contains(imageData, DATA_URL_MARKER) then
      SplitPartsFree(imageData, DATA_URL_MARKER);
      Split(imageData, DATA_URL_MARKER)[1]
    else imageData
  }

  lemma FindFirst(s: string, sep: string, from: nat, i: nat)
    requires |sep| > 0 && from <= i && OccursAt(s, sep, i)
    requires forall k :: from <= k < i ==> !OccursAt(s, sep, k)
    ensures Find(s, sep, from) == Some(i)
  {
  }

  /**
   * When the marker first occurs at `i` and next occurs at `j` (or `j` is the
   * end of the text), the payload is exactly the text between them.
   */
  lemma PayloadBetweenMarkers(s: string, i: nat, j: nat)
    requires OccursAt(s, DATA_URL_MARKER, i)
    requires forall k :: 0 <= k < i ==> !OccursAt(s, DATA_URL_MARKER, k)
    requires i + |DATA_URL_MARKER| <= j <= |s|
    requires forall k :: i + |DATA_URL_MARKER| <= k < j ==> !OccursAt(s, DATA_URL_MARKER, k)
    requires j == |s| || OccursAt(s, DATA_URL_MARKER, j)
    ensures ImagePayload(s) == s[i + |DATA_URL_MARKER|..j]
  {
    var m := DATA_URL_MARKER;
    var d := i + |m|;
    var rest := s[d..];
    FindFirst(s, m, 0, i);
    assert Split(s, m) == [s[..i]] + Split(rest, m);
    if j == |s| {
      forall k: nat ensures !OccursAt(rest, m, k) {
        OccursInSuffix(s, m, d, k);
      }
      assert Find(rest, m, 0) == None;
      assert rest == s[d..j];
    } else {
      forall k | 0 <= k < j - d ensures !OccursAt(rest, m, k) {
        OccursInSuffix(s, m, d, k);
      }
      OccursInSuffix(s, m, d, j - d);
      FindFirst(rest, m, 0, j - d);
      assert rest[..j - d] == s[d..j];
    }
  }

  /** The marker ends in a comma, so no occurrence can start inside a comma-free header. */
  lemma NoMarkerInHeader(header: string, payload: string, k: nat)
    requires ',' !in header && k < |header|
    ensures !OccursAt(header + DATA_URL_MARKER + payload, DATA_URL_MARKER, k)
  {
    var s := header + DATA_URL_MARKER + payload;
    if k + 6 < |header| {
      assert s[k + 6] == header[k + 6];
    } else {
      assert s[k + 6] == DATA_URL_MARKER[k + 6 - |header|];
    }
    assert s[k + 6] != ',';
  }

  /**
   * A data URL whose header has no comma and whose payload does not contain
   * the marker gives back exactly the payload. Base64 text never contains a
   * comma, so it never contains the marker.
   */
  lemma DataUrlRoundTrip(header: string, payload: string)
    requires ',' !in header
    requires !Contains(payload, DATA_URL_MARKER)
    ensures ImagePayload(header + DATA_URL_MARKER + payload) == payload
  {
    var m := DATA_URL_MARKER;
    var s := header + m + payload;
    var i := |header|;
    assert s[i..i + |m|] == m;
    forall k | 0 <= k < i ensures !OccursAt(s, m, k) {
      NoMarkerInHeader(header, payload, k);
    }
    forall k | i + |m| <= k < |s| ensures !OccursAt(s, m, k) {
      assert s[i + |m|..] == payload;
      OccursInSuffix(s, m, i + |m|, k - (i + |m|));
    }
    PayloadBetweenMarkers(s, i, |s|);
    assert s[i + |m|..] == payload;
  }

  // ---------------------------------------------------------------------
  // Fold status

  /** Finger `k` (0 index, ..., 3 pinky) is folded when its tip lies left of its base. */
  function Folds(lm: Hand): (folds: seq<bool>)
    requires |lm| >= HAND_SIZE
    ensures |folds| == 4
    ensures folds[0] == (lm[8].x < lm[5].x) && folds[1] == (lm[12].x < lm[9].x)
    ensures folds[2] == (lm[16].x < lm[13].x) && folds[3] == (lm[20].x < lm[17].x)
  {
    seq(4, k requires 0 <= k < 4 => lm[FINGER_TIPS[k]].x < lm[FINGER_TIPS[k] - 3].x)
  }

  /**
   * The loop over `finger_tips`. Reading a landmark the hand does not have
   * raises IndexError, which happens exactly when the hand has fewer than
   * `HAND_SIZE` landmarks.
   */
  method FingerFoldStatus(lmList: Hand) returns (r: Result<seq<bool>>)
    ensures |lmList| < HAND_SIZE ==> r == Err(INDEX_ERROR)
    ensures |lmList| >= HAND_SIZE ==> r == Ok(Folds(lmList))
  {
    var status: seq<bool> := [];
    for t := 0 to |FINGER_TIPS|
      invariant forall k :: 0 <= k < t ==> FINGER_TIPS[k] < |lmList|
      invariant |status| == t
      invariant forall k :: 0 <= k < t ==> status[k] == (lmList[FINGER_TIPS[k]].x < lmList[FINGER_TIPS[k] - 3].x)
    {
      var tip := FINGER_TIPS[t];
      if tip >= |lmList| {
        return Err(INDEX_ERROR);
      }
      if lmList[tip].x < lmList[tip - 3].x {
        status := status + [true];
      } else {
        status := status + [false];
      }
    }
    assert FINGER_TIPS[3] < |lmList|;
    assert forall k :: 0 <= k < 4 ==> status[k] == Folds(lmList)[k];
    assert status == Folds(lmList);
    return Ok(status);
  }

  // ---------------------------------------------------------------------
  // The rules of the cascade

  predicate AllTrue(folds: seq<bool>)
  {
    forall k :: 0 <= k < |folds| ==> folds[k]
  }

  predicate LikeRule(lm: Hand, folds: seq<bool>)
    requires |lm| >= HAND_SIZE && |folds| == 4
  {
    lm[THUMB_TIP].y < lm[THUMB_TIP - 1].y < lm[THUMB_TIP - 2].y && AllTrue(folds)
  }

  predicate DislikeRule(lm: Hand, folds: seq<bool>)
    requires |lm| >= HAND_SIZE && |folds| == 4
  {
    lm[THUMB_TIP].y > lm[THUMB_TIP - 1].y > lm[THUMB_TIP - 2].y && AllTrue(folds)
  }

  /** Thumb tip within 0.05 of the index tip (on squares), middle, ring and pinky not folded. */
  predicate OkRule(lm: Hand, folds: seq<bool>)
    requires |lm| >= HAND_SIZE && |folds| == 4
  {
    SqDistance2(lm[THUMB_TIP], lm[8]) < OK_DISTANCE * OK_DISTANCE
    && !folds[1] && !folds[2] && !folds[3]
  }

  /** Thumb tip near the ring tip, ring tip near the pinky tip, index and middle not folded. */
  predicate PeaceRule(lm: Hand, folds: seq<bool>)
    requires |lm| >= HAND_SIZE && |folds| == 4
  {
    SqDistance2(lm[THUMB_TIP], lm[16]) < PEACE_DISTANCE * PEACE_DISTANCE
    && SqDistance2(lm[16], lm[20]) < PEACE_DISTANCE * PEACE_DISTANCE
    && !folds[0] && !folds[1]
  }

  /** Index, middle and pinky folded, thumb tip farther than 0.4 from the pinky tip. */
  predicate CallMeRule(lm: Hand, folds: seq<bool>)
    requires |lm| >= HAND_SIZE && |folds| == 4
  {
    folds[0] && folds[1] && folds[3]
    && SqDistance2(lm[THUMB_TIP], lm[20]) > CALL_ME_DISTANCE * CALL_ME_DISTANCE
  }

  /** Thumb and every finger rising strictly from base to tip. */
  predicate StopRule(lm: Hand)
    requires |lm| >= HAND_SIZE
  {
    lm[THUMB_TIP].y < lm[THUMB_TIP - 1].y < lm[THUMB_TIP - 2].y
    && lm[8].y < lm[6].y < lm[5].y
    && lm[12].y < lm[10].y < lm[9].y
    && lm[16].y < lm[14].y < lm[13].y
    && lm[20].y < lm[18].y < lm[17].y
  }

  predicate ForwardRule(lm: Hand)
    requires |lm| >= HAND_SIZE
  {
    lm[8].y < lm[6].y < lm[5].y
    && lm[12].y > lm[11].y > lm[10].y
    && lm[16].y > lm[15].y > lm[14].y
    && lm[20].y > lm[19].y > lm[18].y
    && lm[THUMB_TIP].x > lm[THUMB_TIP - 1].x
  }

  predicate LeftRule(lm: Hand)
    requires |lm| >= HAND_SIZE
  {
    lm[4].y < lm[2].y
    && lm[8].x < lm[6].x
    && lm[12].x > lm[10].x
    && lm[16].x > lm[14].x
    && lm[20].x > lm[18].x
    && lm[5].x < lm[0].x
  }

  predicate RightRule(lm: Hand)
    requires |lm| >= HAND_SIZE
  {
    lm[4].y < lm[2].y
    && lm[8].x > lm[6].x
    && lm[12].x < lm[10].x
    && lm[16].x < lm[14].x
    && lm[20].x < lm[18].x
  }

  predicate ILoveYouRule(lm: Hand)
    requires |lm| >= HAND_SIZE
  {
    lm[8].y < lm[6].y < lm[5].y
    && lm[12].y > lm[11].y > lm[10].y
    && lm[16].y > lm[15].y > lm[14].y
    && lm[20].y < lm[19].y < lm[18].y
    && lm[THUMB_TIP].x > lm[THUMB_TIP - 1].x
  }

  /** The rule behind each label of the cascade; any other string names no rule. */
  predicate Holds(lm: Hand, folds: seq<bool>, gesture: string)
    requires |lm| >= HAND_SIZE && |folds| == 4
  {
    if gesture == LIKE then LikeRule(lm, folds)
    else if gesture == DISLIKE then DislikeRule(lm, folds)
    else if gesture == OK then OkRule(lm, folds)
    else if gesture == PEACE then PeaceRule(lm, folds)
    else if gesture == CALL_ME then CallMeRule(lm, folds)
    else if gesture == STOP then StopRule(lm)
    else if gesture == FORWARD then ForwardRule(lm)
    else if gesture == LEFT then LeftRule(lm)
    else if gesture == RIGHT then RightRule(lm)
    else if gesture == I_LOVE_YOU then ILoveYouRule(lm)
    else false
  }

  /**
   * The label of the last rule in `rules` that holds, or `current` when none
   * holds: only the starting label or a label of the list whose rule holds
   * comes out.
   */
  function LastMatch(lm: Hand, folds: seq<bool>, rules: seq<string>, current: string): (gesture: string)
    requires |lm| >= HAND_SIZE && |folds| == 4
    ensures gesture == current || (gesture in rules && Holds(lm, folds, gesture))
    decreases |rules|
  {
    if rules == [] then current
    else if Holds(lm, folds, rules[|rules| - 1]) then rules[|rules| - 1]
    else LastMatch(lm, folds, rules[..|rules| - 1], current)
  }

  /**
   * The label after running the whole cascade on one hand, starting from
   * `current`: that label, or a key of the dictionary whose rule holds.
   */
  function Cascade(lm: Hand, current: string): (gesture: string)
    requires |lm| >= HAND_SIZE
    ensures gesture == current || (gesture in SUPPORTED_GESTURES && Holds(lm, Folds(lm), gesture))
  {
    LastMatch(lm, Folds(lm), CASCADE, current)
  }

  // ---------------------------------------------------------------------
  // Classifying the hands

  /**
   * One pass of the hand loop: copy the landmarks, compute the fold status
   * and let every rule that holds overwrite the label, in cascade order.
   */
  method ClassifyHand(landmarks: Hand, detected: string) returns (r: Result<string>)
    ensures |landmarks| < HAND_SIZE ==> r == Err(INDEX_ERROR)
    ensures |landmarks| >= HAND_SIZE ==> r == Ok(Cascade(landmarks, detected))
  {
    var lmList: Hand := [];
    for i := 0 to |landmarks|
      invariant lmList == landmarks[..i]
    {
      lmList := lmList + [landmarks[i]];
    }
    assert lmList == landmarks;
    var foldStatus := FingerFoldStatus(lmList);
    if foldStatus.Err? {
      return Err(foldStatus.message);
    }
    var folds := foldStatus.value;
    var gesture := detected;
    if LikeRule(lmList, folds) { gesture := LIKE; }
    if DislikeRule(lmList, folds) { gesture := DISLIKE; }
    if OkRule(lmList, folds) { gesture := OK; }
    if PeaceRule(lmList, folds) { gesture := PEACE; }
    if CallMeRule(lmList, folds) { gesture := CALL_ME; }
    if StopRule(lmList) { gesture := STOP; }
    if ForwardRule(lmList) { gesture := FORWARD; }
    if LeftRule(lmList) { gesture := LEFT; }
    if RightRule(lmList) { gesture := RIGHT; }
    if ILoveYouRule(lmList) { gesture := I_LOVE_YOU; }
    CascadeUnfolded(lmList, folds, detected);
    return Ok(gesture);
  }

  /**
   * The label of a request's hands: the cascade runs hand after hand,
   * carrying the label along. The only failure is the IndexError of a short
   * hand; a success ends with the starting label or a key of the dictionary.
   */
  function HandsLabel(hands: seq<Hand>, detected: string): (r: Result<string>)
    ensures hands == [] ==> r == Ok(detected)
    ensures r.Err? ==> r.message == INDEX_ERROR
    ensures r.Ok? ==> r.value == detected || r.value in SUPPORTED_GESTURES
    decreases |hands|
  {
    if hands == [] then Ok(detected)
    else if |hands[0]| < HAND_SIZE then Err(INDEX_ERROR)
    else HandsLabel(hands[1..], Cascade(hands[0], detected))
  }

  /** The loop over the detected hands; the label starts as "No hand detected" once, before it. */
  method DetectGestures(hands: seq<Hand>) returns (r: Result<string>)
    ensures r == HandsLabel(hands, NO_HAND)
  {
    var detected := NO_HAND;
    for i := 0 to |hands|
      invariant HandsLabel(hands[i..], detected) == HandsLabel(hands, NO_HAND)
    {
      assert hands[i..][1..] == hands[i + 1..];
      var step := ClassifyHand(hands[i], detected);
      if step.Err? {
        return step;
      }
      detected := step.value;
    }
    return Ok(detected);
  }

  // ---------------------------------------------------------------------
  // The response

  /**
   * The dictionary entry for a gesture, or "No gesture detected" when it is
   * not a key. No entry has the default text, so the default comes out
   * exactly for a gesture that is not a key.
   */
  function Meaning(gesture: string): (meaning: string)
    ensures meaning == NO_GESTURE_MEANING <==> gesture !in SUPPORTED_GESTURES
  {
    if gesture in SUPPORTED_GESTURES then SUPPORTED_GESTURES[gesture] else NO_GESTURE_MEANING
  }

  /** The `image` field of the request body. */
  datatype ImageField = Missing | Text(text: string) | NotText

  /** The JSON object the endpoint returns; `error` is present only on failure. */
  datatype Response = Response(error: Option<string>, gesture: string, meaning: string)

  function Failure(message: string): (response: Response)
  {
    Response(Some(message), ERROR, FAILED_MEANING)
  }

  /** `data_json.get("image", "")` for a field that is a string or absent. */
  function ImageText(image: ImageField): (text: string)
    requires !image.NotText?
  {
    if image.Text? then image.text else ""
  }

  /**
   * `recognize_gesture`. `detect` stands for decoding the payload and
   * running the hand detector; `Err` is an exception raised there.
   */
  method RecognizeGesture(image: ImageField, detect: string -> Result<seq<Hand>>) returns (resp: Response)
    ensures image.NotText? ==> resp == Failure(INVALID_FORMAT)
    ensures !image.NotText? ==>
      match detect(ImagePayload(ImageText(image)))
      case Err(message) => resp == Failure(message)
      case Ok(hands) =>
        match HandsLabel(hands, NO_HAND)
        case Err(message) => resp == Failure(message)
        case Ok(gesture) => resp == Response(None, gesture, Meaning(gesture))
    ensures resp.gesture in HAND_LABELS || resp.gesture == ERROR
    ensures resp.error.Some? <==> resp.gesture == ERROR
  {
    var imageData: string;
    match image {
      case NotText => return Failure(INVALID_FORMAT);
      case Missing => imageData := "";
      case Text(text) => imageData := text;
    }
    var base64Image := ImagePayload(imageData);
    var detection := detect(base64Image);
    if detection.Err? {
      return Failure(detection.message);
    }
    var outcome := DetectGestures(detection.value);
    if outcome.Err? {
      return Failure(outcome.message);
    }
    ErrorIsNotAHandLabel();
    return Response(None, outcome.value, Meaning(outcome.value));
  }

  // ---------------------------------------------------------------------
  // Properties of the cascade

  /** The cascade written out from its last rule to its first. */
  lemma CascadeUnfolded(lm: Hand, folds: seq<bool>, current: string)
    requires |lm| >= HAND_SIZE && |folds| == 4
    ensures LastMatch(lm, folds, CASCADE, current) ==
      if ILoveYouRule(lm) then I_LOVE_YOU
      else if RightRule(lm) then RIGHT
      else if LeftRule(lm) then LEFT
      else if ForwardRule(lm) then FORWARD
      else if StopRule(lm) then STOP
      else if CallMeRule(lm, folds) then CALL_ME
      else if PeaceRule(lm, folds) then PEACE
      else if OkRule(lm, folds) then OK
      else if DislikeRule(lm, folds) then DISLIKE
      else if LikeRule(lm, folds) then LIKE
      else current
  {
    HoldsDispatch(lm, folds);
    var p0: seq<string> := [];
    var p1 := p0 + [LIKE];
    var p2 := p1 + [DISLIKE];
    var p3 := p2 + [OK];
    var p4 := p3 + [PEACE];
    var p5 := p4 + [CALL_ME];
    var p6 := p5 + [STOP];
    var p7 := p6 + [FORWARD];
    var p8 := p7 + [LEFT];
    var p9 := p8 + [RIGHT];
    var p10 := p9 + [I_LOVE_YOU];
    assert p10 == CASCADE;
    LastMatchSnoc(lm, folds, p0, LIKE, current);
    LastMatchSnoc(lm, folds, p1, DISLIKE, current);
    LastMatchSnoc(lm, folds, p2, OK, current);
    LastMatchSnoc(lm, folds, p3, PEACE, current);
    LastMatchSnoc(lm, folds, p4, CALL_ME, current);
    LastMatchSnoc(lm, folds, p5, STOP, current);
    LastMatchSnoc(lm, folds, p6, FORWARD, current);
    LastMatchSnoc(lm, folds, p7, LEFT, current);
    LastMatchSnoc(lm, folds, p8, RIGHT, current);
    LastMatchSnoc(lm, folds, p9, I_LOVE_YOU, current);
  }

  /** Each label of the cascade names its own rule. */
  lemma HoldsDispatch(lm: Hand, folds: seq<bool>)
    requires |lm| >= HAND_SIZE && |folds| == 4
    ensures Holds(lm, folds, LIKE) == LikeRule(lm, folds)
    ensures Holds(lm, folds, DISLIKE) == DislikeRule(lm, folds)
    ensures Holds(lm, folds, OK) == OkRule(lm, folds)
    ensures Holds(lm, folds, PEACE) == PeaceRule(lm, folds)
    ensures Holds(lm, folds, CALL_ME) == CallMeRule(lm, folds)
    ensures Holds(lm, folds, STOP) == StopRule(lm)
    ensures Holds(lm, folds, FORWARD) == ForwardRule(lm)
    ensures Holds(lm, folds, LEFT) == LeftRule(lm)
    ensures Holds(lm, folds, RIGHT) == RightRule(lm)
    ensures Holds(lm, folds, I_LOVE_YOU) == ILoveYouRule(lm)
  {
  }

  /** Appending a rule: it decides the label when it holds, the earlier rules decide otherwise. */
  lemma LastMatchSnoc(lm: Hand, folds: seq<bool>, rules: seq<string>, rule: string, current: string)
    requires |lm| >= HAND_SIZE && |folds| == 4
    ensures LastMatch(lm, folds, rules + [rule], current)
            == if Holds(lm, folds, rule) then rule else LastMatch(lm, folds, rules, current)
  {
    assert (rules + [rule])[..|rules|] == rules;
  }

  /** Last match wins: when no rule holds, the label it started from stays. */
  lemma {:induction false} LastMatchNoneHolds(lm: Hand, folds: seq<bool>, rules: seq<string>, current: string)
    requires |lm| >= HAND_SIZE && |folds| == 4
    requires forall k :: 0 <= k < |rules| ==> !Holds(lm, folds, rules[k])
    ensures LastMatch(lm, folds, rules, current) == current
    decreases |rules|
  {
    if rules != [] {
      var init := rules[..|rules| - 1];
      assert forall j :: 0 <= j < |init| ==> init[j] == rules[j];
      LastMatchNoneHolds(lm, folds, init, current);
    }
  }

  /** Last match wins: the label is that of the latest rule that holds, whatever holds before it. */
  lemma {:induction false} LastMatchIsLatest(lm: Hand, folds: seq<bool>, rules: seq<string>, current: string, k: nat)
    requires |lm| >= HAND_SIZE && |folds| == 4
    requires k < |rules| && Holds(lm, folds, rules[k])
    requires forall j :: k < j < |rules| ==> !Holds(lm, folds, rules[j])
    ensures LastMatch(lm, folds, rules, current) == rules[k]
    decreases |rules|
  {
    var n := |rules| - 1;
    if k < n {
      var init := rules[..n];
      assert forall j :: 0 <= j < n ==> init[j] == rules[j];
      LastMatchIsLatest(lm, folds, init, current, k);
    }
  }

  /** Two neighbouring rules that cannot hold together may be swapped without changing any result. */
  lemma {:induction false} LastMatchSwap(lm: Hand, folds: seq<bool>, pre: seq<string>, a: string, b: string,
                                         post: seq<string>, current: string)
    requires |lm| >= HAND_SIZE && |folds| == 4
    requires !(Holds(lm, folds, a) && Holds(lm, folds, b))
    ensures LastMatch(lm, folds, pre + [a, b] + post, current) == LastMatch(lm, folds, pre + [b, a] + post, current)
    decreases |post|
  {
    var s1 := pre + [a, b] + post;
    var s2 := pre + [b, a] + post;
    if post == [] {
      assert s1[..|s1| - 1] == pre + [a] && (pre + [a])[..|pre|] == pre;
      assert s2[..|s2| - 1] == pre + [b] && (pre + [b])[..|pre|] == pre;
    } else {
      var n := |post| - 1;
      assert s1[|s1| - 1] == post[n] == s2[|s2| - 1];
      assert s1[..|s1| - 1] == pre + [a, b] + post[..n];
      assert s2[..|s2| - 1] == pre + [b, a] + post[..n];
      LastMatchSwap(lm, folds, pre, a, b, post[..n], current);
    }
  }

  /**
   * LIKE and DISLIKE need opposite thumb chains, LEFT and RIGHT opposite
   * index-finger x orders, FORWARD and I LOVE YOU opposite pinky chains:
   * neither pair can hold together.
   */
  lemma ExclusivePairs(lm: Hand, folds: seq<bool>)
    requires |lm| >= HAND_SIZE && |folds| == 4
    ensures !(LikeRule(lm, folds) && DislikeRule(lm, folds))
    ensures !(LeftRule(lm) && RightRule(lm))
    ensures !(ForwardRule(lm) && ILoveYouRule(lm))
  {
  }

  /** Evaluating DISLIKE before LIKE and RIGHT before LEFT gives the same label on every hand. */
  lemma ExclusivePairsCommute(lm: Hand, current: string)
    requires |lm| >= HAND_SIZE
    ensures LastMatch(lm, Folds(lm), [DISLIKE, LIKE, OK, PEACE, CALL_ME, STOP, FORWARD, RIGHT, LEFT, I_LOVE_YOU], current)
            == Cascade(lm, current)
  {
    var folds := Folds(lm);
    ExclusivePairs(lm, folds);
    var middle := [OK, PEACE, CALL_ME, STOP, FORWARD];
    var tail := [LEFT, RIGHT, I_LOVE_YOU];
    var swapped := [DISLIKE, LIKE] + middle + tail;
    assert [] + [LIKE, DISLIKE] + (middle + tail) == CASCADE;
    assert [] + [DISLIKE, LIKE] + (middle + tail) == swapped;
    LastMatchSwap(lm, folds, [], LIKE, DISLIKE, middle + tail, current);
    assert LastMatch(lm, folds, swapped, current) == Cascade(lm, current);
    var pre := [DISLIKE, LIKE] + middle;
    assert pre + [LEFT, RIGHT] + [I_LOVE_YOU] == swapped;
    assert pre + [RIGHT, LEFT] + [I_LOVE_YOU] == [DISLIKE, LIKE, OK, PEACE, CALL_ME, STOP, FORWARD, RIGHT, LEFT, I_LOVE_YOU];
    LastMatchSwap(lm, folds, pre, LEFT, RIGHT, [I_LOVE_YOU], current);
  }

  /**
   * STOP is the final label exactly when its chains all rise and neither
   * LEFT nor RIGHT holds: FORWARD and I LOVE YOU, also later in the cascade,
   * need a falling middle finger and so can never hold together with STOP.
   */
  lemma StopIff(lm: Hand, current: string)
    requires |lm| >= HAND_SIZE && current != STOP
    ensures Cascade(lm, current) == STOP <==> StopRule(lm) && !LeftRule(lm) && !RightRule(lm)
  {
    CascadeUnfolded(lm, Folds(lm), current);
  }

  /** A hand labelled OK (by its own rule) has thumb and index tips within 0.05 and fingers 1-3 not folded. */
  lemma OkRequires(lm: Hand, current: string)
    requires |lm| >= HAND_SIZE && current != OK && Cascade(lm, current) == OK
    ensures SqDistance2(lm[THUMB_TIP], lm[8]) < OK_DISTANCE * OK_DISTANCE
    ensures !Folds(lm)[1] && !Folds(lm)[2] && !Folds(lm)[3]
  {
    CascadeUnfolded(lm, Folds(lm), current);
  }

  /** A hand labelled PEACE has thumb-ring and ring-pinky tips within 0.05 and index and middle not folded. */
  lemma PeaceRequires(lm: Hand, current: string)
    requires |lm| >= HAND_SIZE && current != PEACE && Cascade(lm, current) == PEACE
    ensures SqDistance2(lm[THUMB_TIP], lm[16]) < PEACE_DISTANCE * PEACE_DISTANCE
    ensures SqDistance2(lm[16], lm[20]) < PEACE_DISTANCE * PEACE_DISTANCE
    ensures !Folds(lm)[0] && !Folds(lm)[1]
  {
    CascadeUnfolded(lm, Folds(lm), current);
  }

  /** A hand labelled CALL ME has index, middle and pinky folded and thumb and pinky tips more than 0.4 apart. */
  lemma CallMeRequires(lm: Hand, current: string)
    requires |lm| >= HAND_SIZE && current != CALL_ME && Cascade(lm, current) == CALL_ME
    ensures Folds(lm)[0] && Folds(lm)[1] && Folds(lm)[3]
    ensures SqDistance2(lm[THUMB_TIP], lm[20]) > CALL_ME_DISTANCE * CALL_ME_DISTANCE
  {
    CascadeUnfolded(lm, Folds(lm), current);
  }

  // ---------------------------------------------------------------------
  // Properties of the hand loop and the response

  /** A request fails with IndexError exactly when one of its hands has too few landmarks. */
  lemma {:induction false} HandsLabelErrorIff(hands: seq<Hand>, detected: string)
    ensures HandsLabel(hands, detected).Err? <==> exists k :: 0 <= k < |hands| && |hands[k]| < HAND_SIZE
    decreases |hands|
  {
    if hands != [] && |hands[0]| >= HAND_SIZE {
      HandsLabelErrorIff(hands[1..], Cascade(hands[0], detected));
      if exists k :: 0 <= k < |hands| && |hands[k]| < HAND_SIZE {
        var k :| 0 <= k < |hands| && |hands[k]| < HAND_SIZE;
        assert hands[1..][k - 1] == hands[k];
      }
      if exists k :: 0 <= k < |hands[1..]| && |hands[1..][k]| < HAND_SIZE {
        var k :| 0 <= k < |hands[1..]| && |hands[1..][k]| < HAND_SIZE;
        assert hands[k + 1] == hands[1..][k];
      }
    }
  }

  lemma ErrorIsNotAHandLabel()
    ensures ERROR !in HAND_LABELS
  {
    assert ERROR !in SUPPORTED_GESTURES;
  }

  /**
   * The label is set once, before the hand loop: a later hand on which no
   * rule holds keeps the label of the hand before it.
   */
  lemma UnmatchedHandKeepsEarlierLabel(first: Hand, second: Hand)
    requires |first| >= HAND_SIZE && |second| >= HAND_SIZE
    requires forall k :: 0 <= k < |CASCADE| ==> !Holds(second, Folds(second), CASCADE[k])
    ensures HandsLabel([first, second], NO_HAND) == Ok(Cascade(first, NO_HAND))
  {
    var earlier := Cascade(first, NO_HAND);
    LastMatchNoneHolds(second, Folds(second), CASCADE, earlier);
    assert [first, second][1..] == [second];
    assert [second][1..] == [];
    assert HandsLabel([second], earlier) == HandsLabel([], Cascade(second, earlier));
  }

  /** Every rule of the cascade has an entry in the dictionary, and the dictionary has no other keys. */
  lemma DictionaryKeysAreCascadeLabels()
    ensures SUPPORTED_GESTURES.Keys == set g | g in CASCADE
  {
  }

  /**
   * A request without hands keeps the initial label "No hand detected",
   * which has no entry, so it gets the default meaning.
   */
  lemma NoHandMeaning()
    ensures HandsLabel([], NO_HAND) == Ok(NO_HAND)
    ensures Meaning(NO_HAND) == NO_GESTURE_MEANING
  {
  }

  /** The OK rule on squares decides as the `** 0.5` thumb-index distance compared with 0.05. */
  lemma OkRuleMatchesSqrt(lm: Hand, dThumbIndex: real)
    requires |lm| >= HAND_SIZE
    requires dThumbIndex >= 0.0 && dThumbIndex * dThumbIndex == SqDistance2(lm[THUMB_TIP], lm[8])
    ensures OkRule(lm, Folds(lm)) <==> dThumbIndex < OK_DISTANCE && !Folds(lm)[1] && !Folds(lm)[2] && !Folds(lm)[3]
  {
    SqrtThreshold(dThumbIndex, SqDistance2(lm[THUMB_TIP], lm[8]), OK_DISTANCE);
  }

  /** The PEACE rule on squares decides as the `** 0.5` thumb-ring and ring-pinky distances compared with 0.05. */
  lemma PeaceRuleMatchesSqrt(lm: Hand, dThumbRing: real, dRingPinky: real)
    requires |lm| >= HAND_SIZE
    requires dThumbRing >= 0.0 && dThumbRing * dThumbRing == SqDistance2(lm[THUMB_TIP], lm[16])
    requires dRingPinky >= 0.0 && dRingPinky * dRingPinky == SqDistance2(lm[16], lm[20])
    ensures PeaceRule(lm, Folds(lm)) <==>
      dThumbRing < PEACE_DISTANCE && dRingPinky < PEACE_DISTANCE && !Folds(lm)[0] && !Folds(lm)[1]
  {
    SqrtThreshold(dThumbRing, SqDistance2(lm[THUMB_TIP], lm[16]), PEACE_DISTANCE);
    SqrtThreshold(dRingPinky, SqDistance2(lm[16], lm[20]), PEACE_DISTANCE);
  }

  /** The CALL ME rule on squares decides as the `** 0.5` thumb-pinky distance compared with 0.4. */
  lemma CallMeRuleMatchesSqrt(lm: Hand, dThumbPinky: real)
    requires |lm| >= HAND_SIZE
    requires dThumbPinky >= 0.0 && dThumbPinky * dThumbPinky == SqDistance2(lm[THUMB_TIP], lm[20])
    ensures CallMeRule(lm, Folds(lm)) <==> Folds(lm)[0] && Folds(lm)[1] && Folds(lm)[3] && dThumbPinky > CALL_ME_DISTANCE
  {
    SqrtThreshold(dThumbPinky, SqDistance2(lm[THUMB_TIP], lm[20]), CALL_ME_DISTANCE);
  }
}
