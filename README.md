# Gesture classifiers: a Dafny model

This project models the two hand-gesture classifiers of the gesture
recognition app and proves properties of them. Both read the 21 MediaPipe
hand keypoints: wrist 0, then thumb 1-4, index 5-8, middle 9-12, ring 13-16
and pinky 17-20, each finger listed from base to tip. The y coordinate
grows downwards.

* **Browser classifier** (`components/webcam-stream.tsx`), module
  `BrowserGesture`. `detectGesture` is a decision list with early returns,
  so the first rule that holds wins. A finger counts as folded when its tip
  lies strictly below its PIP joint. The rules are tried in this order:
  FOLDED, LIKE, DISLIKE, OK, PEACE, STOP, FORWARD, I LOVE YOU, and
  "No recognized gesture" is the fallback. The model also covers:
  * how the first prediction's keypoints are normalised by the video size;
  * the "No hand detected" and tracking-failure labels;
  * when the overlay turns green.
  The code is pure, so it is modelled as functions and lemmas. `Classify`
  is the if-chain as written. `FirstMatch` over `RULES` is the same list
  held as data, and a lemma ties the two together.
* **Server classifier** (`gesture_recognizer/main.py`), module
  `ServerGesture`. The endpoint works like this:
  * It strips a data-URL prefix from the posted image text. The hand
    detector then runs; in the model it is a parameter.
  * For each hand, a loop copies the landmarks and another loop computes
    four fold flags. A finger is folded when its tip's x is strictly less
    than its base's x.
  * Ten `if` statements overwrite one label variable, so the last rule that
    holds wins. The label is set once, before the hand loop, and carries
    over from hand to hand.
  * The label is returned with its entry in `SUPPORTED_GESTURES`, or
    "No gesture detected" when it has none. An exception raised anywhere
    yields the gesture "Error".

  This code updates variables step by step. Its loops and the cascade are
  methods (`FingerFoldStatus`, `ClassifyHand`, `DetectGestures`,
  `RecognizeGesture`), proved against the specification functions `Folds`,
  `LastMatch`/`Cascade` and `HandsLabel`.

Supporting modules:

* `Geometry`: points, squared distances, and the lemma that a
  square-root distance compared with a threshold gives the same decision as
  the squared distance compared with the squared threshold.
* `PyStrings`: Python's `in` on strings and `str.split`, with the
  split/join round trip.
* `Wrappers`: `Option` and `Result`.

An exception caught by the server's `except` clause is modelled as
`Err(message)` of a `Result`. A hand with fewer than 21 landmarks raises
IndexError in the fold loop: `Err("list index out of range")`.

## Code and descriptions

Two places where the code does something other than what its descriptions suggest. The model follows the code in both.

- The server's CALL ME entry says "thumb and pinky extended, other fingers folded". The rule at main.py:151 instead requires the pinky's fold flag to be set, and it never looks at the ring finger. `ServerGesture.CallMeRequires` states the rule as the code has it.
- In the browser, a hand whose 21 keypoints all coincide is labelled OK. The thumb-index distance is 0, and no finger counts as folded, because the fold test is strict (webcam-stream.tsx:94, 114). `BrowserGesture.CoincidentKeypointsAreOk` proves it.

## Model

| member | source | states |
|---|---|---|
| Geometry.SqrtThreshold | components/webcam-stream.tsx:77-79 | for a non-negative distance d with d*d equal to the squared distance, d < t and d > t hold exactly when the squared distance is below or above t*t |
| Geometry.SqDistance2 | gesture_recognizer/main.py:130-132 | the planar squared distance is non-negative and never exceeds the 3D one |
| Geometry.SqDistance3 | components/webcam-stream.tsx:77-79 | the squared 3D distance is non-negative and at least each coordinate's squared difference |
| PyStrings.Find | gesture_recognizer/main.py:78-79 | finds the first occurrence of the separator at or after `from`, or proves that there is none |
| PyStrings.Contains | gesture_recognizer/main.py:78 | Python's `sep in s`: for a non-empty separator it holds exactly when `Find` from index 0 succeeds |
| PyStrings.Split | gesture_recognizer/main.py:79 | Python's `str.split`: always at least one part, and two or more (so `[1]` exists) exactly when the separator occurs in the text |
| PyStrings.JoinSplit | gesture_recognizer/main.py:79 | joining the parts of `str.split` with the separator gives back the original text |
| PyStrings.SplitPartsFree | gesture_recognizer/main.py:79 | no part produced by `str.split` contains the separator |
| BrowserGesture.Extract | components/webcam-stream.tsx:82-97 | fold flag k is true exactly when tip 8+4k lies strictly below joint 6+4k; the thumb joints are keypoints 4, 3, 2 and the index tip is keypoint 8 |
| BrowserGesture.IsFolded | components/webcam-stream.tsx:93-95 | `isFolded`: tip strictly below the compared joint; a tip level with its joint, or lying on it, counts as extended |
| BrowserGesture.DetectGesture | components/webcam-stream.tsx:73-139 | fewer than 21 keypoints gives "No hand detected"; otherwise the result is the first rule of the decision list that holds |
| BrowserGesture.Classify | components/webcam-stream.tsx:99-138 | the early-return chain as written; it yields "No recognized gesture" or a label of the rule list whose rule holds |
| BrowserGesture.FirstMatch | components/webcam-stream.tsx:99-138 | the rule list held as data, tried from the front: yields "No recognized gesture" or a label of the list whose rule holds |
| BrowserGesture.ClassifyIsFirstMatch | components/webcam-stream.tsx:99-138 | the early-return chain equals the first-match evaluation of the rule list FOLDED, LIKE, DISLIKE, OK, PEACE, STOP, FORWARD, I LOVE YOU |
| BrowserGesture.FirstMatchIsEarliest | components/webcam-stream.tsx:99-138 | the result is the label of the earliest rule that holds, and "No recognized gesture" when no rule holds |
| BrowserGesture.FirstMatchAppend | components/webcam-stream.tsx:99-138 | over a concatenated rule list, the front part decides whenever one of its rules holds |
| BrowserGesture.ShadowedRuleNeverChosen | components/webcam-stream.tsx:100-110 | a rule whose condition implies that of an earlier rule with another label is never chosen |
| BrowserGesture.FirstMatchOfExclusive | components/webcam-stream.tsx:118-136 | when at most one label of a list has a rule that holds, that label is the result |
| BrowserGesture.ExclusiveRulesReorder | components/webcam-stream.tsx:118-136 | mutually exclusive rules may be tried in any permutation after the same prefix without changing the result |
| BrowserGesture.ExclusiveSegmentsAgree | components/webcam-stream.tsx:118-136 | two orders (same multiset) of rules of which at most one holds give the same first match |
| BrowserGesture.FoldPatternsDisjoint | components/webcam-stream.tsx:118-136 | the fold patterns of PEACE, STOP, FORWARD and I LOVE YOU are pairwise disjoint: at most one of them holds |
| BrowserGesture.FoldPatternOrderIrrelevant | components/webcam-stream.tsx:118-136 | any order of the last four rules gives the same label as the source's order |
| BrowserGesture.LikeAndDislikeUnreachable | components/webcam-stream.tsx:100-110 | LIKE and DISLIKE are never returned, because both need all fingers folded and FOLDED is tested first |
| BrowserGesture.DetectGestureOutputs | components/webcam-stream.tsx:73-139 | the result is one of No hand detected, FOLDED, OK, PEACE, STOP, FORWARD, I LOVE YOU, No recognized gesture |
| BrowserGesture.AllFoldedIsFolded | components/webcam-stream.tsx:100 | with all four fingers folded (strict tip-below-PIP), the result is FOLDED whatever the thumb does |
| BrowserGesture.OkIff | components/webcam-stream.tsx:112-116 | OK holds exactly when there are at least 21 keypoints, not all fingers are folded, the thumb tip is within 0.1 of the index tip (3D) and middle, ring and pinky are not folded |
| BrowserGesture.CoincidentKeypointsAreOk | components/webcam-stream.tsx:112-116 | a hand of at least 21 keypoints that all coincide is labelled OK: nothing counts as folded and the thumb-index distance is 0 |
| BrowserGesture.OkBeatsStop | components/webcam-stream.tsx:112-126 | a hand that meets STOP's condition and has the thumb tip within 0.1 of the index tip is labelled OK |
| BrowserGesture.NoMatchIffNoRuleHolds | components/webcam-stream.tsx:138 | for a whole hand, "No recognized gesture" comes out exactly when no rule of the list holds |
| BrowserGesture.OkRuleIsDistanceTest | components/webcam-stream.tsx:113-114 | the OK rule on squared distances decides as the square-root distance test against 0.1 |
| BrowserGesture.OnlyKeypointsOneToTwentyMatter | components/webcam-stream.tsx:82-87 | two inputs that agree on keypoints 1 to 20 get the same label: the wrist (read into `wrist` at line 87 but never used) and keypoints after 20 never affect the label |
| BrowserGesture.Normalize | components/webcam-stream.tsx:167-173 | keypoints3D are used when present; otherwise each keypoint is divided by the video width and height, with z set to 0, keeping the count |
| BrowserGesture.NormalizeInFrame | components/webcam-stream.tsx:169-173 | a pixel keypoint inside the frame is normalised into the unit square |
| BrowserGesture.FrameLabel | components/webcam-stream.tsx:153-182 | no prediction gives "No hand detected"; a first prediction without keypoints gives the tracking-failure text; otherwise the label is `DetectGesture` of the first prediction's normalised keypoints, one of the classifier's outputs |
| BrowserGesture.OverlayIsGreen | components/webcam-stream.tsx:227 | the overlay-colour test; among the classifier's outputs, exactly the rule labels are shown green |
| BrowserGesture.OverlayGreenIffRuleHolds | components/webcam-stream.tsx:227 | the overlay is green exactly when the hand has at least 21 keypoints and some rule of the list holds |
| BrowserGesture.TrackingFailureShownGreen | components/webcam-stream.tsx:159-163 | a first prediction without keypoints gives the tracking-failure label, and the overlay shows it in green |
| ServerGesture.ImagePayload | gesture_recognizer/main.py:78-81 | text without the marker is kept as it is; the payload never contains "base64," |
| ServerGesture.PayloadBetweenMarkers | gesture_recognizer/main.py:78-79 | the payload is exactly the text between the first and the second occurrence of the marker (or the end of the text) |
| ServerGesture.DataUrlRoundTrip | gesture_recognizer/main.py:78-79 | a data URL with a comma-free header followed by "base64," and a payload gives back exactly that payload |
| ServerGesture.Folds | gesture_recognizer/main.py:112-116 | four flags: index, middle, ring and pinky are folded when tip 8/12/16/20 has x strictly less than joint 5/9/13/17 |
| ServerGesture.FingerFoldStatus | gesture_recognizer/main.py:112-116 | the loop returns `Folds` for a hand of at least 21 landmarks, and the IndexError for a shorter hand |
| ServerGesture.ClassifyHand | gesture_recognizer/main.py:101-198 | the copy loop, the fold loop and the ten `if`s give the cascade's label for a whole hand, and the IndexError otherwise |
| ServerGesture.LastMatch | gesture_recognizer/main.py:118-198 | the overwriting `if` sequence held as data, decided from the back: yields the starting label or a label of the list whose rule holds |
| ServerGesture.Cascade | gesture_recognizer/main.py:118-198 | the ten rules in source order from a starting label: yields that label or a dictionary key whose rule holds |
| ServerGesture.HandsLabel | gesture_recognizer/main.py:96-198 | the label after all hands, carried from hand to hand; with no hands it is the starting label; the only failure is the IndexError, and a success is the starting label or a dictionary key |
| ServerGesture.DetectGestures | gesture_recognizer/main.py:96-198 | the hand loop, starting from "No hand detected", yields `HandsLabel` of the hands: the cascade is applied hand after hand, and a short hand gives an error |
| ServerGesture.RecognizeGesture | gesture_recognizer/main.py:71-212 | a non-string image gives Invalid image format; otherwise a detector error or an IndexError gives Error with "Failed to process image"; otherwise the label and its meaning. The gesture is always a dictionary key, No hand detected or Error, and the error field is present exactly with Error |
| ServerGesture.CascadeUnfolded | gesture_recognizer/main.py:118-198 | the cascade's label is that of the last of the ten rules that holds, read from I LOVE YOU back to LIKE, and otherwise the label it started from |
| ServerGesture.LastMatchNoneHolds | gesture_recognizer/main.py:118-198 | when no rule holds, the label keeps its previous value |
| ServerGesture.LastMatchIsLatest | gesture_recognizer/main.py:118-198 | when rule k holds and no later rule holds, the label is rule k's, whatever earlier rules hold |
| ServerGesture.LastMatchSwap | gesture_recognizer/main.py:118-198 | two neighbouring rules that cannot hold together can be swapped without changing the label |
| ServerGesture.ExclusivePairs | gesture_recognizer/main.py:119-198 | LIKE and DISLIKE, LEFT and RIGHT, and FORWARD and I LOVE YOU never hold together |
| ServerGesture.ExclusivePairsCommute | gesture_recognizer/main.py:119-190 | evaluating DISLIKE before LIKE and RIGHT before LEFT gives the same label for every hand |
| ServerGesture.StopIff | gesture_recognizer/main.py:159-198 | starting from another label, the hand is labelled STOP exactly when all five chains rise and neither LEFT nor RIGHT holds |
| ServerGesture.OkRequires | gesture_recognizer/main.py:129-136 | a hand labelled OK has thumb and index tips within 0.05 and middle, ring and pinky not folded |
| ServerGesture.PeaceRequires | gesture_recognizer/main.py:138-148 | a hand labelled PEACE has thumb-ring and ring-pinky tips within 0.05 and index and middle not folded |
| ServerGesture.CallMeRequires | gesture_recognizer/main.py:150-157 | a hand labelled CALL ME has index, middle and pinky folded and thumb and pinky tips more than 0.4 apart |
| ServerGesture.HandsLabelErrorIff | gesture_recognizer/main.py:98-116 | the hand loop fails exactly when some hand has fewer than 21 landmarks |
| ServerGesture.UnmatchedHandKeepsEarlierLabel | gesture_recognizer/main.py:96-100 | a second hand on which no rule holds keeps the label of the first hand, because the label is initialised only once |
| ServerGesture.DictionaryKeysAreCascadeLabels | gesture_recognizer/main.py:45-56 | the dictionary's keys are exactly the ten labels of the cascade |
| ServerGesture.Meaning | gesture_recognizer/main.py:207 | `SUPPORTED_GESTURES.get(g, "No gesture detected")`; the default comes out exactly when the gesture is not a key |
| ServerGesture.NoHandMeaning | gesture_recognizer/main.py:96-208 | with no hands the label stays "No hand detected", whose meaning is the default "No gesture detected" |
| ServerGesture.OkRuleMatchesSqrt | gesture_recognizer/main.py:130-136 | the OK rule on squared distances decides as the source's `** 0.5` thumb-index distance compared with 0.05, plus the three fold tests |
| ServerGesture.PeaceRuleMatchesSqrt | gesture_recognizer/main.py:139-148 | the PEACE rule on squared distances decides as the source's two `** 0.5` distances (thumb-ring, ring-pinky) compared with 0.05, plus the two fold tests |
| ServerGesture.CallMeRuleMatchesSqrt | gesture_recognizer/main.py:151-157 | the CALL ME rule on squared distances decides as the source's `** 0.5` thumb-pinky distance compared with 0.4, plus the three fold tests |

## Left out

- The React component's lifecycle (backend set-up, model loading, camera start, the animation-frame loop, cleanup) and the `estimateHands` call are left out. The model starts from the detector's predictions, passed as a parameter.
- The browser's exception branch is left out: the previous label stays on screen when `estimateHands` throws. Exceptions of the detector are not modelled.
- BrowserGesture.FrameLabel: `hasValidKeypoints` tests for a keypoint with non-null x and y; coordinates are never null in the model, so the test reduces to "there is at least one keypoint". The `alert` is not modelled.
- BrowserGesture.DetectGesture: the `!landmarks` null check is not modelled (a sequence always exists).
- BrowserGesture.Normalize, BrowserGesture.FrameLabel and BrowserGesture.TrackingFailureShownGreen: a video width or height of 0 is excluded by their precondition, even on the paths that do not divide (no prediction, or 3D keypoints present). In JavaScript that would be a division by zero. The component only starts predicting once the video metadata has loaded (webcam-stream.tsx:61-64), so the case does not arise.
- Geometry.SqrtThreshold: floating-point rounding is not modelled. Coordinates are exact reals, and a distance test is stated on squared distances, which agrees with the square-root test on reals.
- ServerGesture.RecognizeGesture: base64 decoding, image opening, the colour conversion and the MediaPipe detector are one parameter `detect`, which returns hands or an exception message. A JSON body that fails to parse, or that is not an object, is not modelled.
- ServerGesture.ClassifyHand: `h, w, c = frame.shape` is not modelled (its values are never used), nor is the logging.
- The FastAPI application, CORS, the server start-up, authentication, persistence and the rest of the UI are not part of this model.
