/**
 * The per-frame behaviour classifier of the live monitor (`is_sleeping` and
 * `get_behavior` in main.py).
 *
 * The perception models are abstracted away: a face is the three landmark
 * heights the classifier reads, a hand is the height of its index fingertip,
 * and the object detector's output is, per result, the class ids of its boxes,
 * read through the detector's id-to-name table.
 */
module Classifier {
  import opened Wrappers

  /** A face whose eyelid landmarks are closer than this (vertically) is asleep. */
  const SleepGap: real := 0.004
  /** A fingertip closer than this (vertically) to the mouth means eating. */
  const MouthGap: real := 0.05

  /** Detector class names that decide the label on their own. */
  const PhoneClass: string := "cell phone"
  const FoodClasses: seq<string> := ["banana", "apple", "orange", "sandwich"]

  const Sleeping: string := "Sleeping"
  const UsingPhone: string := "Using Phone"
  const Eating: string := "Eating"
  const Normal: string := "Normal"
  const Labels: set<string> := {Sleeping, UsingPhone, Eating, Normal}

  /** Face-mesh landmarks read by the classifier: 159 (upper eyelid),
      145 (lower eyelid) and 13 (mouth); only their y coordinates matter. */
  datatype Face = Face(eyeTopY: real, eyeBottomY: real, mouthY: real)

  /** Hand landmark 8, the index fingertip; only its y coordinate matters. */
  datatype Hand = Hand(fingertipY: real)

  function Abs(x: real): real
  {
    if x < 0.0 then -x else x
  }

  /** `is_sleeping`: the eye-openness gap is below the threshold. */
  function IsSleeping(face: Face): (asleep: bool)
    ensures asleep <==> -SleepGap < face.eyeTopY - face.eyeBottomY < SleepGap
  {
    Abs(face.eyeTopY - face.eyeBottomY) < SleepGap
  }

  ghost predicate SomeFaceAsleep(faces: seq<Face>)
  {
    exists i :: 0 <= i < |faces| && IsSleeping(faces[i])
  }

  /** The sleep loop of `get_behavior`: faces in order, stop at the first asleep. */
  function AnySleeping(faces: seq<Face>): (found: bool)
    ensures found <==> SomeFaceAsleep(faces)
  {
    if faces == [] then false
    else if IsSleeping(faces[0]) then true
    else
      var rest := AnySleeping(faces[1..]);
      assert forall i :: 1 <= i < |faces| ==> faces[i] == faces[1..][i - 1];
      rest
  }

  /** The label one detector class name decides on its own, if any. */
  function DecisiveLabel(name: string): (verdict: Option<string>)
    ensures name == PhoneClass ==> verdict == Some(UsingPhone)
    ensures name in FoodClasses ==> verdict == Some(Eating)
    ensures verdict.None? <==> name != PhoneClass && name !in FoodClasses
  {
    if name == PhoneClass then Some(UsingPhone)
    else if name in FoodClasses then Some(Eating)
    else None
  }

  /** Every class id in `ids` has a name. */
  predicate Named(ids: seq<int>, names: map<int, string>)
  {
    forall b :: 0 <= b < |ids| ==> ids[b] in names
  }

  /** Every class id of every detector result has a name. */
  predicate NamesCover(results: seq<seq<int>>, names: map<int, string>)
  {
    forall r :: 0 <= r < |results| ==> Named(results[r], names)
  }

  /** The inner YOLO loop: the boxes of one result, in order. */
  function ScanBoxes(ids: seq<int>, names: map<int, string>): (verdict: Option<string>)
    requires Named(ids, names)
    ensures verdict.Some? ==> verdict.value in {UsingPhone, Eating}
  {
    if ids == [] then None
    else
      var here := DecisiveLabel(names[ids[0]]);
      if here.Some? then here else ScanBoxes(ids[1..], names)
  }

  /** The outer YOLO loop: the results, in order. */
  function ScanResults(results: seq<seq<int>>, names: map<int, string>): (verdict: Option<string>)
    requires NamesCover(results, names)
    ensures verdict.Some? ==> verdict.value in {UsingPhone, Eating}
  {
    if results == [] then None
    else
      var here := ScanBoxes(results[0], names);
      if here.Some? then here else ScanResults(results[1..], names)
  }

  /** The hand-to-mouth test for one fingertip and one face. */
  predicate NearMouth(hand: Hand, face: Face)
  {
    Abs(hand.fingertipY - face.mouthY) < MouthGap
  }

  ghost predicate SomeHandNearMouth(hands: seq<Hand>, faces: seq<Face>)
  {
    exists h, f :: 0 <= h < |hands| && 0 <= f < |faces| && NearMouth(hands[h], faces[f])
  }

  /** The inner hand loop: one hand against every face, in order. */
  function NearAnyMouth(hand: Hand, faces: seq<Face>): (found: bool)
    ensures found <==> exists f :: 0 <= f < |faces| && NearMouth(hand, faces[f])
  {
    if faces == [] then false
    else if NearMouth(hand, faces[0]) then true
    else
      var rest := NearAnyMouth(hand, faces[1..]);
      assert forall f :: 1 <= f < |faces| ==> faces[f] == faces[1..][f - 1];
      rest
  }

  /** The outer hand loop: every hand, in order. */
  function AnyHandNearMouth(hands: seq<Hand>, faces: seq<Face>): (found: bool)
    ensures found <==> SomeHandNearMouth(hands, faces)
  {
    if hands == [] then false
    else if NearAnyMouth(hands[0], faces) then true
    else
      var rest := AnyHandNearMouth(hands[1..], faces);
      assert forall h :: 1 <= h < |hands| ==> hands[h] == hands[1..][h - 1];
      rest
  }

  /**
   * `get_behavior`: a sleeping face wins; then the first decisive detector
   * class; then a fingertip near a mouth; otherwise Normal.
   */
  function GetBehavior(faces: seq<Face>, hands: seq<Hand>, results: seq<seq<int>>,
                       names: map<int, string>): (behavior: string)
    requires NamesCover(results, names)
    ensures behavior in Labels
    ensures behavior == Sleeping <==> SomeFaceAsleep(faces)
  {
    if AnySleeping(faces) then Sleeping
    else
      var detected := ScanResults(results, names);
      if detected.Some? then detected.value
      else if |hands| > 0 && |faces| > 0 && AnyHandNearMouth(hands, faces) then Eating
      else Normal
  }

  // ----- The detector classes in result/box order -----

  /** All class ids, result after result, each result's boxes in order. */
  function Flatten(results: seq<seq<int>>): seq<int>
  {
    if results == [] then [] else results[0] + Flatten(results[1..])
  }

  /** Position `k` of `ids` holds the first class that decides a label. */
  ghost predicate FirstDecisiveAt(ids: seq<int>, names: map<int, string>, k: int)
  {
    && Named(ids, names)
    && 0 <= k < |ids|
    && DecisiveLabel(names[ids[k]]).Some?
    && forall j :: 0 <= j < k ==> DecisiveLabel(names[ids[j]]).None?
  }

  /** No class in `ids` decides a label. */
  ghost predicate NoDecisive(ids: seq<int>, names: map<int, string>)
  {
    && Named(ids, names)
    && forall j :: 0 <= j < |ids| ==> DecisiveLabel(names[ids[j]]).None?
  }

  lemma {:induction false} FlattenNamed(results: seq<seq<int>>, names: map<int, string>)
    requires NamesCover(results, names)
    ensures Named(Flatten(results), names)
  {
    if results != [] {
      FlattenNamed(results[1..], names);
    }
  }

  /** The inner loop returns the label of the first decisive box. */
  lemma {:induction false} ScanBoxesFindsFirst(ids: seq<int>, names: map<int, string>, k: int)
    requires FirstDecisiveAt(ids, names, k)
    ensures ScanBoxes(ids, names) == DecisiveLabel(names[ids[k]])
  {
    if k > 0 {
      assert DecisiveLabel(names[ids[0]]).None?;
      assert FirstDecisiveAt(ids[1..], names, k - 1) by {
        forall j | 0 <= j < k - 1
          ensures DecisiveLabel(names[ids[1..][j]]).None?
        {
          assert ids[1..][j] == ids[j + 1];
        }
      }
      ScanBoxesFindsFirst(ids[1..], names, k - 1);
    }
  }

  /** The inner loop finds nothing exactly when no box is decisive. */
  lemma {:induction false} ScanBoxesNone(ids: seq<int>, names: map<int, string>)
    requires Named(ids, names)
    ensures ScanBoxes(ids, names) == None <==> NoDecisive(ids, names)
  {
    if ids != [] {
      ScanBoxesNone(ids[1..], names);
      assert NoDecisive(ids, names) <==> DecisiveLabel(names[ids[0]]).None? && NoDecisive(ids[1..], names) by {
        assert forall j :: 1 <= j < |ids| ==> ids[j] == ids[1..][j - 1];
      }
    }
  }

  /** The YOLO loops return the label of the first decisive class in
      result/box order; every class before it is skipped. */
  lemma {:induction false} ScanResultsFindsFirst(results: seq<seq<int>>, names: map<int, string>, k: int)
    requires NamesCover(results, names)
    requires FirstDecisiveAt(Flatten(results), names, k)
    ensures ScanResults(results, names) == DecisiveLabel(names[Flatten(results)[k]])
  {
    var head, rest := results[0], Flatten(results[1..]);
    assert Flatten(results) == head + rest;
    if k < |head| {
      assert FirstDecisiveAt(head, names, k) by {
        forall j | 0 <= j <= k
          ensures head[j] == Flatten(results)[j]
        {
        }
      }
      ScanBoxesFindsFirst(head, names, k);
    } else {
      assert NoDecisive(head, names) by {
        forall j | 0 <= j < |head|
          ensures head[j] == Flatten(results)[j]
        {
        }
      }
      ScanBoxesNone(head, names);
      FlattenNamed(results[1..], names);
      assert FirstDecisiveAt(rest, names, k - |head|) by {
        forall j | 0 <= j <= k - |head|
          ensures rest[j] == Flatten(results)[j + |head|]
        {
        }
      }
      ScanResultsFindsFirst(results[1..], names, k - |head|);
    }
  }

  /** The YOLO loops find nothing exactly when no class is decisive. */
  lemma {:induction false} ScanResultsNone(results: seq<seq<int>>, names: map<int, string>)
    requires NamesCover(results, names)
    ensures ScanResults(results, names) == None <==> NoDecisive(Flatten(results), names)
  {
    FlattenNamed(results, names);
    if results != [] {
      var head, rest := results[0], Flatten(results[1..]);
      assert Flatten(results) == head + rest;
      ScanBoxesNone(head, names);
      ScanResultsNone(results[1..], names);
      assert NoDecisive(head + rest, names) <==> NoDecisive(head, names) && NoDecisive(rest, names) by {
        assert forall j :: 0 <= j < |head| ==> (head + rest)[j] == head[j];
        assert forall j :: 0 <= j < |rest| ==> (head + rest)[|head| + j] == rest[j];
      }
    }
  }

  /** With no face asleep, the first decisive detector class decides the
      label, whatever the hands show. */
  lemma DecisiveClassWins(faces: seq<Face>, hands: seq<Hand>, results: seq<seq<int>>,
                          names: map<int, string>, k: int)
    requires NamesCover(results, names)
    requires !SomeFaceAsleep(faces)
    requires FirstDecisiveAt(Flatten(results), names, k)
    ensures GetBehavior(faces, hands, results, names) == DecisiveLabel(names[Flatten(results)[k]]).value
  {
    ScanResultsFindsFirst(results, names, k);
  }

  /** The hand-to-mouth rule is consulted only when no face is asleep and no
      detector class is decisive; when it does not fire the label is Normal. */
  lemma HandRuleIsLastResort(faces: seq<Face>, hands: seq<Hand>, results: seq<seq<int>>,
                             names: map<int, string>)
    requires NamesCover(results, names)
    requires !SomeFaceAsleep(faces)
    requires NoDecisive(Flatten(results), names)
    ensures GetBehavior(faces, hands, results, names) == if SomeHandNearMouth(hands, faces) then Eating else Normal
  {
    ScanResultsNone(results, names);
  }

  /** A frame is Normal exactly when none of the three rules fires. */
  lemma NormalWhenNothingFires(faces: seq<Face>, hands: seq<Hand>, results: seq<seq<int>>,
                               names: map<int, string>)
    requires NamesCover(results, names)
    ensures GetBehavior(faces, hands, results, names) == Normal
        <==> !SomeFaceAsleep(faces) && NoDecisive(Flatten(results), names) && !SomeHandNearMouth(hands, faces)
  {
    ScanResultsNone(results, names);
  }
}
