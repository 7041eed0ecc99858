/** The blink counter of the "camera" stage: frames are read one after
    another, every face found in a frame updates a debounce flag, and a
    blink is counted when an eye goes from open to closed.

    The camera and the face-mesh inference are replaced by the sequence of
    frames they would have produced, and the ten-second wall-clock window
    by the end of that sequence. */
module Blink {

  /** Eyelid aperture below which an eye counts as closed. */
  const ClosedThreshold: real := 0.004

  /** One detected face, reduced to the vertical coordinates of the two
      landmarks the counter reads: 159 (upper lid) and 145 (lower lid) of
      the left eye. */
  datatype Face = Face(eyeTop: real, eyeBottom: real)

  /** What one read of the camera gives: either the read failed, or the
      faces found in the frame (possibly none). */
  datatype Frame = CaptureFailed | Captured(faces: seq<Face>)

  /** The eyelid aperture, the distance between the two lid landmarks. */
  function Aperture(f: Face): (d: real)
    ensures d >= 0.0
    ensures d == f.eyeTop - f.eyeBottom || d == f.eyeBottom - f.eyeTop
  {
    if f.eyeTop >= f.eyeBottom then f.eyeTop - f.eyeBottom else f.eyeBottom - f.eyeTop
  }

  predicate IsClosed(f: Face) {
    Aperture(f) < ClosedThreshold
  }

  /** The open/closed observation of every face in a frame, in order. */
  function ClosedFlags(faces: seq<Face>): (flags: seq<bool>)
    ensures |flags| == |faces|
    ensures forall i :: 0 <= i < |faces| ==> flags[i] == IsClosed(faces[i])
  {
    if faces == [] then [] else ClosedFlags(faces[..|faces| - 1]) + [IsClosed(faces[|faces| - 1])]
  }

  predicate NoFailure(frames: seq<Frame>) {
    forall i :: 0 <= i < |frames| ==> frames[i].Captured?
  }

  /** The observations the loop makes: the flags of every face of every
      frame, up to (not including) the first failed capture. */
  function Observations(frames: seq<Frame>): seq<bool> {
    if frames == [] then []
    else match frames[0]
      case CaptureFailed => []
      case Captured(faces) => ClosedFlags(faces) + Observations(frames[1..])
  }

  /** The debounce flag after a sequence of observations: set by a closed
      observation, cleared by an open one, initially clear. */
  predicate EndsClosed(obs: seq<bool>) {
    obs != [] && obs[|obs| - 1]
  }

  /** Observation i is a blink onset: the eye is closed and it was not
      closed at the observation before (or there is none). */
  predicate IsOnset(obs: seq<bool>, i: int)
    requires 0 <= i < |obs|
  {
    obs[i] && (i == 0 || !obs[i - 1])
  }

  /** The number of blink onsets in a sequence of observations. */
  function Onsets(obs: seq<bool>): nat {
    if obs == [] then 0
    else Onsets(obs[..|obs| - 1]) + (if IsOnset(obs, |obs| - 1) then 1 else 0)
  }

  /** The number of closed observations. */
  function ClosedCount(obs: seq<bool>): nat {
    if obs == [] then 0
    else ClosedCount(obs[..|obs| - 1]) + (if obs[|obs| - 1] then 1 else 0)
  }

  /** The inner loop over the faces of one frame: each face is one
      observation for the debounce flag. Given the count and flag left by
      the observations so far, it leaves those that follow the faces'
      observations as well. */
  method ObserveFaces(faces: seq<Face>, count: nat, detected: bool, ghost seen: seq<bool>)
    returns (blinkCount: nat, blinkDetected: bool)
    requires count == Onsets(seen) && detected == EndsClosed(seen)
    ensures blinkCount == Onsets(seen + ClosedFlags(faces))
    ensures blinkDetected == EndsClosed(seen + ClosedFlags(faces))
  {
    blinkCount, blinkDetected := count, detected;
    ghost var observed := seen;
    for j := 0 to |faces|
      invariant observed == seen + ClosedFlags(faces[..j])
      invariant blinkCount == Onsets(observed)
      invariant blinkDetected == EndsClosed(observed)
    {
      var diff := Aperture(faces[j]);
      ghost var closed := diff < ClosedThreshold;
      DebounceStep(observed, closed);
      ClosedFlagsSnoc(faces, j);
      ghost var added := if closed && !blinkDetected then 1 else 0;
      assert Onsets(observed + [closed]) == blinkCount + added;
      if diff < ClosedThreshold {
        if !blinkDetected {
          blinkCount := blinkCount + 1;
          blinkDetected := true;
        }
      } else {
        blinkDetected := false;
      }
      observed := observed + [closed];
    }
    assert faces[..|faces|] == faces;
  }

  /** The capture loop. The count starts at zero with the flag clear; each
      face of each frame updates them; a failed capture ends the loop early
      and reports the count so far together with the failure. */
  method CountBlinks(frames: seq<Frame>) returns (blinkCount: nat, cameraFailed: bool)
    ensures blinkCount == Onsets(Observations(frames))
    ensures cameraFailed <==> !NoFailure(frames)
  {
    blinkCount := 0;
    var blinkDetected := false;
    cameraFailed := false;
    ghost var seen: seq<bool> := [];
    var k := 0;
    while k < |frames|
      invariant 0 <= k <= |frames|
      invariant NoFailure(frames[..k])
      invariant seen == Observations(frames[..k])
      invariant blinkCount == Onsets(seen)
      invariant blinkDetected == EndsClosed(seen)
    {
      if frames[k].CaptureFailed? {
        cameraFailed := true;
        FailureEndsObservations(frames, k);
        break;
      }
      blinkCount, blinkDetected := ObserveFaces(frames[k].faces, blinkCount, blinkDetected, seen);
      ObservationsSnoc(frames, k);
      seen := seen + ClosedFlags(frames[k].faces);
      k := k + 1;
    }
    if !cameraFailed {
      assert frames[..k] == frames;
    }
  }

  // ---------------------------------------------------------------------
  // Observations of a frame sequence

  lemma ClosedFlagsSnoc(faces: seq<Face>, j: nat)
    requires j < |faces|
    ensures ClosedFlags(faces[..j + 1]) == ClosedFlags(faces[..j]) + [IsClosed(faces[j])]
  {
    assert faces[..j + 1][..j] == faces[..j];
  }

  lemma ObservationsSnoc(frames: seq<Frame>, k: nat)
    requires k < |frames| && frames[k].Captured? && NoFailure(frames[..k])
    ensures NoFailure(frames[..k + 1])
    ensures Observations(frames[..k + 1]) == Observations(frames[..k]) + ClosedFlags(frames[k].faces)
  {
    assert frames[..k + 1] == frames[..k] + [frames[k]];
    ObservationsAppend(frames[..k], [frames[k]]);
    assert [frames[k]][1..] == [];
  }

  /** Frames read without failure contribute their observations in order. */
  lemma {:induction false} ObservationsAppend(a: seq<Frame>, b: seq<Frame>)
    requires NoFailure(a)
    ensures Observations(a + b) == Observations(a) + Observations(b)
  {
    if a != [] {
      assert (a + b)[0] == a[0];
      assert (a + b)[1..] == a[1..] + b;
      assert NoFailure(a[1..]) by {
        forall i | 0 <= i < |a| - 1 ensures a[1..][i].Captured? {
          assert a[1..][i] == a[i + 1];
        }
      }
      ObservationsAppend(a[1..], b);
    } else {
      assert a + b == b;
    }
  }

  /** A failed capture ends the loop: nothing after it is observed. */
  lemma {:induction false} FailureEndsObservations(frames: seq<Frame>, k: nat)
    requires k < |frames| && frames[k].CaptureFailed?
    requires NoFailure(frames[..k])
    ensures Observations(frames) == Observations(frames[..k])
  {
    if k == 0 {
    } else {
      assert frames[1..][..k - 1] == frames[..k][1..];
      FailureEndsObservations(frames[1..], k - 1);
    }
  }

  /** Whatever follows a failed capture has no effect on the count. */
  lemma {:induction false} FramesAfterFailureIgnored(before: seq<Frame>, after: seq<Frame>)
    requires NoFailure(before)
    ensures Observations(before + [CaptureFailed] + after) == Observations(before)
  {
    var frames := before + [CaptureFailed] + after;
    assert frames[..|before|] == before;
    FailureEndsObservations(frames, |before|);
  }

  /** A frame without a detected face changes nothing: inserting one
      anywhere, for instance in the middle of an eye closure, leaves the
      observations (and hence the count) the same. */
  lemma {:induction false} FacelessFrameIgnored(before: seq<Frame>, after: seq<Frame>)
    ensures Observations(before + [Captured([])] + after) == Observations(before + after)
  {
    if before == [] {
      assert before + [Captured([])] + after == [Captured([])] + after;
      assert before + after == after;
      assert ([Captured([])] + after)[1..] == after;
    } else {
      assert (before + [Captured([])] + after)[0] == before[0];
      assert (before + after)[0] == before[0];
      assert (before + [Captured([])] + after)[1..] == before[1..] + [Captured([])] + after;
      assert (before + after)[1..] == before[1..] + after;
      FacelessFrameIgnored(before[1..], after);
    }
  }

  /** A session in which no face is ever detected counts no blink. */
  lemma {:induction false} NoFaceNoBlink(frames: seq<Frame>)
    requires forall i :: 0 <= i < |frames| ==> frames[i] == Captured([])
    ensures Onsets(Observations(frames)) == 0
    ensures Observations(frames) == []
  {
    if frames != [] {
      NoFaceNoBlink(frames[1..]);
    }
  }

  // ---------------------------------------------------------------------
  // The debounce count

  /** Adding one observation to the end, the debounce update: the count
      goes up by one exactly when the eye is closed and the flag was clear,
      and the flag becomes the observation itself (set when closed, cleared
      when open). */
  lemma DebounceStep(obs: seq<bool>, closed: bool)
    ensures Onsets(obs + [closed]) == Onsets(obs) + (if closed && !EndsClosed(obs) then 1 else 0)
    ensures EndsClosed(obs + [closed]) == closed
  {
    assert (obs + [closed])[..|obs|] == obs;
  }

  function Repeat(b: bool, n: nat): (r: seq<bool>)
    ensures |r| == n && forall i :: 0 <= i < n ==> r[i] == b
  {
    if n == 0 then [] else Repeat(b, n - 1) + [b]
  }

  /** A run of n >= 1 consecutive closed observations is one blink: the
      count goes up by exactly one if the eye was open before the run (and
      by nothing if the run continues a closure), and the onset is the
      first observation of the run. */
  lemma {:induction false} ClosedRunIsOneBlink(obs: seq<bool>, n: nat)
    requires n >= 1
    ensures Onsets(obs + Repeat(true, n)) == Onsets(obs) + (if EndsClosed(obs) then 0 else 1)
    ensures IsOnset(obs + Repeat(true, n), |obs|) <==> !EndsClosed(obs)
    ensures forall k :: |obs| < k < |obs| + n ==> !IsOnset(obs + Repeat(true, n), k)
    ensures EndsClosed(obs + Repeat(true, n))
  {
    var run := obs + Repeat(true, n);
    if n == 1 {
      assert run == obs + [true];
      DebounceStep(obs, true);
    } else {
      ClosedRunIsOneBlink(obs, n - 1);
      var shorter := obs + Repeat(true, n - 1);
      assert run == shorter + [true];
      DebounceStep(shorter, true);
      forall k | |obs| <= k < |obs| + n - 1
        ensures IsOnset(run, k) == IsOnset(shorter, k)
      {
        assert run[k] == shorter[k];
        assert k > 0 ==> run[k - 1] == shorter[k - 1];
      }
      assert run[|obs| + n - 1] && run[|obs| + n - 2];
    }
  }

  /** Closures separated by open observations each count once: n blinks of
      one closed frame each, alternating with open frames, count n. */
  function Alternating(n: nat): (r: seq<bool>)
    ensures |r| == 2 * n
  {
    if n == 0 then [] else Alternating(n - 1) + [true, false]
  }

  lemma {:induction false} AlternatingCountsEachClosure(n: nat)
    ensures Onsets(Alternating(n)) == n
    ensures !EndsClosed(Alternating(n))
  {
    if n > 0 {
      var prev := Alternating(n - 1);
      AlternatingCountsEachClosure(n - 1);
      DebounceStep(prev, true);
      DebounceStep(prev + [true], false);
      assert Alternating(n) == prev + [true] + [false];
    }
  }

  /** The count never decreases as observations are added. */
  lemma {:induction false} OnsetsMonotone(obs: seq<bool>, more: seq<bool>)
    ensures Onsets(obs) <= Onsets(obs + more)
  {
    if more != [] {
      var init, last := more[..|more| - 1], more[|more| - 1];
      OnsetsMonotone(obs, init);
      assert more == init + [last];
      assert obs + more == (obs + init) + [last];
      DebounceStep(obs + init, last);
      assert Onsets(obs + init) <= Onsets((obs + init) + [last]);
    } else {
      assert obs + more == obs;
    }
  }

  /** Every blink is a closed observation, and two blinks are separated by
      at least one open observation. */
  lemma {:induction false} OnsetsBounded(obs: seq<bool>)
    ensures Onsets(obs) <= ClosedCount(obs)
    ensures 2 * Onsets(obs) <= |obs| + (if EndsClosed(obs) then 1 else 0)
  {
    if obs != [] {
      var init := obs[..|obs| - 1];
      OnsetsBounded(init);
      assert obs == init + [obs[|obs| - 1]];
      DebounceStep(init, obs[|obs| - 1]);
    }
  }

  /** The positions of all blink onsets. */
  function OnsetPositions(obs: seq<bool>): set<int> {
    set i | 0 <= i < |obs| && IsOnset(obs, i)
  }

  /** The recursive count agrees with counting the onset positions. */
  lemma {:induction false} OnsetsCountsOnsetPositions(obs: seq<bool>)
    ensures Onsets(obs) == |OnsetPositions(obs)|
  {
    if obs == [] {
      assert OnsetPositions(obs) == {};
    } else {
      var n := |obs| - 1;
      var init := obs[..n];
      OnsetsCountsOnsetPositions(init);
      var last: set<int> := if IsOnset(obs, n) then {n} else {};
      assert OnsetPositions(obs) == OnsetPositions(init) + last by {
        forall i | 0 <= i < n
          ensures IsOnset(obs, i) == IsOnset(init, i)
        {
          assert obs[i] == init[i];
          assert i > 0 ==> obs[i - 1] == init[i - 1];
        }
      }
      assert n !in OnsetPositions(init);
      assert |OnsetPositions(init) + last| == |OnsetPositions(init)| + |last|;
    }
  }

}
