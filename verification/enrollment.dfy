/** Enrolling one student (`register_student`): capture face samples
    from the camera, then append the student's row to the roster. The
    camera, the face detector and image writing are outside the model: a
    frame is what the loop learns from them (did the read succeed, which
    key was pressed, how many faces were detected). */
module Enrollment {
  import opened Util
  import opened Decimal
  import opened Roster

  /** The loop stops once this many samples have been saved. */
  const SamplesWanted: nat := 5

  /** One pass of the capture loop: whether `cap.read()` succeeded, the
      key code read afterwards and how many faces the detector found. */
  datatype CaptureFrame = CaptureFrame(ok: bool, key: Byte, faces: nat)

  /** The file name `{reg_no}_{count}.jpg` inside the sample directory. */
  function SampleName(regNo: string, index: nat): string {
    regNo + "_" + NatToString(index) + ".jpg"
  }

  /** The names of the first `n` samples of `regNo`, in capture order. */
  function SampleNames(regNo: string, n: nat): (names: seq<string>)
    ensures |names| == n
    ensures forall i :: 0 <= i < n ==> names[i] == SampleName(regNo, i)
  {
    seq(n, i requires 0 <= i < n => SampleName(regNo, i))
  }

  /** How much one frame adds to the counter: one per detected face, and
      only on a frame where the space key was pressed. */
  function Gain(f: CaptureFrame): nat {
    if f.key == SpaceKey then f.faces else 0
  }

  /** The counter added up over every frame of a stream that reads well. */
  function TotalGain(frames: seq<CaptureFrame>): nat {
    if frames == [] then 0 else Gain(frames[0]) + TotalGain(frames[1..])
  }

  /** The counter the capture loop ends with when it starts at `count`
      and reads `frames`: it stops once the counter reaches five or when
      a read fails (a stream that runs out counts as a failed read). The
      counter never goes down. */
  function CaptureCount(frames: seq<CaptureFrame>, count: nat): (r: nat)
    ensures r >= count
    ensures r <= count + TotalGain(frames)
    ensures count >= SamplesWanted ==> r == count
    decreases |frames|
  {
    if count >= SamplesWanted || frames == [] || !frames[0].ok then count
    else CaptureCount(frames[1..], count + Gain(frames[0]))
  }

  /** The counter can pass five, but by less than the largest number of
      faces seen in one frame. */
  lemma {:induction false} CaptureOvershootBound(frames: seq<CaptureFrame>, count: nat, m: nat)
    requires count < SamplesWanted
    requires forall i :: 0 <= i < |frames| ==> frames[i].faces <= m
    ensures CaptureCount(frames, count) < SamplesWanted + m
    decreases |frames|
  {
    if frames != [] && frames[0].ok {
      var next := count + Gain(frames[0]);
      if next < SamplesWanted {
        CaptureOvershootBound(frames[1..], next, m);
      }
    }
  }

  /** With at most one face per frame the loop never saves more than five
      samples. */
  lemma SingleFaceCaptureAtMostFive(frames: seq<CaptureFrame>)
    requires forall i :: 0 <= i < |frames| ==> frames[i].faces <= 1
    ensures CaptureCount(frames, 0) <= SamplesWanted
  {
    CaptureOvershootBound(frames, 0, 1);
  }

  /** With at most one face per frame, every read succeeding and five
      faces offered on space frames, the loop ends with exactly five
      samples. */
  lemma SingleFaceCaptureSavesFive(frames: seq<CaptureFrame>)
    requires forall i :: 0 <= i < |frames| ==> frames[i].faces <= 1
    ensures (forall i :: 0 <= i < |frames| ==> frames[i].ok) && TotalGain(frames) >= SamplesWanted ==>
      CaptureCount(frames, 0) == SamplesWanted
  {
    if (forall i :: 0 <= i < |frames| ==> frames[i].ok) && TotalGain(frames) >= SamplesWanted {
      SingleFaceCaptureAtMostFive(frames);
      CaptureReachesFive(frames, 0);
    }
  }

  /** A stream whose reads all succeed and which offers enough faces on
      space frames brings the counter to five: an early stop means a
      failed read. */
  lemma {:induction false} CaptureReachesFive(frames: seq<CaptureFrame>, count: nat)
    requires forall i :: 0 <= i < |frames| ==> frames[i].ok
    requires count + TotalGain(frames) >= SamplesWanted
    ensures CaptureCount(frames, count) >= SamplesWanted
    decreases |frames|
  {
    if count < SamplesWanted {
      CaptureReachesFive(frames[1..], count + Gain(frames[0]));
    }
  }

  /** Sample files of one student never share a name. */
  lemma SampleNamesDistinct(regNo: string, i: nat, j: nat)
    requires i != j
    ensures SampleName(regNo, i) != SampleName(regNo, j)
  {
    var p := regNo + "_";
    var si, sj := NatToString(i), NatToString(j);
    if SampleName(regNo, i) == SampleName(regNo, j) {
      assert SampleName(regNo, i) == p + si + ".jpg";
      assert SampleName(regNo, j) == p + sj + ".jpg";
      assert |si| == |sj|;
      assert si == SampleName(regNo, i)[|p|..|p| + |si|];
      assert sj == SampleName(regNo, j)[|p|..|p| + |sj|];
      NatToStringInjective(i, j);
    }
  }

  /** The inner loop over the faces of a space frame: one sample file
      per face, numbered on from the counter. */
  method SaveFaces(regNo: string, count: nat, saved: seq<string>, faces: nat)
    returns (count': nat, saved': seq<string>)
    requires saved == SampleNames(regNo, count)
    ensures count' == count + faces
    ensures saved' == SampleNames(regNo, count')
  {
    count', saved' := count, saved;
    for k := 0 to faces
      invariant count' == count + k
      invariant saved' == SampleNames(regNo, count')
    {
      saved' := saved' + [SampleName(regNo, count')];
      count' := count' + 1;
    }
  }

  /** The capture loop of `register_student`. It returns the final
      counter and the names of the samples saved, in order. */
  method Capture(regNo: string, frames: seq<CaptureFrame>) returns (count: nat, saved: seq<string>)
    ensures count == CaptureCount(frames, 0)
    ensures saved == SampleNames(regNo, count)
  {
    count, saved := 0, [];
    var i := 0;
    while count < SamplesWanted
      invariant 0 <= i <= |frames|
      invariant CaptureCount(frames[i..], count) == CaptureCount(frames, 0)
      invariant saved == SampleNames(regNo, count)
      decreases |frames| - i
    {
      if i == |frames| || !frames[i].ok {
        // camera error
        break;
      }
      var frame := frames[i];
      assert frames[i..][1..] == frames[i + 1..];
      if frame.key == SpaceKey && frame.faces > 0 {
        count, saved := SaveFaces(regNo, count, saved, frame.faces);
      }
      i := i + 1;
      if count >= SamplesWanted {
        break;
      }
    }
  }

  /** `register_student`: when the camera opens, capture samples and then
      append the new row with empty timestamps, however many samples were
      saved and without checking that the registration number is new.
      When the camera does not open, nothing is saved and the roster is
      left alone. */
  method RegisterStudent(roster: Roster, regNo: string, name: string, department: string,
                         email: string, cameraOpens: bool, frames: seq<CaptureFrame>)
    returns (registered: bool, saved: seq<string>)
    modifies roster
    ensures registered == cameraOpens
    ensures !cameraOpens ==> roster.rows == old(roster.rows) && saved == []
    ensures cameraOpens ==>
      && roster.rows == old(roster.rows) + [NewRow(regNo, name, department, email)]
      && saved == SampleNames(regNo, CaptureCount(frames, 0))
  {
    if !cameraOpens {
      return false, [];
    }
    var count;
    count, saved := Capture(regNo, frames);
    roster.Append(NewRow(regNo, name, department, email));
    registered := true;
  }
}
