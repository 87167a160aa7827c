/** Training (`train_model`): pick the usable face samples out of the
    sample directory and hand them to the recognizer. The directory
    listing is an input; each entry carries the image `cv2.imread` would
    return, `None` when the file cannot be read. The recognizer's own
    training is outside the model: the model artifact saved is the
    training set it was trained on. */
module Training {
  import opened Util
  import opened Decimal
  import Enrollment

  /** A grayscale image, as pixel values. */
  type Image = seq<int>

  datatype SampleFile = SampleFile(name: string, image: Option<Image>)

  /** The faces and labels given to `recognizer.train`, kept in
      parallel. */
  datatype TrainingSet = TrainingSet(faces: seq<Image>, labels: seq<nat>)

  datatype TrainOutcome = NoSampleDirectory | NoTrainingData | Trained

  predicate EndsWithJpg(name: string) {
    |name| >= 4 && name[|name| - 4..] == ".jpg"
  }

  /** `name.split("_")[0]`: everything before the first underscore, or
      the whole name when it has none. */
  function PrefixBeforeUnderscore(name: string): (p: string)
    ensures p <= name
    ensures '_' !in p
    ensures p == name || name[|p|] == '_'
  {
    if name == [] || name[0] == '_' then [] else [name[0]] + PrefixBeforeUnderscore(name[1..])
  }

  /** The label a sample file name gives, if any: a `.jpg` name whose
      prefix before the first underscore is a non-empty digit string
      yields the number that prefix denotes. */
  function SampleLabel(name: string): (r: Option<nat>)
    ensures r.Some? <==> EndsWithJpg(name) && IsDigitString(PrefixBeforeUnderscore(name))
  {
    var prefix := PrefixBeforeUnderscore(name);
    if EndsWithJpg(name) && IsDigitString(prefix) then Some(DigitsValue(prefix)) else None
  }

  /** A file contributes to training: its name yields a label and its
      image loads. */
  predicate Usable(f: SampleFile) {
    SampleLabel(f.name).Some? && f.image.Some?
  }

  /** One file of the `for file` loop: a usable file appends its image
      and its label. */
  function Add(t: TrainingSet, f: SampleFile): TrainingSet {
    if Usable(f) then TrainingSet(t.faces + [f.image.value], t.labels + [SampleLabel(f.name).value])
    else t
  }

  /** What the `for file` loop has gathered after the files `files`, in
      listing order. */
  function Gather(files: seq<SampleFile>): (t: TrainingSet)
    ensures |t.faces| == |t.labels| <= |files|
    decreases |files|
  {
    if files == [] then TrainingSet([], []) else Add(Gather(files[..|files| - 1]), files[|files| - 1])
  }

  /** A label is gathered exactly when some usable file names it. */
  lemma {:induction false} GatheredLabels(files: seq<SampleFile>, l: nat)
    ensures l in Gather(files).labels <==>
      exists i :: 0 <= i < |files| && Usable(files[i]) && SampleLabel(files[i].name) == Some(l)
    decreases |files|
  {
    if files != [] {
      var init := files[..|files| - 1];
      GatheredLabels(init, l);
      assert forall i :: 0 <= i < |init| ==> init[i] == files[i];
    }
  }

  /** Faces and labels stay paired: the k-th face and the k-th label come
      from the same usable file. */
  lemma {:induction false} GatherPairs(files: seq<SampleFile>, k: nat)
    requires k < |Gather(files).faces|
    ensures exists i ::
      && 0 <= i < |files| && Usable(files[i])
      && Gather(files).faces[k] == files[i].image.value
      && Gather(files).labels[k] == SampleLabel(files[i].name).value
    decreases |files|
  {
    var init, f := files[..|files| - 1], files[|files| - 1];
    var t := Gather(init);
    if k < |t.faces| {
      GatherPairs(init, k);
      var i :| 0 <= i < |init| && Usable(init[i]) &&
        t.faces[k] == init[i].image.value && t.labels[k] == SampleLabel(init[i].name).value;
      assert files[i] == init[i];
    } else {
      assert Usable(f) && files[|files| - 1] == f;
    }
  }

  /** Training data is empty exactly when no file is usable. */
  lemma {:induction false} GatherEmpty(files: seq<SampleFile>)
    ensures Gather(files).faces == [] <==> forall i :: 0 <= i < |files| ==> !Usable(files[i])
    decreases |files|
  {
    if files != [] {
      var init := files[..|files| - 1];
      GatherEmpty(init);
      assert forall i :: 0 <= i < |init| ==> init[i] == files[i];
    }
  }

  /** Files listed later only add to what earlier files gave. */
  lemma {:induction false} GatherAppend(a: seq<SampleFile>, b: seq<SampleFile>)
    ensures Gather(a + b).faces == Gather(a).faces + Gather(b).faces
    ensures Gather(a + b).labels == Gather(a).labels + Gather(b).labels
    decreases |b|
  {
    if b == [] {
      assert a + b == a;
    } else {
      var b', f := b[..|b| - 1], b[|b| - 1];
      GatherAppend(a, b');
      assert (a + b)[..|a + b| - 1] == a + b';
      assert Gather(a + b) == Add(Gather(a + b'), f);
      assert Gather(b) == Add(Gather(b'), f);
      AddAfterConcat(Gather(a), Gather(b'), Gather(a + b'), f);
    }
  }

  lemma AddAfterConcat(t1: TrainingSet, t2: TrainingSet, t: TrainingSet, f: SampleFile)
    requires t.faces == t1.faces + t2.faces && t.labels == t1.labels + t2.labels
    ensures Add(t, f).faces == t1.faces + Add(t2, f).faces
    ensures Add(t, f).labels == t1.labels + Add(t2, f).labels
  {
    if Usable(f) {
      assert t1.faces + (t2.faces + [f.image.value]) == (t1.faces + t2.faces) + [f.image.value];
      assert t1.labels + (t2.labels + [SampleLabel(f.name).value])
          == (t1.labels + t2.labels) + [SampleLabel(f.name).value];
    }
  }

  /** A sample saved at enrollment under a registration number that is a
      digit string is trained with the number it denotes. */
  lemma EnrolledSampleLabel(regNo: string, index: nat)
    requires IsDigitString(regNo)
    ensures SampleLabel(Enrollment.SampleName(regNo, index)) == Some(DigitsValue(regNo))
  {
    DigitsHaveNoUnderscore(regNo);
    SampleNameShape(regNo, index);
  }

  /** A sample saved under a registration number without underscores that
      is not a digit string (such as "AB12") is skipped by training. */
  lemma NonNumericSampleSkipped(regNo: string, index: nat)
    requires '_' !in regNo && !IsDigitString(regNo)
    ensures SampleLabel(Enrollment.SampleName(regNo, index)).None?
  {
    SampleNameShape(regNo, index);
  }

  lemma DigitsHaveNoUnderscore(s: string)
    requires AllDigits(s)
    ensures '_' !in s
  {
    forall i | 0 <= i < |s| ensures s[i] != '_' {
      assert IsDigit(s[i]);
    }
  }

  /** An enrollment sample name ends in ".jpg" and, when the registration
      number has no underscore, its prefix is that number. */
  lemma SampleNameShape(regNo: string, index: nat)
    ensures EndsWithJpg(Enrollment.SampleName(regNo, index))
    ensures '_' !in regNo ==> PrefixBeforeUnderscore(Enrollment.SampleName(regNo, index)) == regNo
  {
    var digits := NatToString(index);
    var name := Enrollment.SampleName(regNo, index);
    assert name == (regNo + "_" + digits) + ".jpg";
    assert name[|name| - 4..] == ".jpg";
    if '_' !in regNo {
      assert name == regNo + ("_" + digits + ".jpg");
      PrefixOfJoined(regNo, "_" + digits + ".jpg");
    }
  }

  lemma {:induction false} PrefixOfJoined(p: string, rest: string)
    requires '_' !in p && rest != [] && rest[0] == '_'
    ensures PrefixBeforeUnderscore(p + rest) == p
    decreases |p|
  {
    if p != [] {
      assert (p + rest)[1..] == p[1..] + rest;
      PrefixOfJoined(p[1..], rest);
    }
  }

  /** `train_model`. `model` is the artifact on disk before the call; the
      result is the artifact after it. Without a sample directory, or
      when no file is usable, training stops with an error and the
      artifact is not touched; otherwise it is replaced by one trained on
      every usable file. */
  method TrainModel(directoryExists: bool, files: seq<SampleFile>, model: Option<TrainingSet>)
    returns (outcome: TrainOutcome, model': Option<TrainingSet>)
    ensures !directoryExists ==> outcome == NoSampleDirectory && model' == model
    ensures directoryExists && (forall i :: 0 <= i < |files| ==> !Usable(files[i])) ==>
      outcome == NoTrainingData && model' == model
    ensures directoryExists && (exists i :: 0 <= i < |files| && Usable(files[i])) ==>
      outcome == Trained && model' == Some(Gather(files)) && model'.value.faces != []
  {
    if !directoryExists {
      return NoSampleDirectory, model;
    }
    var faces: seq<Image> := [];
    var labels: seq<nat> := [];
    for i := 0 to |files|
      invariant Gather(files[..i]) == TrainingSet(faces, labels)
    {
      var file := files[i];
      assert files[..i + 1][..i] == files[..i];
      if EndsWithJpg(file.name) {
        var regNo := PrefixBeforeUnderscore(file.name);
        if !IsDigitString(regNo) {
          // skipping invalid file
          continue;
        }
        if file.image.None? {
          // unable to read image
          continue;
        }
        faces := faces + [file.image.value];
        labels := labels + [DigitsValue(regNo)];
      }
    }
    assert files[..|files|] == files;
    GatherEmpty(files);
    if |faces| == 0 {
      return NoTrainingData, model;
    }
    outcome, model' := Trained, Some(TrainingSet(faces, labels));
  }
}
