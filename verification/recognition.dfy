/** A recognition session (`mark_attendance`): every frame, each detected
    face is shown with the name it is recognised as; on a frame where the
    space key was pressed, each face recognised with confidence below 50
    whose registration number is in the roster gets the current time
    written into its Check-in (or Check-out) column. Check-ins are
    collected in a list and, once it has three entries or more, the
    students of the start-of-session roster not in it are announced.

    The camera, the detector and the recognizer are outside the model: a
    frame is what the loop learns from them. The recognizer is asked twice
    per face, once on the resized crop for display and once on the crop as
    detected when marking, so a face carries both predictions. */
module Recognition {
  import opened Util
  import opened Decimal
  import opened Roster

  /** Confidence is a distance: lower is better, and a prediction is
      accepted only strictly below this value. */
  const Threshold: real := 50.0

  datatype Prediction = Prediction(predicted: int, confidence: real)

  /** A detected face: the prediction drawn on screen, the prediction used
      when marking, and the time `datetime.now()` would give if it is
      marked. */
  datatype DetectedFace = DetectedFace(shown: Prediction, marked: Prediction, time: string)

  /** One pass of the recognition loop: whether the read succeeded, the
      faces found, and the two key codes read (the mark key at line 169,
      the quit key at line 199). */
  datatype Frame = Frame(ok: bool, faces: seq<DetectedFace>, markKey: Byte, quitKey: Byte)

  datatype SessionEnd = NoModel | CameraNotOpened | CameraError | Quit

  /** The registration number a prediction resolves to, if it is accepted:
      its confidence is below the threshold and `str(label)` is the
      registration number of some roster row. */
  function Recognise(p: Prediction, rows: seq<Row>): (r: Option<string>)
    ensures r.Some? <==> p.confidence < Threshold && HasId(rows, IntToString(p.predicted))
    ensures r.Some? ==> r.value == IntToString(p.predicted)
  {
    if p.confidence < Threshold && FindRow(rows, IntToString(p.predicted)).Some? then
      Some(IntToString(p.predicted))
    else
      None
  }

  /** The name drawn next to a face: "Unknown" unless the prediction is
      accepted, and then the name on the first row with that number. */
  function DisplayName(p: Prediction, rows: seq<Row>): (name: string)
    ensures Recognise(p, rows).None? ==> name == "Unknown"
    ensures Recognise(p, rows).Some? ==>
      name == rows[FindRow(rows, Recognise(p, rows).value).value].name
  {
    if p.confidence < Threshold then
      match FindRow(rows, IntToString(p.predicted))
      case Some(k) => rows[k].name
      case None => "Unknown"
    else
      "Unknown"
  }

  /** Whether a prediction is accepted depends on the roster only through
      its Registration Number column. */
  lemma RecogniseSeesOnlyIds(p: Prediction, rows: seq<Row>, rows': seq<Row>)
    requires Ids(rows) == Ids(rows')
    ensures Recognise(p, rows) == Recognise(p, rows')
  {
    var id := IntToString(p.predicted);
    if HasId(rows, id) {
      var i :| 0 <= i < |rows| && rows[i].regNo == id;
      assert Ids(rows')[i] == id;
    }
    if HasId(rows', id) {
      var i :| 0 <= i < |rows'| && rows'[i].regNo == id;
      assert Ids(rows)[i] == id;
    }
  }

  /** The recognizer's labels are C `int`s: no label at or above this
      value can come back from a prediction. */
  const LabelLimit: int := 0x8000_0000

  /** A registration number in the form `str` produces (digits, no leading
      zero) and small enough to be a label, trained under the number it
      denotes, is accepted back as itself whenever the confidence is below
      the threshold. */
  lemma EnrolledIdRecognised(regNo: string, rows: seq<Row>, confidence: real)
    requires HasId(rows, regNo) && confidence < Threshold
    requires Canonical(regNo) && DigitsValue(regNo) < LabelLimit
    ensures Recognise(Prediction(DigitsValue(regNo), confidence), rows) == Some(regNo)
  {
    NatToStringOfValue(regNo);
  }

  /** A registration number with a leading zero, such as "007", is never
      the result of recognition: `str(label)` cannot produce it. */
  lemma LeadingZeroIdNeverRecognised(regNo: string, p: Prediction, rows: seq<Row>)
    requires |regNo| > 1 && regNo[0] == '0'
    ensures Recognise(p, rows) != Some(regNo)
  {
    NeverRenderedWithLeadingZero(regNo, p.predicted);
  }

  /** The session's bookkeeping: the roster, the `checked_in_students`
      list, the name lists announced so far and the names drawn on each
      frame so far. */
  datatype SessionState = SessionState(rows: seq<Row>, checkedIn: seq<string>,
                                       announced: seq<seq<string>>, displayed: seq<seq<string>>)

  datatype SessionResult = SessionResult(state: SessionState, stop: SessionEnd)

  /** `[s for s in registered if s not in checked]`. */
  function Unchecked(registered: seq<string>, checked: seq<string>): (u: seq<string>)
    ensures forall x :: x in u <==> x in registered && x !in checked
    ensures |u| <= |registered|
  {
    if registered == [] then []
    else (if registered[0] in checked then [] else [registered[0]]) + Unchecked(registered[1..], checked)
  }

  /** The filter keeps the order of the registered list: filtering a
      concatenation filters each part. */
  lemma {:induction false} UncheckedAppend(a: seq<string>, b: seq<string>, checked: seq<string>)
    ensures Unchecked(a + b, checked) == Unchecked(a, checked) + Unchecked(b, checked)
    decreases |a|
  {
    if a != [] {
      assert (a + b)[0] == a[0];
      assert (a + b)[1..] == a[1..] + b;
      UncheckedAppend(a[1..], b, checked);
    } else {
      assert a + b == b;
    }
  }

  /** `df[df["Registration Number"].isin(ids)]["Name"].values`: the names
      of the rows whose number is in `ids`, in roster order. */
  function NamesOf(rows: seq<Row>, ids: seq<string>): (names: seq<string>)
    ensures |names| <= |rows|
    ensures forall n :: n in names <==>
      exists i :: 0 <= i < |rows| && rows[i].regNo in ids && rows[i].name == n
  {
    if rows == [] then []
    else
      var rest := NamesOf(rows[1..], ids);
      assert forall i :: 1 <= i < |rows| ==> rows[i] == rows[1..][i - 1];
      (if rows[0].regNo in ids then [rows[0].name] else []) + rest
  }

  /** The names come out in roster order: looking up a concatenation of
      rows concatenates the name lists. */
  lemma {:induction false} NamesOfAppend(a: seq<Row>, b: seq<Row>, ids: seq<string>)
    ensures NamesOf(a + b, ids) == NamesOf(a, ids) + NamesOf(b, ids)
    decreases |a|
  {
    if a != [] {
      assert (a + b)[0] == a[0];
      assert (a + b)[1..] == a[1..] + b;
      NamesOfAppend(a[1..], b, ids);
    } else {
      assert a + b == b;
    }
  }

  /** The names, in roster order, of the rows whose number is not in
      `checked`. */
  function NamesNotIn(rows: seq<Row>, checked: seq<string>): seq<string> {
    if rows == [] then []
    else (if rows[0].regNo !in checked then [rows[0].name] else []) + NamesNotIn(rows[1..], checked)
  }

  /** The reminder, if it fires: it needs three entries in the list (not
      three different students) and someone registered who is not in it,
      and it names the rows of those students. */
  function Reminder(rows: seq<Row>, registered: seq<string>, checked: seq<string>): (r: Option<seq<string>>)
    ensures r.Some? <==> |checked| >= 3 && exists x :: x in registered && x !in checked
  {
    var unchecked := Unchecked(registered, checked);
    if |checked| >= 3 && unchecked != [] then
      assert unchecked[0] in registered;
      Some(NamesOf(rows, unchecked))
    else
      None
  }

  lemma {:induction false} NamesOfFilter(rows: seq<Row>, ids: seq<string>, checked: seq<string>)
    requires forall i :: 0 <= i < |rows| ==> (rows[i].regNo in ids <==> rows[i].regNo !in checked)
    ensures NamesOf(rows, ids) == NamesNotIn(rows, checked)
    decreases |rows|
  {
    if rows != [] {
      NamesOfFilter(rows[1..], ids, checked);
    }
  }

  /** When the registered list is the roster's own number column, the
      reminder names exactly the rows, in roster order, whose student is
      not checked in. */
  lemma ReminderNamesUnchecked(rows: seq<Row>, checked: seq<string>)
    requires Reminder(rows, Ids(rows), checked).Some?
    ensures Reminder(rows, Ids(rows), checked).value == NamesNotIn(rows, checked)
  {
    var ids := Ids(rows);
    forall i | 0 <= i < |rows|
      ensures rows[i].regNo in Unchecked(ids, checked) <==> rows[i].regNo !in checked
    {
      assert ids[i] == rows[i].regNo;
    }
    NamesOfFilter(rows, Unchecked(ids, checked), checked);
  }

  /** Repeated check-ins of one student count toward the three: the
      reminder can fire with a single student checked in. */
  lemma ReminderCountsEntries(rows: seq<Row>)
    requires |rows| == 2 && rows[0].regNo == "1" && rows[1].regNo == "2"
    ensures Reminder(rows, Ids(rows), ["1", "1", "1"]) == Some([rows[1].name])
  {
    var c := ["1", "1", "1"];
    assert Ids(rows) == ["1", "2"];
    assert ["1", "2"][1..] == ["2"];
    assert Unchecked(["2"], c) == ["2"] + Unchecked([], c);
    assert Unchecked(Ids(rows), c) == ["2"];
    assert NamesOf(rows[1..], ["2"]) == [rows[1].name] + NamesOf(rows[2..], ["2"]);
    assert NamesOf(rows, ["2"]) == [rows[1].name];
  }

  /** One face on a mark frame. */
  function MarkFace(s: SessionState, f: DetectedFace, checkOut: bool): SessionState {
    match Recognise(f.marked, s.rows)
    case None => s
    case Some(id) =>
      if checkOut then s.(rows := MarkRows(s.rows, id, CheckOut, f.time))
      else s.(rows := MarkRows(s.rows, id, CheckIn, f.time), checkedIn := s.checkedIn + [id])
  }

  /** The faces of a mark frame, in detection order. */
  function MarkFaces(s: SessionState, faces: seq<DetectedFace>, checkOut: bool): SessionState
    decreases |faces|
  {
    if faces == [] then s else MarkFaces(MarkFace(s, faces[0], checkOut), faces[1..], checkOut)
  }

  /** The registration numbers the faces of a mark frame resolve to, in
      order, duplicates kept. */
  function AcceptedIds(rows: seq<Row>, faces: seq<DetectedFace>): seq<string> {
    if faces == [] then [] else AcceptedId(rows, faces[0]) + AcceptedIds(rows, faces[1..])
  }

  function AcceptedId(rows: seq<Row>, f: DetectedFace): seq<string> {
    match Recognise(f.marked, rows)
    case None => []
    case Some(id) => [id]
  }

  /** The names drawn on one frame, one per face. */
  function ShowFrame(rows: seq<Row>, faces: seq<DetectedFace>): (names: seq<string>)
    ensures |names| == |faces|
    ensures forall i :: 0 <= i < |faces| ==> names[i] == DisplayName(faces[i].shown, rows)
  {
    seq(|faces|, i requires 0 <= i < |faces| => DisplayName(faces[i].shown, rows))
  }

  /** One frame: draw the names; on the mark key, mark the faces and then
      evaluate the reminder. */
  function FrameStep(s: SessionState, frame: Frame, registered: seq<string>, checkOut: bool): SessionState {
    var drawn := s.(displayed := s.displayed + [ShowFrame(s.rows, frame.faces)]);
    if frame.markKey != SpaceKey then drawn
    else
      var marked := MarkFaces(drawn, frame.faces, checkOut);
      match Reminder(marked.rows, registered, marked.checkedIn)
      case None => marked
      case Some(names) => marked.(announced := marked.announced + [names])
  }

  /** The loop over frames: it ends on a failed read (or when the stream
      runs out) or on the quit key, which is read after the frame's work. */
  function Run(s: SessionState, frames: seq<Frame>, registered: seq<string>, checkOut: bool): SessionResult
    decreases |frames|
  {
    if frames == [] || !frames[0].ok then SessionResult(s, CameraError)
    else
      var next := FrameStep(s, frames[0], registered, checkOut);
      if frames[0].quitKey == QuitKey then SessionResult(next, Quit)
      else Run(next, frames[1..], registered, checkOut)
  }

  /** A whole session on the roster `rows`, from an empty list, with the
      registered numbers taken from the roster at the start. */
  function Session(rows: seq<Row>, frames: seq<Frame>, checkOut: bool): SessionResult {
    Run(SessionState(rows, [], [], []), frames, Ids(rows), checkOut)
  }

  /** A face changes the session only if it is accepted: then it writes
      its time into the mode's column, and in check-in mode only adds its
      number to the list. */
  lemma MarkFaceEffect(s: SessionState, f: DetectedFace, checkOut: bool)
    ensures Recognise(f.marked, s.rows).None? ==> MarkFace(s, f, checkOut) == s
    ensures Recognise(f.marked, s.rows).Some? ==>
      var id := Recognise(f.marked, s.rows).value;
      var s' := MarkFace(s, f, checkOut);
      && s'.rows == MarkRows(s.rows, id, if checkOut then CheckOut else CheckIn, f.time)
      && s'.checkedIn == (if checkOut then s.checkedIn else s.checkedIn + [id])
      && s'.announced == s.announced && s'.displayed == s.displayed
  {
  }

  /** One face keeps the number column; in check-in mode it appends what
      it is accepted as, and only that, to the list. */
  lemma MarkFaceStep(s: SessionState, f: DetectedFace, checkOut: bool)
    ensures var s' := MarkFace(s, f, checkOut);
      && Ids(s'.rows) == Ids(s.rows) && SameStudents(s.rows, s'.rows)
      && s'.checkedIn == (if checkOut then s.checkedIn else s.checkedIn + AcceptedId(s.rows, f))
      && s'.announced == s.announced && s'.displayed == s.displayed
      && (forall x :: x in AcceptedId(s.rows, f) ==> x in Ids(s.rows))
  {
    match Recognise(f.marked, s.rows) {
      case None =>
      case Some(id) =>
        MarkKeepsIds(s.rows, id, if checkOut then CheckOut else CheckIn, f.time);
        var i :| 0 <= i < |s.rows| && s.rows[i].regNo == id;
        assert Ids(s.rows)[i] == id;
    }
  }

  /** Marking faces keeps the number column, and so what is accepted. */
  lemma {:induction false} MarkFacesKeepsIds(s: SessionState, faces: seq<DetectedFace>, checkOut: bool)
    ensures Ids(MarkFaces(s, faces, checkOut).rows) == Ids(s.rows)
    ensures SameStudents(s.rows, MarkFaces(s, faces, checkOut).rows)
    ensures MarkFaces(s, faces, checkOut).announced == s.announced
    ensures MarkFaces(s, faces, checkOut).displayed == s.displayed
    decreases |faces|
  {
    if faces != [] {
      MarkFaceStep(s, faces[0], checkOut);
      MarkFacesKeepsIds(MarkFace(s, faces[0], checkOut), faces[1..], checkOut);
    }
  }

  /** In check-in mode a mark frame adds the accepted numbers to the
      list, one entry per accepted face, so marking one student twice adds
      two entries; in check-out mode the list does not change. */
  lemma {:induction false} MarkFacesCheckedIn(s: SessionState, faces: seq<DetectedFace>, checkOut: bool)
    ensures MarkFaces(s, faces, checkOut).checkedIn ==
      if checkOut then s.checkedIn else s.checkedIn + AcceptedIds(s.rows, faces)
    decreases |faces|
  {
    if faces != [] {
      var s' := MarkFace(s, faces[0], checkOut);
      MarkFaceStep(s, faces[0], checkOut);
      MarkFacesCheckedIn(s', faces[1..], checkOut);
      AcceptedIdsSeeOnlyIds(s.rows, s'.rows, faces[1..]);
      ListStep(s.checkedIn, s'.checkedIn, AcceptedId(s.rows, faces[0]), AcceptedIds(s.rows, faces[1..]),
               MarkFaces(s, faces, checkOut).checkedIn, checkOut);
    }
  }

  lemma ListStep(c: seq<string>, c': seq<string>, head: seq<string>, tail: seq<string>,
                 result: seq<string>, checkOut: bool)
    requires c' == if checkOut then c else c + head
    requires result == if checkOut then c' else c' + tail
    ensures result == if checkOut then c else c + (head + tail)
  {
  }

  lemma {:induction false} AcceptedIdsSeeOnlyIds(rows: seq<Row>, rows': seq<Row>, faces: seq<DetectedFace>)
    requires Ids(rows) == Ids(rows')
    ensures AcceptedIds(rows, faces) == AcceptedIds(rows', faces)
    decreases |faces|
  {
    if faces != [] {
      RecogniseSeesOnlyIds(faces[0].marked, rows, rows');
      AcceptedIdsSeeOnlyIds(rows, rows', faces[1..]);
    }
  }

  /** Every number in the list is a registration number of the roster. */
  lemma {:induction false} MarkFacesListRegistered(s: SessionState, faces: seq<DetectedFace>, checkOut: bool)
    requires forall x :: x in s.checkedIn ==> x in Ids(s.rows)
    ensures forall x :: x in MarkFaces(s, faces, checkOut).checkedIn ==> x in Ids(s.rows)
    decreases |faces|
  {
    if faces != [] {
      MarkFaceStep(s, faces[0], checkOut);
      MarkFacesListRegistered(MarkFace(s, faces[0], checkOut), faces[1..], checkOut);
    }
  }

  /** Over a whole run the number column stays as it was, and every
      number in the list is registered. */
  lemma {:induction false} RunKeepsIds(s: SessionState, frames: seq<Frame>, registered: seq<string>, checkOut: bool)
    requires forall x :: x in s.checkedIn ==> x in Ids(s.rows)
    ensures var r := Run(s, frames, registered, checkOut).state;
      && Ids(r.rows) == Ids(s.rows)
      && forall x :: x in r.checkedIn ==> x in Ids(s.rows)
    decreases |frames|
  {
    if frames != [] && frames[0].ok {
      var drawn := s.(displayed := s.displayed + [ShowFrame(s.rows, frames[0].faces)]);
      MarkFacesKeepsIds(drawn, frames[0].faces, checkOut);
      MarkFacesListRegistered(drawn, frames[0].faces, checkOut);
      var next := FrameStep(s, frames[0], registered, checkOut);
      if frames[0].quitKey != QuitKey {
        RunKeepsIds(next, frames[1..], registered, checkOut);
      }
    }
  }

  /** The names of rows not in a list depend only on the numbers and the
      names, which marks do not change. */
  lemma {:induction false} NamesNotInSeesOnlyStudents(rows: seq<Row>, rows': seq<Row>, checked: seq<string>)
    requires SameStudents(rows, rows')
    ensures NamesNotIn(rows, checked) == NamesNotIn(rows', checked)
    decreases |rows|
  {
    if rows != [] {
      assert SameStudents(rows[1..], rows'[1..]) by {
        forall i | 0 <= i < |rows| - 1
          ensures rows[1..][i].regNo == rows'[1..][i].regNo && rows[1..][i].name == rows'[1..][i].name
        {
          assert rows[1..][i] == rows[i + 1] && rows'[1..][i] == rows'[i + 1];
        }
      }
      NamesNotInSeesOnlyStudents(rows[1..], rows'[1..], checked);
    }
  }

  /** What a reminder announces, given the check-in list `list` as it
      stands later: the names, in roster order, of the rows whose number is
      not in the list as it stood when the reminder fired (a prefix of
      `list` with at least three entries); never an empty list. */
  ghost predicate AnnouncesUnchecked(rows: seq<Row>, list: seq<string>, names: seq<string>) {
    names != [] && exists c :: |c| >= 3 && c <= list && names == NamesNotIn(rows, c)
  }

  /** On a mark frame, a reminder that fires names exactly the students of
      the roster (as it stood when the frame began) who are not in the
      list as it stands after the frame's marks. */
  lemma FrameReminderNamesUnchecked(s: SessionState, frame: Frame, checkOut: bool)
    ensures var drawn := s.(displayed := s.displayed + [ShowFrame(s.rows, frame.faces)]);
      var m := MarkFaces(drawn, frame.faces, checkOut);
      Reminder(m.rows, Ids(s.rows), m.checkedIn).Some? ==>
        Reminder(m.rows, Ids(s.rows), m.checkedIn).value == NamesNotIn(s.rows, m.checkedIn)
  {
    var drawn := s.(displayed := s.displayed + [ShowFrame(s.rows, frame.faces)]);
    var m := MarkFaces(drawn, frame.faces, checkOut);
    MarkFacesKeepsIds(drawn, frame.faces, checkOut);
    if Reminder(m.rows, Ids(s.rows), m.checkedIn).Some? {
      ReminderNamesUnchecked(m.rows, m.checkedIn);
      NamesNotInSeesOnlyStudents(s.rows, m.rows, m.checkedIn);
    }
  }

  /** One frame keeps the students, only extends the list, keeps what was
      announced before, and adds at most one announcement: the non-empty
      list of names of the students missing from the list the frame ends
      with, which then has at least three entries. */
  lemma FrameStepAnnouncements(s: SessionState, frame: Frame, checkOut: bool)
    ensures var next := FrameStep(s, frame, Ids(s.rows), checkOut);
      && SameStudents(s.rows, next.rows)
      && s.checkedIn <= next.checkedIn
      && |s.announced| <= |next.announced| <= |s.announced| + 1
      && next.announced[..|s.announced|] == s.announced
      && (|next.announced| > |s.announced| ==>
            && |next.checkedIn| >= 3
            && next.announced[|s.announced|] == NamesNotIn(s.rows, next.checkedIn)
            && next.announced[|s.announced|] != [])
  {
    var drawn := s.(displayed := s.displayed + [ShowFrame(s.rows, frame.faces)]);
    var m := MarkFaces(drawn, frame.faces, checkOut);
    MarkFacesKeepsIds(drawn, frame.faces, checkOut);
    MarkFacesCheckedIn(drawn, frame.faces, checkOut);
    if frame.markKey == SpaceKey {
      FrameReminderNamesUnchecked(s, frame, checkOut);
      var r := Reminder(m.rows, Ids(s.rows), m.checkedIn);
      if r.Some? {
        var ids := Ids(s.rows);
        var u := Unchecked(ids, m.checkedIn);
        assert u != [] && u[0] in ids;
        var k :| 0 <= k < |ids| && ids[k] == u[0];
        assert m.rows[k].regNo in u;
        assert m.rows[k].name in r.value;
        assert m.announced + [r.value] == s.announced + [r.value];
      }
    }
  }

  /** Over the frame loop the list only grows and earlier announcements
      stay. */
  lemma {:induction false} RunExtends(base: seq<Row>, s: SessionState, frames: seq<Frame>, checkOut: bool)
    requires SameStudents(base, s.rows)
    ensures var r := Run(s, frames, Ids(base), checkOut).state;
      && s.checkedIn <= r.checkedIn
      && |s.announced| <= |r.announced|
      && r.announced[..|s.announced|] == s.announced
    decreases |frames|
  {
    if frames != [] && frames[0].ok && frames[0].quitKey != QuitKey {
      assert Ids(base) == Ids(s.rows);
      FrameStepAnnouncements(s, frames[0], checkOut);
      var next := FrameStep(s, frames[0], Ids(base), checkOut);
      RunExtends(base, next, frames[1..], checkOut);
      var r := Run(next, frames[1..], Ids(base), checkOut).state;
      assert s.checkedIn == next.checkedIn[..|s.checkedIn|] == r.checkedIn[..|s.checkedIn|];
      assert r.announced[..|s.announced|] == next.announced[..|s.announced|];
    } else if frames != [] && frames[0].ok {
      assert Ids(base) == Ids(s.rows);
      FrameStepAnnouncements(s, frames[0], checkOut);
    }
  }

  /** Every announcement made so far names the students missing from the
      list as it stood then, read against the list `s` holds now. */
  ghost predicate AnnouncementsHold(base: seq<Row>, s: SessionState) {
    forall k :: 0 <= k < |s.announced| ==> AnnouncesUnchecked(base, s.checkedIn, s.announced[k])
  }

  /** The announcement one frame adds, read against the list after it. */
  lemma FrameAnnouncement(base: seq<Row>, s: SessionState, next: SessionState)
    requires SameStudents(base, s.rows)
    requires |next.announced| > |s.announced| ==>
      && |next.checkedIn| >= 3
      && next.announced[|s.announced|] == NamesNotIn(s.rows, next.checkedIn)
      && next.announced[|s.announced|] != []
    ensures |next.announced| > |s.announced| ==> AnnouncesUnchecked(base, next.checkedIn, next.announced[|s.announced|])
  {
    if |next.announced| > |s.announced| {
      NamesNotInSeesOnlyStudents(base, s.rows, next.checkedIn);
      assert next.checkedIn <= next.checkedIn;
    }
  }

  /** Extending the list keeps earlier announcements valid, and one new
      valid announcement keeps them all valid. */
  lemma AnnouncementsExtend(base: seq<Row>, ann: seq<seq<string>>, list: seq<string>,
                            ann': seq<seq<string>>, list': seq<string>)
    requires list <= list'
    requires |ann| <= |ann'| <= |ann| + 1 && ann'[..|ann|] == ann
    requires forall k :: 0 <= k < |ann| ==> AnnouncesUnchecked(base, list, ann[k])
    requires |ann'| > |ann| ==> AnnouncesUnchecked(base, list', ann'[|ann|])
    ensures forall k :: 0 <= k < |ann'| ==> AnnouncesUnchecked(base, list', ann'[k])
  {
    forall k | 0 <= k < |ann'|
      ensures AnnouncesUnchecked(base, list', ann'[k])
    {
      if k < |ann| {
        assert ann'[k] == ann[k];
        var c :| |c| >= 3 && c <= list && ann[k] == NamesNotIn(base, c);
        assert c == list[..|c|] == list'[..|c|];
      }
    }
  }

  /** One frame keeps the announcement invariant. */
  lemma FrameStepKeepsAnnouncements(base: seq<Row>, s: SessionState, frame: Frame, checkOut: bool)
    requires SameStudents(base, s.rows) && AnnouncementsHold(base, s)
    ensures var next := FrameStep(s, frame, Ids(base), checkOut);
      SameStudents(base, next.rows) && AnnouncementsHold(base, next)
  {
    assert Ids(base) == Ids(s.rows);
    FrameStepAnnouncements(s, frame, checkOut);
    var next := FrameStep(s, frame, Ids(base), checkOut);
    FrameAnnouncement(base, s, next);
    AnnouncementsExtend(base, s.announced, s.checkedIn, next.announced, next.checkedIn);
    assert SameStudents(base, next.rows) by {
      forall i | 0 <= i < |base|
        ensures base[i].regNo == next.rows[i].regNo && base[i].name == next.rows[i].name
      {
        assert s.rows[i].regNo == next.rows[i].regNo && s.rows[i].name == next.rows[i].name;
      }
    }
  }

  /** The frame loop keeps the announcement invariant. */
  lemma {:induction false} RunAnnouncements(base: seq<Row>, s: SessionState, frames: seq<Frame>, checkOut: bool)
    requires SameStudents(base, s.rows) && AnnouncementsHold(base, s)
    ensures AnnouncementsHold(base, Run(s, frames, Ids(base), checkOut).state)
    decreases |frames|
  {
    if frames != [] && frames[0].ok {
      FrameStepKeepsAnnouncements(base, s, frames[0], checkOut);
      var next := FrameStep(s, frames[0], Ids(base), checkOut);
      if frames[0].quitKey != QuitKey {
        RunAnnouncements(base, next, frames[1..], checkOut);
      }
    }
  }

  /** Every announcement of a session names, in roster order, the students
      missing from the check-in list as it stood when the reminder fired:
      a prefix, with at least three entries, of the list the session ends
      with. */
  lemma SessionAnnouncements(rows: seq<Row>, frames: seq<Frame>, checkOut: bool)
    ensures var r := Session(rows, frames, checkOut).state;
      forall k :: 0 <= k < |r.announced| ==> AnnouncesUnchecked(rows, r.checkedIn, r.announced[k])
  {
    var s := SessionState(rows, [], [], []);
    assert SameStudents(rows, s.rows);
    RunAnnouncements(rows, s, frames, checkOut);
    assert Session(rows, frames, checkOut) == Run(s, frames, Ids(rows), checkOut);
  }

  /** A check-out run with fewer than three list entries never touches
      the list and never announces anything. */
  lemma {:induction false} CheckOutRunQuiet(s: SessionState, frames: seq<Frame>, registered: seq<string>)
    requires |s.checkedIn| < 3
    ensures Run(s, frames, registered, true).state.checkedIn == s.checkedIn
    ensures Run(s, frames, registered, true).state.announced == s.announced
    decreases |frames|
  {
    if frames != [] && frames[0].ok {
      var drawn := s.(displayed := s.displayed + [ShowFrame(s.rows, frames[0].faces)]);
      MarkFacesKeepsIds(drawn, frames[0].faces, true);
      MarkFacesCheckedIn(drawn, frames[0].faces, true);
      var next := FrameStep(s, frames[0], registered, true);
      if frames[0].quitKey != QuitKey {
        CheckOutRunQuiet(next, frames[1..], registered);
      }
    }
  }

  /** A check-out session leaves the list empty, so the reminder never
      fires. */
  lemma CheckOutSessionNeverReminds(rows: seq<Row>, frames: seq<Frame>)
    ensures Session(rows, frames, true).state.checkedIn == []
    ensures Session(rows, frames, true).state.announced == []
  {
    CheckOutRunQuiet(SessionState(rows, [], [], []), frames, Ids(rows));
  }

  /** A session keeps the roster's number column and only lists numbers
      that are in it, so the registered snapshot stays the roster's
      column. */
  lemma SessionKeepsIds(rows: seq<Row>, frames: seq<Frame>, checkOut: bool)
    ensures Ids(Session(rows, frames, checkOut).state.rows) == Ids(rows)
    ensures forall x :: x in Session(rows, frames, checkOut).state.checkedIn ==> x in Ids(rows)
  {
    RunKeepsIds(SessionState(rows, [], [], []), frames, Ids(rows), checkOut);
  }

  /** One check-in frame showing one accepted face, then quit: the
      student's Check-in holds the time, every other column and row is as
      before, the list holds that one number and nothing is announced. */
  lemma SingleCheckIn(rows: seq<Row>, f: DetectedFace)
    requires Recognise(f.marked, rows).Some?
    ensures var id := Recognise(f.marked, rows).value;
      var r := Session(rows, [Frame(true, [f], SpaceKey, QuitKey)], false);
      && r.stop == Quit
      && r.state.rows == MarkRows(rows, id, CheckIn, f.time)
      && r.state.checkedIn == [id]
      && r.state.announced == []
  {
    var id := Recognise(f.marked, rows).value;
    var frame := Frame(true, [f], SpaceKey, QuitKey);
    var drawn := SessionState(rows, [], [], [ShowFrame(rows, [f])]);
    assert SessionState(rows, [], [], []).(displayed := [] + [ShowFrame(rows, frame.faces)]) == drawn;
    var marked := MarkFace(drawn, f, false);
    assert marked == SessionState(MarkRows(rows, id, CheckIn, f.time), [id], [], drawn.displayed);
    assert [f][1..] == [];
    assert MarkFaces(drawn, [f], false) == marked;
    assert Reminder(marked.rows, Ids(rows), marked.checkedIn).None?;
    assert FrameStep(SessionState(rows, [], [], []), frame, Ids(rows), false) == marked;
  }

  /** The drawing loop of one frame: a name for each detected face. */
  method DrawNames(rows: seq<Row>, faces: seq<DetectedFace>) returns (names: seq<string>)
    ensures names == ShowFrame(rows, faces)
  {
    names := [];
    for j := 0 to |faces|
      invariant |names| == j
      invariant forall k :: 0 <= k < j ==> names[k] == DisplayName(faces[k].shown, rows)
    {
      names := names + [DisplayName(faces[j].shown, rows)];
    }
  }

  /** The marking loop of one frame, run when the space key was pressed:
      it updates the roster in place and returns the new list. */
  method MarkFrame(roster: Roster, faces: seq<DetectedFace>, checkOut: bool, checkedIn: seq<string>,
                   announced: seq<seq<string>>, displayed: seq<seq<string>>)
    returns (checkedIn': seq<string>)
    modifies roster
    ensures SessionState(roster.rows, checkedIn', announced, displayed)
         == MarkFaces(SessionState(old(roster.rows), checkedIn, announced, displayed), faces, checkOut)
  {
    checkedIn' := checkedIn;
    for j := 0 to |faces|
      invariant MarkFaces(SessionState(old(roster.rows), checkedIn, announced, displayed), faces, checkOut)
             == MarkFaces(SessionState(roster.rows, checkedIn', announced, displayed), faces[j..], checkOut)
    {
      var p := faces[j].marked;
      assert faces[j..][1..] == faces[j + 1..];
      if p.confidence < Threshold {
        var id := IntToString(p.predicted);
        var found := roster.Contains(id);
        if found {
          if checkOut {
            roster.Mark(id, CheckOut, faces[j].time);
          } else {
            roster.Mark(id, CheckIn, faces[j].time);
            checkedIn' := checkedIn' + [id];
          }
        }
      }
    }
    assert faces[|faces|..] == [];
  }

  /** One pass of the loop after a successful read: draw, and on the mark
      key mark the faces and evaluate the reminder. */
  method ProcessFrame(roster: Roster, frame: Frame, registered: seq<string>, checkOut: bool,
                      checkedIn: seq<string>, announced: seq<seq<string>>, displayed: seq<seq<string>>)
    returns (checkedIn': seq<string>, announced': seq<seq<string>>, displayed': seq<seq<string>>)
    modifies roster
    ensures SessionState(roster.rows, checkedIn', announced', displayed')
         == FrameStep(SessionState(old(roster.rows), checkedIn, announced, displayed), frame, registered, checkOut)
  {
    var names := DrawNames(roster.rows, frame.faces);
    displayed' := displayed + [names];
    checkedIn', announced' := checkedIn, announced;
    if frame.markKey == SpaceKey {
      checkedIn' := MarkFrame(roster, frame.faces, checkOut, checkedIn, announced, displayed');
      if |checkedIn'| >= 3 {
        var unchecked := Unchecked(registered, checkedIn');
        if unchecked != [] {
          announced' := announced + [NamesOf(roster.rows, unchecked)];
        }
      }
    }
  }

  /** `mark_attendance`. Without a model file, or when the camera does not
      open, it returns before anything changes; otherwise it runs the
      session on the roster as it stands, updating the roster in place. */
  method MarkAttendance(roster: Roster, checkOut: bool, modelExists: bool, cameraOpens: bool,
                        frames: seq<Frame>)
    returns (stop: SessionEnd, checkedIn: seq<string>, announced: seq<seq<string>>,
             displayed: seq<seq<string>>)
    modifies roster
    ensures !modelExists || !cameraOpens ==>
      && stop == (if !modelExists then NoModel else CameraNotOpened)
      && roster.rows == old(roster.rows)
      && checkedIn == [] && announced == [] && displayed == []
    ensures modelExists && cameraOpens ==>
      var r := Session(old(roster.rows), frames, checkOut);
      && stop == r.stop && roster.rows == r.state.rows && checkedIn == r.state.checkedIn
      && announced == r.state.announced && displayed == r.state.displayed
  {
    checkedIn, announced, displayed := [], [], [];
    if !modelExists {
      return NoModel, checkedIn, announced, displayed;
    }
    if !cameraOpens {
      return CameraNotOpened, checkedIn, announced, displayed;
    }
    var registered := Ids(roster.rows);
    ghost var whole := Session(roster.rows, frames, checkOut);
    var i := 0;
    while true
      invariant 0 <= i <= |frames|
      invariant Run(SessionState(roster.rows, checkedIn, announced, displayed), frames[i..], registered, checkOut)
             == whole
      decreases |frames| - i
    {
      if i == |frames| || !frames[i].ok {
        // camera error
        stop := CameraError;
        break;
      }
      assert frames[i..][1..] == frames[i + 1..];
      checkedIn, announced, displayed :=
        ProcessFrame(roster, frames[i], registered, checkOut, checkedIn, announced, displayed);
      if frames[i].quitKey == QuitKey {
        stop := Quit;
        break;
      }
      i := i + 1;
    }
  }
}
