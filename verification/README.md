# Face-recognition attendance: the bookkeeping, in Dafny

This project models the bookkeeping of `attendance.py`, the face-recognition
attendance system, around its calls into the camera, the face detector, the
face recognizer and the speech engine. It covers four parts:

- **The roster** (`roster.dfy`). This is the in-memory `df` table with the
  columns Registration Number, Name, Department, Email, Check-in and Check-out.
  It is the class `Roster.Roster`. Registration appends a row. A mark writes one
  timestamp column on every row with a matching number and changes nothing else
  (`MarkRows`).
- **Enrollment** (`enrollment.dfy`). This is the capture loop of
  `register_student` and the row it appends afterwards. Each frame is an input
  that gives three things: whether the read succeeded, the key pressed, and the
  number of faces detected. A stream that runs out counts as a failed read.
- **Training** (`training.dfy`). This is the file filter of `train_model`.
  A file is kept when its name ends in `.jpg`, the part before the first `_` is
  a non-empty digit string, and the image loads. Faces and labels are gathered
  in parallel. Training stops before the model artifact is touched when nothing
  qualifies. The saved artifact is modelled as the training set it was trained
  on.
- **Recognition** (`recognition.dfy`). This is the session of
  `mark_attendance`. `Session` and `Run` are the specification functions. The
  method `MarkAttendance` is proved to compute exactly what they give. A face is
  accepted when its confidence is below 50 and `str(label)` is the registration
  number of some row. In check-in mode each accepted face adds its number to
  `checked_in_students`, duplicates included. Once the list has three entries,
  each mark key press announces the names of the students who are registered
  but not yet in the list.

`decimal.dfy` gives `str.isdigit`, `int(s)` and `str(n)` on ASCII digits.
Training labels are `int(prefix)`, but recognition compares `str(label)` with
the roster's text. Because of this, a registration number written with a
leading zero, such as "007", can never be recognised
(`Recognition.LeadingZeroIdNeverRecognised`). Every number in the canonical
form that `str` produces, below 2^31 so that it fits the recognizer's 32-bit
label, can be recognised (`Recognition.EnrolledIdRecognised`).

Behaviour of the code that is easy to misread:

- Enrollment does not always end with exactly five samples. One space-key frame
  with several faces saves all of them, so the count can pass five. A failed
  read ends the loop early. In both cases the row is still appended.
- The reminder threshold counts list entries, not distinct students.
- The names announced come from the current roster rows whose number is in the
  unchecked list, in roster order.
- The recognizer is asked twice per face: once on the resized crop for display
  (line 153), and once on the crop as detected when marking (line 173). The two
  answers may differ, so a detected face carries both predictions.
- Each frame reads the key twice: the mark key at line 169 and the quit key at
  line 199.

## Model

| member | source | states |
|---|---|---|
| `Decimal.NatToString` | Face-Recognition-based-Attendance-System/attendance.py:157 | `str(n)` is a non-empty digit string with no leading zero unless n is 0 |
| `Decimal.IntToString` | Face-Recognition-based-Attendance-System/attendance.py:175 | `str(label)` starts with '-' exactly for a negative label and is canonical decimal otherwise |
| `Decimal.ValueOfNatToString` | Face-Recognition-based-Attendance-System/attendance.py:114 | `int(str(n)) == n` |
| `Decimal.NatToStringOfValue` | Face-Recognition-based-Attendance-System/attendance.py:114 | `str(int(s)) == s` for every digit string in canonical form |
| `Decimal.NatToStringInjective` | Face-Recognition-based-Attendance-System/attendance.py:70 | different numbers never render to the same text |
| `Decimal.NeverRenderedWithLeadingZero` | Face-Recognition-based-Attendance-System/attendance.py:175-176 | no integer label renders as a digit string with a leading zero |
| `Roster.NewRow` | Face-Recognition-based-Attendance-System/attendance.py:80-81 | the registered row carries the four given fields and empty Check-in and Check-out |
| `Roster.Ids` | Face-Recognition-based-Attendance-System/attendance.py:138 | the registered list has one entry per row: that row's number, in row order |
| `Roster.FindRow` | Face-Recognition-based-Attendance-System/attendance.py:158-160 | the lookup succeeds exactly when some row has the number, and then it finds the first such row |
| `Roster.MarkRows` | Face-Recognition-based-Attendance-System/attendance.py:181-184 | matching rows get the time in the chosen column and keep the other column. Non-matching rows are unchanged. No row's number, name, department or email changes |
| `Roster.MarkKeepsIds` | Face-Recognition-based-Attendance-System/attendance.py:182-184 | a mark leaves the Registration Number column as it was, and every row keeps its number and name |
| `Roster.MarkAbsentIdIsIdentity` | Face-Recognition-based-Attendance-System/attendance.py:182-184 | marking a number no row has leaves the table unchanged |
| `Roster.MarkIdempotent` | Face-Recognition-based-Attendance-System/attendance.py:182-184 | the same mark made twice gives the same table as once |
| `Roster.MarkLastWins` | Face-Recognition-based-Attendance-System/attendance.py:182-184 | a second mark of the same number and column overwrites the first time |
| `Roster.MarkThenFind` | Face-Recognition-based-Attendance-System/attendance.py:176-184 | after a mark, the lookup still finds the same row, and its marked column holds the time |
| `Roster.Roster.Empty` | Face-Recognition-based-Attendance-System/attendance.py:24-26 | with no roster file, the table starts with no rows |
| `Roster.Roster.Loaded` | Face-Recognition-based-Attendance-System/attendance.py:27-28 | an existing roster file's rows become the table |
| `Roster.Roster.Append` | Face-Recognition-based-Attendance-System/attendance.py:80-82 | the new table is the old table plus one row at the end |
| `Roster.Roster.Mark` | Face-Recognition-based-Attendance-System/attendance.py:181-184 | the new table is `MarkRows` of the old one |
| `Roster.Roster.Contains` | Face-Recognition-based-Attendance-System/attendance.py:176-177 | the answer is true exactly when some row has the number |
| `Enrollment.SampleNames` | Face-Recognition-based-Attendance-System/attendance.py:66-71 | the saved files are `{reg_no}_{i}.jpg` for i = 0 up to count - 1, in order |
| `Enrollment.CaptureCount` | Face-Recognition-based-Attendance-System/attendance.py:47-75 | the counter never decreases. It grows by at most the faces offered on space frames. Once at five it stays put |
| `Enrollment.CaptureOvershootBound` | Face-Recognition-based-Attendance-System/attendance.py:64-75 | the final count is below 5 + m when no frame has more than m faces |
| `Enrollment.SingleFaceCaptureAtMostFive` | Face-Recognition-based-Attendance-System/attendance.py:64-75 | with at most one face per frame, at most five samples are saved |
| `Enrollment.SingleFaceCaptureSavesFive` | Face-Recognition-based-Attendance-System/attendance.py:45-75 | with at most one face per frame, exactly five samples are saved when every read succeeds and the space frames offer five faces |
| `Enrollment.CaptureReachesFive` | Face-Recognition-based-Attendance-System/attendance.py:47-75 | if every read succeeds and the space frames offer enough faces, the count reaches five |
| `Enrollment.SampleNamesDistinct` | Face-Recognition-based-Attendance-System/attendance.py:70 | two samples of one student never share a file name |
| `Enrollment.SaveFaces` | Face-Recognition-based-Attendance-System/attendance.py:66-72 | the counter goes up by the number of faces, and one file per face is saved, numbered on from the old count |
| `Enrollment.Capture` | Face-Recognition-based-Attendance-System/attendance.py:45-75 | the loop's final count is `CaptureCount(frames, 0)`, and it saves exactly `SampleNames(reg_no, count)` |
| `Enrollment.RegisterStudent` | Face-Recognition-based-Attendance-System/attendance.py:40-83 | if the camera fails to open, nothing changes. Otherwise it saves the captured samples and appends exactly one new row, even after an early camera error and without a duplicate check |
| `Training.PrefixBeforeUnderscore` | Face-Recognition-based-Attendance-System/attendance.py:99 | `name.split("_")[0]` is a prefix of the name with no underscore, and is either the whole name or ends right before the first '_' |
| `Training.SampleLabel` | Face-Recognition-based-Attendance-System/attendance.py:98-101 | a name yields a label exactly when it ends in ".jpg" and its prefix before '_' is a non-empty digit string |
| `Training.Gather` | Face-Recognition-based-Attendance-System/attendance.py:97-114 | faces and labels always have equal length, at most the number of files |
| `Training.GatheredLabels` | Face-Recognition-based-Attendance-System/attendance.py:97-114 | a label is gathered exactly when some usable file's name gives it |
| `Training.GatherPairs` | Face-Recognition-based-Attendance-System/attendance.py:97-114 | faces and labels stay paired: the k-th face and the k-th label come from the same usable file |
| `Training.GatherEmpty` | Face-Recognition-based-Attendance-System/attendance.py:97-118 | the training data is empty exactly when no file is usable |
| `Training.GatherAppend` | Face-Recognition-based-Attendance-System/attendance.py:97-114 | faces and labels are gathered in listing order: gathering a concatenation concatenates the results |
| `Training.EnrolledSampleLabel` | Face-Recognition-based-Attendance-System/attendance.py:99-114 | a sample `{reg_no}_{i}.jpg` of a digit-string number is trained under `int(reg_no)` |
| `Training.NonNumericSampleSkipped` | Face-Recognition-based-Attendance-System/attendance.py:99-103 | a sample of a non-numeric number without underscores is skipped |
| `Training.TrainModel` | Face-Recognition-based-Attendance-System/attendance.py:88-121 | with no sample directory or no usable file, it reports the error and leaves the model artifact untouched. Otherwise it replaces the artifact with one trained on every usable file |
| `Recognition.Recognise` | Face-Recognition-based-Attendance-System/attendance.py:174-177 | a prediction is accepted exactly when its confidence is below 50 and `str(label)` is some row's number. It resolves to that number |
| `Recognition.DisplayName` | Face-Recognition-based-Attendance-System/attendance.py:155-160 | the name drawn is "Unknown" unless the prediction is accepted. Then it is the name on the first row with that number, as `.values[0]` takes it |
| `Recognition.ShowFrame` | Face-Recognition-based-Attendance-System/attendance.py:150-164 | one name is drawn per detected face, from that face's display prediction |
| `Recognition.RecogniseSeesOnlyIds` | Face-Recognition-based-Attendance-System/attendance.py:176 | acceptance depends on the roster only through its number column |
| `Recognition.EnrolledIdRecognised` | Face-Recognition-based-Attendance-System/attendance.py:174-177 | a canonical number below 2^31, trained as `int(reg_no)`, is recognised as itself below the threshold |
| `Recognition.LeadingZeroIdNeverRecognised` | Face-Recognition-based-Attendance-System/attendance.py:174-177 | a number with a leading zero is never the result of recognition |
| `Recognition.Unchecked` | Face-Recognition-based-Attendance-System/attendance.py:192 | an entry is unchecked exactly when it is registered and not in the list. The result is no longer than the registered list |
| `Recognition.UncheckedAppend` | Face-Recognition-based-Attendance-System/attendance.py:192 | the filter keeps the registered order |
| `Recognition.NamesOf` | Face-Recognition-based-Attendance-System/attendance.py:194 | at most one name per roster row; a name is listed exactly when some row with a number in the selection carries it |
| `Recognition.NamesOfAppend` | Face-Recognition-based-Attendance-System/attendance.py:194 | the names come out in roster order: selecting from a concatenation of rows concatenates the name lists |
| `Recognition.Reminder` | Face-Recognition-based-Attendance-System/attendance.py:190-196 | the reminder fires exactly when the list has at least three entries and some registered number is not in it |
| `Recognition.ReminderNamesUnchecked` | Face-Recognition-based-Attendance-System/attendance.py:190-194 | with the roster's own number column as the registered list, the reminder names exactly the rows whose student is not checked in, in roster order |
| `Recognition.ReminderCountsEntries` | Face-Recognition-based-Attendance-System/attendance.py:190 | three check-ins of one student already trigger the reminder |
| `Recognition.MarkFaceEffect` | Face-Recognition-based-Attendance-System/attendance.py:171-185 | a rejected face changes nothing. An accepted face writes its time into the mode's column and, only in check-in mode, appends its number to the list |
| `Recognition.MarkFaceStep` | Face-Recognition-based-Attendance-System/attendance.py:174-185 | one face keeps the number column. In check-in mode it appends exactly what it is accepted as, which is always a registered number |
| `Recognition.MarkFacesKeepsIds` | Face-Recognition-based-Attendance-System/attendance.py:181-184 | marking the faces of a frame keeps the number column, every row's number and name, the announcements and the drawn names |
| `Recognition.MarkFacesCheckedIn` | Face-Recognition-based-Attendance-System/attendance.py:181-185 | check-in mode appends one entry per accepted face, duplicates kept. Check-out mode never extends the list |
| `Recognition.MarkFacesListRegistered` | Face-Recognition-based-Attendance-System/attendance.py:174-185 | every number added to the list is a registered number |
| `Recognition.RunKeepsIds` | Face-Recognition-based-Attendance-System/attendance.py:140-200 | over the frame loop the number column is unchanged, and the list holds only registered numbers |
| `Recognition.CheckOutRunQuiet` | Face-Recognition-based-Attendance-System/attendance.py:181-197 | in check-out mode the list and the announcements never change |
| `Recognition.CheckOutSessionNeverReminds` | Face-Recognition-based-Attendance-System/attendance.py:181-197 | a check-out session ends with an empty list and nothing announced |
| `Recognition.NamesNotInSeesOnlyStudents` | Face-Recognition-based-Attendance-System/attendance.py:194 | the names of the unchecked rows depend only on the numbers and names, which marks do not change |
| `Recognition.FrameReminderNamesUnchecked` | Face-Recognition-based-Attendance-System/attendance.py:169-196 | on a mark frame, a reminder that fires names exactly the roster's students, in roster order, who are not in the list after that frame's marks |
| `Recognition.FrameStepAnnouncements` | Face-Recognition-based-Attendance-System/attendance.py:146-200 | one frame keeps every row's number and name, only extends the list, keeps earlier announcements, and adds at most one: the non-empty names, in roster order, of the students missing from the list the frame ends with, which then has at least three entries |
| `Recognition.FrameStepKeepsAnnouncements` | Face-Recognition-based-Attendance-System/attendance.py:146-200 | one frame keeps the students and keeps every announcement a reminder for the list as it stood when it fired, a prefix of at least three entries of the list held now |
| `Recognition.RunExtends` | Face-Recognition-based-Attendance-System/attendance.py:140-200 | over the frame loop the list only grows and earlier announcements stay |
| `Recognition.RunAnnouncements` | Face-Recognition-based-Attendance-System/attendance.py:140-200 | the frame loop keeps that invariant: every announcement names the students of the starting roster missing from a prefix, of at least three entries, of the list held |
| `Recognition.SessionAnnouncements` | Face-Recognition-based-Attendance-System/attendance.py:124-203 | every announcement of a session is non-empty and names, in roster order, the students missing from the check-in list as it stood when the reminder fired, a prefix of at least three entries of the list the session ends with |
| `Recognition.SessionKeepsIds` | Face-Recognition-based-Attendance-System/attendance.py:137-185 | a session keeps the roster's number column, so the start-of-session snapshot stays accurate. The list holds only registered numbers |
| `Recognition.SingleCheckIn` | Face-Recognition-based-Attendance-System/attendance.py:169-188 | one accepted face on a check-in frame, then quit: only that student's Check-in changes, the list is that number, and nothing is announced |
| `Recognition.DrawNames` | Face-Recognition-based-Attendance-System/attendance.py:150-164 | the drawing loop returns exactly the names `ShowFrame` gives |
| `Recognition.MarkFrame` | Face-Recognition-based-Attendance-System/attendance.py:171-188 | the marking loop leaves the roster and the list as `MarkFaces` gives them |
| `Recognition.ProcessFrame` | Face-Recognition-based-Attendance-System/attendance.py:146-197 | one pass of the loop leaves the session as `FrameStep` gives it |
| `Recognition.MarkAttendance` | Face-Recognition-based-Attendance-System/attendance.py:124-203 | with no model file or a camera that fails to open, nothing changes. Otherwise the roster, list, announcements and drawn names end as `Session` of the roster at the start gives them |

Some specification functions have no contracts of their own. In
`recognition.dfy`, `MarkFace`, `MarkFaces`, `AcceptedIds`, `FrameStep`, `Run`
and `Session` define one mark, one frame and the whole session loop (lines
140-200). In `training.dfy`, `Add` is one pass of the file loop (lines 98-114).
The lemmas above state their properties.

A few helpers are used by the contracts above without contracts of their own:

- `Decimal.IsDigitString` is `str.isdigit` (line 101).
- `Decimal.DigitsValue` is `int(prefix)` (line 114).
- `Training.EndsWithJpg` is `file.endswith(".jpg")` (line 98).
- `Training.Usable` is the file filter of the training loop: a ".jpg" name
  with a digit prefix whose image loads (lines 98-110).
- `Enrollment.SampleName` is the file name `{reg_no}_{count}.jpg` (line 70).
- `Enrollment.Gain` is how many faces one frame saves (lines 64-71).
- `Roster.HasId` is the `not student_data.empty` test on the number lookup
  (lines 159 and 177).
- `Roster.Stamp` writes one timestamp column of a row (lines 182 and 184).
- `Roster.SameStudents` says two tables list the same numbers and names.
- `Recognition.AnnouncesUnchecked` is the shape of one announcement, and
  `Recognition.AnnouncementsHold` says every announcement so far has that
  shape. `Recognition.FrameAnnouncement` and `Recognition.AnnouncementsExtend`
  are proof steps for it.

## Left out

- Face detection, LBPH training and prediction, `resize`, `equalizeHist`, `cvtColor` and image reading and writing are foreign library calls. Detection results and predictions are inputs; whether an image loads is an `Option`.
- Camera capture, `imshow`, `waitKey`, `cap.release` and `destroyAllWindows` are device and window I/O. Frames are a finite input sequence, and running out of frames counts as a failed read.
- Speech output (lines 9-16, 85, 196) and console messages are left out. An announcement is recorded as the list of names it would speak.
- The CSV file and its writes after each change (lines 19-28, 83, 187) are persistence I/O and are left out. The in-memory table is what the model tracks.
- `datetime.now()` (line 179) is left out: each detected face carries the time that would be stamped if it is marked.
- Reading the model file (line 131) is left out. Only whether it exists is an input.
- The stdin menu loop (lines 205-222) and the `.strip()` of typed input (lines 35-38) are left out: this is dispatch over I/O. Inputs are taken as already stripped.
- `Enrollment.RegisterStudent`: does not call training at the end (line 86). Training needs the sample directory listing, which is an input to `Training.TrainModel`.
- File system effects are left out. Overwriting a sample file that has the same name, and the order of `os.listdir`, are not modelled; the listing is taken as given.
- `Training.SampleLabel`: digits are ASCII '0'-'9'. Python's `isdigit` also accepts other Unicode digits, which `int()` may then reject.
- `Training.TrainModel`: the histogram equalisation of each loaded image (line 112) is left out. A gathered face is the image as loaded.
- `Recognition.EnrolledIdRecognised`: labels are unbounded integers in the model. The recognizer stores its labels as 32-bit C integers (`np.array(labels)` at line 120 and `predict` at lines 153 and 173), so only numbers below 2^31 are promised to round-trip; what the recognizer does with a larger `int(reg_no)` is not modelled.
- `Recognition.Recognise`: registration numbers are strings throughout. A roster reloaded from CSV may hold integer numbers, so the string comparison at line 176 could never match; this pandas behaviour is not modelled.
