/** The roster table: one row per registered student with the columns
    Registration Number, Name, Department, Email, Check-in and Check-out.
    The table lives in memory as the object `Roster`; writing it to the CSV
    file is persistence and is not part of this model. */
module Roster {
  import opened Util

  datatype Row = Row(regNo: string, name: string, department: string, email: string,
                     checkIn: string, checkOut: string)

  /** The two timestamp columns a mark can write. */
  datatype Column = CheckIn | CheckOut

  /** The row registration appends: both timestamps empty. */
  function NewRow(regNo: string, name: string, department: string, email: string): (r: Row)
    ensures r.regNo == regNo && r.name == name && r.department == department && r.email == email
    ensures r.checkIn == "" && r.checkOut == ""
  {
    Row(regNo, name, department, email, "", "")
  }

  /** The Registration Number column, as a list. */
  function Ids(rows: seq<Row>): (ids: seq<string>)
    ensures |ids| == |rows|
    ensures forall i :: 0 <= i < |rows| ==> ids[i] == rows[i].regNo
  {
    seq(|rows|, i requires 0 <= i < |rows| => rows[i].regNo)
  }

  /** Some row carries registration number `id`. */
  predicate HasId(rows: seq<Row>, id: string) {
    exists i :: 0 <= i < |rows| && rows[i].regNo == id
  }

  /** The index of the first row with registration number `id`
      (`df[df["Registration Number"] == id]` then `.values[0]`). */
  function FindRow(rows: seq<Row>, id: string): (r: Option<nat>)
    ensures r.Some? <==> HasId(rows, id)
    ensures r.Some? ==> r.value < |rows| && rows[r.value].regNo == id
    ensures r.Some? ==> forall j :: 0 <= j < r.value ==> rows[j].regNo != id
  {
    if rows == [] then None
    else if rows[0].regNo == id then Some(0)
    else match FindRow(rows[1..], id)
      case None => None
      case Some(k) => Some(k + 1)
  }

  /** `row` with `time` written into one timestamp column. */
  function Stamp(row: Row, column: Column, time: string): Row {
    match column
    case CheckIn => row.(checkIn := time)
    case CheckOut => row.(checkOut := time)
  }

  /** `df.loc[df["Registration Number"] == id, column] = time`: every row
      whose registration number is `id` gets `time` in `column`; the
      other column, the other fields and every other row stay as they
      were. */
  function MarkRows(rows: seq<Row>, id: string, column: Column, time: string): (r: seq<Row>)
    ensures |r| == |rows|
    ensures forall i :: 0 <= i < |rows| ==>
      && r[i].regNo == rows[i].regNo && r[i].name == rows[i].name
      && r[i].department == rows[i].department && r[i].email == rows[i].email
    ensures forall i :: 0 <= i < |rows| && rows[i].regNo != id ==> r[i] == rows[i]
    ensures forall i :: 0 <= i < |rows| && rows[i].regNo == id ==>
      if column == CheckIn then r[i].checkIn == time && r[i].checkOut == rows[i].checkOut
      else r[i].checkOut == time && r[i].checkIn == rows[i].checkIn
  {
    seq(|rows|, i requires 0 <= i < |rows| =>
      if rows[i].regNo == id then Stamp(rows[i], column, time) else rows[i])
  }

  /** Two tables list the same students, row by row: the same numbers
      and names in the same order (timestamps may differ). */
  predicate SameStudents(rows: seq<Row>, rows': seq<Row>) {
    |rows| == |rows'| &&
    forall i :: 0 <= i < |rows| ==> rows[i].regNo == rows'[i].regNo && rows[i].name == rows'[i].name
  }

  /** A mark never changes the Registration Number column, nor which
      student each row lists. */
  lemma MarkKeepsIds(rows: seq<Row>, id: string, column: Column, time: string)
    ensures Ids(MarkRows(rows, id, column, time)) == Ids(rows)
    ensures SameStudents(rows, MarkRows(rows, id, column, time))
  {
  }

  /** Marking an id that no row carries leaves the table as it was. */
  lemma MarkAbsentIdIsIdentity(rows: seq<Row>, id: string, column: Column, time: string)
    requires !HasId(rows, id)
    ensures MarkRows(rows, id, column, time) == rows
  {
    var r := MarkRows(rows, id, column, time);
    assert forall i :: 0 <= i < |rows| ==> r[i] == rows[i];
  }

  /** Marking the same id, column and time twice is the same as once. */
  lemma MarkIdempotent(rows: seq<Row>, id: string, column: Column, time: string)
    ensures MarkRows(MarkRows(rows, id, column, time), id, column, time)
         == MarkRows(rows, id, column, time)
  {
  }

  /** A later mark of the same id and column overwrites an earlier one. */
  lemma MarkLastWins(rows: seq<Row>, id: string, column: Column, t1: string, t2: string)
    ensures MarkRows(MarkRows(rows, id, column, t1), id, column, t2)
         == MarkRows(rows, id, column, t2)
  {
  }

  /** The lookup depends only on the Registration Number column. */
  lemma {:induction false} FindRowSeesOnlyIds(rows: seq<Row>, rows': seq<Row>, id: string)
    requires Ids(rows) == Ids(rows')
    ensures FindRow(rows, id) == FindRow(rows', id)
    decreases |rows|
  {
    if rows != [] {
      assert rows[0].regNo == Ids(rows)[0] == rows'[0].regNo;
      assert Ids(rows[1..]) == Ids(rows)[1..] == Ids(rows'[1..]);
      FindRowSeesOnlyIds(rows[1..], rows'[1..], id);
    }
  }

  /** After a mark, looking the id up finds the same row, and its marked
      column holds the time (the round trip of update and lookup). */
  lemma MarkThenFind(rows: seq<Row>, id: string, column: Column, time: string)
    requires HasId(rows, id)
    ensures var r := MarkRows(rows, id, column, time);
      && FindRow(r, id) == FindRow(rows, id)
      && (column == CheckIn ==> r[FindRow(r, id).value].checkIn == time)
      && (column == CheckOut ==> r[FindRow(r, id).value].checkOut == time)
  {
    var r := MarkRows(rows, id, column, time);
    MarkKeepsIds(rows, id, column, time);
    FindRowSeesOnlyIds(r, rows, id);
  }

  /** The in-memory roster (`df`), updated in place by registration and
      by marks. */
  class Roster {
    var rows: seq<Row>

    /** The table created when no roster file exists: no rows. */
    constructor Empty()
      ensures rows == []
    {
      rows := [];
    }

    /** The table read from an existing roster file. */
    constructor Loaded(table: seq<Row>)
      ensures rows == table
    {
      rows := table;
    }

    /** `df = pd.concat([df, new_data])`: one row added at the end. No
        check is made that its registration number is new. */
    method Append(row: Row)
      modifies this
      ensures rows == old(rows) + [row]
    {
      rows := rows + [row];
    }

    /** Writes `time` into `column` on every row whose registration
        number is `id`. */
    method Mark(id: string, column: Column, time: string)
      modifies this
      ensures rows == MarkRows(old(rows), id, column, time)
    {
      rows := MarkRows(rows, id, column, time);
    }

    /** Whether the lookup `df[df["Registration Number"] == id]` is
        non-empty. */
    method Contains(id: string) returns (found: bool)
      ensures found <==> HasId(rows, id)
    {
      found := FindRow(rows, id).Some?;
    }
  }
}
