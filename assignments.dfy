/** Assignment records, the data the assignment form submits, the sample records,
    and the record shape that is kept in browser storage. */
module Assignments {
  import opened Civil

  datatype Option<T> = None | Some(value: T)

  /** Where an assignment came from; only the card's icon and label depend on it. */
  datatype Source = Manual | Canvas | Classroom

  /** An assignment as the manager keeps it in memory. Instants are milliseconds
      since 1970-01-01 local time. */
  datatype Assignment = Assignment(
    id: string,
    title: string,
    courseName: string,
    description: string,
    dueDate: int,
    source: Source,
    isCompleted: bool,
    createdAt: int,
    updatedAt: int)

  /** What the assignment form submits: the title, course and description inputs
      and the date and time inputs, already read as a calendar date and a time. */
  datatype FormData = FormData(
    title: string,
    course: string,
    description: Option<string>,
    date: Date,
    time: TimeOfDay)

  /** The form's date input only yields months 1..12, read here as 0..11. */
  predicate WellFormedForm(data: FormData)
  {
    0 <= data.date.month < 12
  }

  /** `data.description || ''`: a missing or empty description becomes the empty string. */
  function DescriptionOf(data: FormData): (d: string)
    ensures data.description.None? ==> d == ""
    ensures data.description.Some? ==> d == data.description.value
  {
    match data.description
    case None => ""
    case Some(text) => text
  }

  /** The due instant the form's date and time denote. */
  function DueDateOf(data: FormData): int
    requires WellFormedForm(data)
  {
    Instant(data.date, data.time)
  }

  /** The form's date and time are what the stored due date shows again. */
  lemma DueDateOfRoundTrip(data: FormData)
    requires WellFormedForm(data) && ValidTime(data.time)
    ensures DayOf(DueDateOf(data)) == DayNumberOf(data.date)
    ensures TimeOf(DueDateOf(data)) == data.time
  {
    InstantRoundTrip(data.date, data.time);
  }

  /** The three records the manager seeds an empty collection with, due two, five
      and seven days after now. */
  function SampleAssignments(now: int): (r: seq<Assignment>)
    ensures |r| == 3
    ensures forall i :: 0 <= i < 3 ==> r[i].createdAt == now && r[i].updatedAt == now && r[i].dueDate > now
    ensures r[0].id != r[1].id && r[1].id != r[2].id && r[0].id != r[2].id
  {
    [ Assignment("sample-1", "Math Homework Chapter 5", "Algebra II",
                 "Complete problems 1-20 on page 85",
                 now + 2 * MsPerDay, Manual, false, now, now),
      Assignment("sample-2", "History Essay", "World History",
                 "Write a 500-word essay on the Industrial Revolution",
                 now + 5 * MsPerDay, Canvas, false, now, now),
      Assignment("sample-3", "Science Lab Report", "Chemistry",
                 "Complete lab report for experiment 3",
                 now + 7 * MsPerDay, Classroom, true, now, now) ]
  }

  /** A record as read back from storage, where the timestamps may be missing. */
  datatype StoredAssignment = StoredAssignment(
    id: string,
    title: string,
    courseName: string,
    description: string,
    dueDate: int,
    source: Source,
    isCompleted: bool,
    createdAt: Option<int>,
    updatedAt: Option<int>)

  /** What the storage key holds: nothing, something that is not a list of records, or records. */
  datatype StoredPayload = Absent | Malformed | Records(records: seq<StoredAssignment>)

  /** The record that saving writes for an assignment: every field present. */
  function Stored(a: Assignment): StoredAssignment
  {
    StoredAssignment(a.id, a.title, a.courseName, a.description, a.dueDate, a.source,
                     a.isCompleted, Some(a.createdAt), Some(a.updatedAt))
  }

  function StoredAll(xs: seq<Assignment>): (r: seq<StoredAssignment>)
    ensures |r| == |xs| && forall i :: 0 <= i < |xs| ==> r[i] == Stored(xs[i])
  {
    seq(|xs|, i requires 0 <= i < |xs| => Stored(xs[i]))
  }

  /** A loaded record, with a missing createdAt or updatedAt set to now. */
  function Revive(s: StoredAssignment, now: int): (a: Assignment)
    ensures a.createdAt == (if s.createdAt.Some? then s.createdAt.value else now)
    ensures a.updatedAt == (if s.updatedAt.Some? then s.updatedAt.value else now)
    ensures Stored(a).(createdAt := s.createdAt, updatedAt := s.updatedAt) == s
  {
    var createdAt := match s.createdAt case Some(t) => t case None => now;
    var updatedAt := match s.updatedAt case Some(t) => t case None => now;
    Assignment(s.id, s.title, s.courseName, s.description, s.dueDate, s.source,
               s.isCompleted, createdAt, updatedAt)
  }

  function ReviveAll(rs: seq<StoredAssignment>, now: int): (r: seq<Assignment>)
    ensures |r| == |rs| && forall i :: 0 <= i < |rs| ==> r[i] == Revive(rs[i], now)
  {
    seq(|rs|, i requires 0 <= i < |rs| => Revive(rs[i], now))
  }

  /** The collection after loading: an absent payload keeps the current one, a
      malformed one empties it, and records are revived one by one. */
  function Loaded(current: seq<Assignment>, payload: StoredPayload, now: int): (r: seq<Assignment>)
    ensures payload.Absent? ==> r == current
    ensures payload.Malformed? ==> r == []
    ensures payload.Records? ==> |r| == |payload.records|
    ensures payload.Records? ==> forall i :: 0 <= i < |r| ==>
              var s := payload.records[i];
              && Stored(r[i]).(createdAt := s.createdAt, updatedAt := s.updatedAt) == s
              && r[i].createdAt == (if s.createdAt.Some? then s.createdAt.value else now)
              && r[i].updatedAt == (if s.updatedAt.Some? then s.updatedAt.value else now)
  {
    match payload
    case Absent => current
    case Malformed => []
    case Records(rs) => ReviveAll(rs, now)
  }

  /** Loading what was saved gives the saved collection back, whatever the clock says. */
  lemma LoadSavedRoundTrip(current: seq<Assignment>, xs: seq<Assignment>, now: int)
    ensures Loaded(current, Records(StoredAll(xs)), now) == xs
  {
    var r := Loaded(current, Records(StoredAll(xs)), now);
    assert forall i :: 0 <= i < |xs| ==> r[i] == xs[i];
  }
}
