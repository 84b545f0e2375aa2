/** The assignment collection and the operations that change it. Each operation of
    AssignmentManager is specified by a function of the old collection (Added,
    Updated, Deleted, Toggled); what the manager promises is proved about those. */
module Store {
  import opened Civil
  import opened Decimal
  import opened Sequences
  import opened Assignments

  /** The index of the first record with this id, or -1 (Array.prototype.findIndex). */
  function FirstMatch(xs: seq<Assignment>, id: string): (k: int)
    ensures -1 <= k < |xs|
    ensures k == -1 <==> forall j :: 0 <= j < |xs| ==> xs[j].id != id
    ensures k >= 0 ==> xs[k].id == id && forall j :: 0 <= j < k ==> xs[j].id != id
  {
    if xs == [] then -1
    else if xs[0].id == id then 0
    else
      var k := FirstMatch(xs[1..], id);
      if k == -1 then -1 else k + 1
  }

  /** Two collections with the same ids at the same positions have the same first match. */
  lemma FirstMatchFollowsIds(xs: seq<Assignment>, ys: seq<Assignment>, id: string)
    requires |xs| == |ys|
    requires forall j :: 0 <= j < |xs| ==> xs[j].id == ys[j].id
    ensures FirstMatch(xs, id) == FirstMatch(ys, id)
  {
    var k, l := FirstMatch(xs, id), FirstMatch(ys, id);
    if k != -1 && l != -1 {
      assert !(k < l) && !(l < k);
    }
  }

  /** The search findIndex and find perform, written as the loop it is. */
  method FindIndex(xs: seq<Assignment>, id: string) returns (index: int)
    ensures index == FirstMatch(xs, id)
    ensures index == -1 || (0 <= index < |xs| && xs[index].id == id)
  {
    index := 0;
    while index < |xs|
      invariant 0 <= index <= |xs|
      invariant forall j :: 0 <= j < index ==> xs[j].id != id
    {
      if xs[index].id == id {
        return;
      }
      index := index + 1;
    }
    index := -1;
  }

  /** The record addAssignment builds from the form; its id is the clock's reading
      written in decimal, as Date.now().toString() gives it. */
  function NewAssignment(data: FormData, now: int): Assignment
    requires WellFormedForm(data)
  {
    Assignment(IntToString(now), data.title, data.course, DescriptionOf(data),
               DueDateOf(data), Manual, false, now, now)
  }

  /** The collection after addAssignment: the new record is pushed, and when it is
      the only one the three sample records follow it. */
  function Added(xs: seq<Assignment>, data: FormData, now: int): (r: seq<Assignment>)
    requires WellFormedForm(data)
    ensures |r| == |xs| + 1 + (if |xs| == 0 then 3 else 0)
    ensures r[..|xs|] == xs
    ensures |xs| == 0 ==> r[1..] == SampleAssignments(now)
    ensures var a := r[|xs|];
      && a.id == IntToString(now) && a.source == Manual && !a.isCompleted
      && a.title == data.title && a.courseName == data.course
      && a.description == DescriptionOf(data) && a.dueDate == DueDateOf(data)
      && a.createdAt == now && a.updatedAt == now
  {
    var pushed := xs + [NewAssignment(data, now)];
    if |pushed| == 1 then pushed + SampleAssignments(now) else pushed
  }

  /** The collection after updateAssignment: the first record with the id takes the
      form's title, course, description and due date and the new updatedAt; id,
      source, completion and createdAt stay. Without such a record nothing changes. */
  function Updated(xs: seq<Assignment>, id: string, data: FormData, now: int): (r: seq<Assignment>)
    requires WellFormedForm(data)
    ensures |r| == |xs|
    ensures FirstMatch(xs, id) == -1 ==> r == xs
    ensures forall j :: 0 <= j < |xs| && j != FirstMatch(xs, id) ==> r[j] == xs[j]
    ensures var k := FirstMatch(xs, id);
      k >= 0 ==>
        && r[k].id == xs[k].id && r[k].source == xs[k].source
        && r[k].isCompleted == xs[k].isCompleted && r[k].createdAt == xs[k].createdAt
        && r[k].title == data.title && r[k].courseName == data.course
        && r[k].description == DescriptionOf(data) && r[k].dueDate == DueDateOf(data)
        && r[k].updatedAt == now
  {
    var k := FirstMatch(xs, id);
    if k == -1 then xs
    else
      xs[k := xs[k].(title := data.title, courseName := data.course,
                     description := DescriptionOf(data), dueDate := DueDateOf(data),
                     updatedAt := now)]
  }

  /** The condition "does not carry this id". */
  function IdIsNot(id: string): Assignment -> bool
  {
    (a: Assignment) => a.id != id
  }

  /** The collection after deleteAssignment: every record with the id is gone. */
  function Deleted(xs: seq<Assignment>, id: string): (r: seq<Assignment>)
    ensures forall a :: a in r ==> a.id != id
    ensures forall a :: multiset(r)[a] == if a.id == id then 0 else multiset(xs)[a]
  {
    Filter(xs, IdIsNot(id))
  }

  /** The collection after toggleAssignmentComplete: the first record with the id
      has its completion flipped and updatedAt set; nothing else changes. */
  function Toggled(xs: seq<Assignment>, id: string, now: int): (r: seq<Assignment>)
    ensures |r| == |xs|
    ensures FirstMatch(xs, id) == -1 ==> r == xs
    ensures forall j :: 0 <= j < |xs| && j != FirstMatch(xs, id) ==> r[j] == xs[j]
    ensures var k := FirstMatch(xs, id);
      k >= 0 ==>
        && r[k].isCompleted == !xs[k].isCompleted && r[k].updatedAt == now
        && r[k].(isCompleted := xs[k].isCompleted, updatedAt := xs[k].updatedAt) == xs[k]
  {
    var k := FirstMatch(xs, id);
    if k == -1 then xs
    else xs[k := xs[k].(isCompleted := !xs[k].isCompleted, updatedAt := now)]
  }

  /** Deleting keeps the survivors in their original order: it works part by part. */
  lemma DeletedKeepsOrder(xs: seq<Assignment>, ys: seq<Assignment>, id: string)
    ensures Deleted(xs + ys, id) == Deleted(xs, id) + Deleted(ys, id)
  {
    FilterAppend(xs, ys, IdIsNot(id));
  }

  /** Deleting an id no record has changes nothing. */
  lemma DeletedAbsentIsNoOp(xs: seq<Assignment>, id: string)
    requires FirstMatch(xs, id) == -1
    ensures Deleted(xs, id) == xs
  {
    assert forall a :: a in xs ==> a.id != id;
    FilterKeepsAll(xs, IdIsNot(id));
  }

  /** Deleting twice is deleting once. */
  lemma DeletedIdempotent(xs: seq<Assignment>, id: string)
    ensures Deleted(Deleted(xs, id), id) == Deleted(xs, id)
  {
    FilterIdempotent(xs, IdIsNot(id));
  }

  /** Toggling the same id twice restores every completion flag; only the first
      match's updatedAt keeps the second clock reading. */
  lemma ToggledTwice(xs: seq<Assignment>, id: string, now1: int, now2: int)
    ensures var k := FirstMatch(xs, id);
      Toggled(Toggled(xs, id, now1), id, now2)
        == if k == -1 then xs else xs[k := xs[k].(updatedAt := now2)]
  {
    var once := Toggled(xs, id, now1);
    FirstMatchFollowsIds(xs, once, id);
  }

  /** Updating keeps every record's id, so the same record stays the first match. */
  lemma UpdatedKeepsIds(xs: seq<Assignment>, id: string, data: FormData, now: int)
    requires WellFormedForm(data)
    ensures forall j :: 0 <= j < |xs| ==> Updated(xs, id, data, now)[j].id == xs[j].id
    ensures FirstMatch(Updated(xs, id, data, now), id) == FirstMatch(xs, id)
  {
    FirstMatchFollowsIds(xs, Updated(xs, id, data, now), id);
  }

  /** Updating twice with the same form at the same clock reading is updating once. */
  lemma UpdatedIdempotent(xs: seq<Assignment>, id: string, data: FormData, now: int)
    requires WellFormedForm(data)
    ensures Updated(Updated(xs, id, data, now), id, data, now) == Updated(xs, id, data, now)
  {
    UpdatedKeepsIds(xs, id, data, now);
  }

  /** Deleting the id of a record just added to a non-empty collection whose ids
      differ from it gives the collection back. */
  lemma DeleteUndoesAdd(xs: seq<Assignment>, data: FormData, now: int)
    requires WellFormedForm(data)
    requires |xs| > 0
    requires FirstMatch(xs, IntToString(now)) == -1
    ensures Deleted(Added(xs, data, now), IntToString(now)) == xs
  {
    var id := IntToString(now);
    var added := Added(xs, data, now);
    assert added == xs + [added[|xs|]];
    DeletedKeepsOrder(xs, [added[|xs|]], id);
    DeletedAbsentIsNoOp(xs, id);
    assert Deleted([added[|xs|]], id) == [];
  }

  /** Ids are not unique: two records added at the same clock reading share one,
      and toggling that id then reaches only the earlier of them. */
  lemma SameClockIdsCollide(xs: seq<Assignment>, d1: FormData, d2: FormData, now: int)
    requires WellFormedForm(d1) && WellFormedForm(d2)
    requires |xs| > 0
    requires FirstMatch(xs, IntToString(now)) == -1
    ensures var r := Added(Added(xs, d1, now), d2, now);
      && r[|xs|].id == r[|xs| + 1].id == IntToString(now)
      && FirstMatch(r, IntToString(now)) == |xs|
      && Toggled(r, IntToString(now), now)[|xs| + 1] == r[|xs| + 1]
  {
    var id := IntToString(now);
    var once := Added(xs, d1, now);
    var r := Added(once, d2, now);
    assert r[..|once|] == once;
    assert r[|xs|] == once[|xs|];
    assert forall j :: 0 <= j < |xs| ==> r[j] == xs[j];
    assert FirstMatch(r, id) == |xs|;
  }

  /** Records added at different clock readings get different ids. */
  lemma DistinctClocksDistinctIds(xs: seq<Assignment>, d1: FormData, d2: FormData, now1: int, now2: int)
    requires WellFormedForm(d1) && WellFormedForm(d2)
    requires now1 != now2
    ensures Added(xs, d1, now1)[|xs|].id != Added(xs, d2, now2)[|xs|].id
  {
    IntToStringInjective(now1, now2);
  }

  /** The collection after init: loaded from storage, and seeded with the sample
      records when that leaves it empty. */
  function Initialized(current: seq<Assignment>, payload: StoredPayload, now: int): (r: seq<Assignment>)
    ensures |r| > 0
    ensures |Loaded(current, payload, now)| > 0 ==> r == Loaded(current, payload, now)
    ensures |Loaded(current, payload, now)| == 0 ==> r == SampleAssignments(now)
  {
    var loaded := Loaded(current, payload, now);
    if |loaded| == 0 then SampleAssignments(now) else loaded
  }

  /** The manager's assignment store: a list of records that its operations change
      in place. Clock readings arrive as the parameter now. */
  class AssignmentManager {
    var assignments: seq<Assignment>

    constructor ()
      ensures assignments == []
    {
      assignments := [];
    }

    method LoadAssignments(payload: StoredPayload, now: int)
      modifies this
      ensures assignments == Loaded(old(assignments), payload, now)
    {
      match payload {
        case Absent =>
        case Malformed =>
          assignments := [];
        case Records(rs) =>
          assignments := ReviveAll(rs, now);
      }
    }

    method Init(payload: StoredPayload, now: int)
      modifies this
      ensures assignments == Initialized(old(assignments), payload, now)
      ensures |assignments| > 0
    {
      LoadAssignments(payload, now);
      if |assignments| == 0 {
        AddSampleAssignments(now);
      }
    }

    method AddSampleAssignments(now: int)
      modifies this
      ensures assignments == old(assignments) + SampleAssignments(now)
    {
      assignments := assignments + SampleAssignments(now);
    }

    method AddAssignment(data: FormData, now: int)
      requires WellFormedForm(data)
      modifies this
      ensures assignments == Added(old(assignments), data, now)
    {
      var assignment := NewAssignment(data, now);
      assignments := assignments + [assignment];
      if |assignments| == 1 {
        AddSampleAssignments(now);
      }
    }

    method UpdateAssignment(id: string, data: FormData, now: int)
      requires WellFormedForm(data)
      modifies this
      ensures assignments == Updated(old(assignments), id, data, now)
    {
      var index := FindIndex(assignments, id);
      if index != -1 {
        var a := assignments[index];
        assignments := assignments[index := a.(title := data.title, courseName := data.course,
                                               description := DescriptionOf(data),
                                               dueDate := DueDateOf(data), updatedAt := now)];
      }
    }

    method DeleteAssignment(id: string)
      modifies this
      ensures assignments == Deleted(old(assignments), id)
    {
      assignments := Filter(assignments, IdIsNot(id));
    }

    method ToggleAssignmentComplete(id: string, now: int)
      modifies this
      ensures assignments == Toggled(old(assignments), id, now)
    {
      var index := FindIndex(assignments, id);
      if index != -1 {
        var a := assignments[index];
        assignments := assignments[index := a.(isCompleted := !a.isCompleted, updatedAt := now)];
      }
    }
  }
}
