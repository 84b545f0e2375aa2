/** The due-date label of an assignment card, chosen by how many calendar days the
    due date lies after today. */
module DueLabels {
  import opened Civil
  import opened Decimal
  import opened Assignments
  import opened Views

  /** The five kinds of label; the locale-dependent text of times, weekdays and month
      names is represented by the values it is printed from. */
  datatype DueLabel =
    | OverdueBy(days: nat)
    | Today(time: TimeOfDay)
    | Tomorrow(time: TimeOfDay)
    | OnWeekday(weekday: int, time: TimeOfDay)
    | OnDate(month: int, day: int, time: TimeOfDay)

  /** Whole days from today's midnight to the due date's midnight. */
  function DayOffset(due: int, now: int): (d: int)
    ensures d * MsPerDay == Midnight(due) - Midnight(now)
    ensures d == DayOf(due) - DayOf(now)
  {
    var diffTime := Midnight(due) - Midnight(now);
    assert diffTime == (DayOf(due) - DayOf(now)) * MsPerDay;
    diffTime / MsPerDay
  }

  /** The label of an assignment due at instant due, seen at instant now. */
  function FormatDueDate(due: int, now: int): (r: DueLabel)
    ensures r.OverdueBy? <==> DayOf(due) < DayOf(now)
    ensures r.OverdueBy? ==> r.days == DayOf(now) - DayOf(due)
    ensures r.Today? <==> DayOf(due) == DayOf(now)
    ensures r.Tomorrow? <==> DayOf(due) == DayOf(now) + 1
    ensures r.OnWeekday? <==> DayOf(now) + 2 <= DayOf(due) <= DayOf(now) + 7
    ensures r.OnDate? <==> DayOf(now) + 7 < DayOf(due)
    ensures !r.OverdueBy? ==> r.time == TimeOf(due)
    ensures r.OnWeekday? ==> r.weekday == Weekday(DayOf(due))
    ensures r.OnDate? ==> r.month == DateOfDay(DayOf(due)).month && r.day == DateOfDay(DayOf(due)).day
  {
    var diffDays := DayOffset(due, now);
    var date := DateOfDay(DayOf(due));
    if diffDays < 0 then OverdueBy(-diffDays)
    else if diffDays == 0 then Today(TimeOf(due))
    else if diffDays == 1 then Tomorrow(TimeOf(due))
    else if diffDays <= 7 then OnWeekday(Weekday(DayOf(due)), TimeOf(due))
    else OnDate(date.month, date.day, TimeOf(due))
  }

  const OverduePrefix: string := "Overdue by "

  /** The text of an overdue label: the count, then "day", pluralised unless the count is 1. */
  function OverdueText(days: nat): (s: string)
    ensures |s| > |OverduePrefix| && s[..|OverduePrefix|] == OverduePrefix
    ensures s[|s| - 1] == 's' <==> days != 1
  {
    OverduePrefix + NatToString(days) + " day" + (if days != 1 then "s" else "")
  }

  /** Different day counts give different overdue texts. */
  lemma OverdueTextInjective(a: nat, b: nat)
    ensures OverdueText(a) == OverdueText(b) <==> a == b
  {
    if OverdueText(a) == OverdueText(b) {
      var na, nb := NatToString(a), NatToString(b);
      var s := OverdueText(a);
      var p := |OverduePrefix|;
      assert s == OverduePrefix + na + " day" + (if a != 1 then "s" else "");
      assert s == OverduePrefix + nb + " day" + (if b != 1 then "s" else "");
      assert na == s[p..p + |na|] == nb;
      NatToStringRoundTrip(a);
      NatToStringRoundTrip(b);
    }
  }

  /** An incomplete assignment is shown as overdue exactly when its label says it is
      overdue, or says it is due today at a time that has passed. */
  lemma OverdueCardLabel(a: Assignment, now: int)
    requires !a.isCompleted
    ensures IsOverdue(a, now) <==>
              FormatDueDate(a.dueDate, now).OverdueBy?
              || (FormatDueDate(a.dueDate, now).Today? && a.dueDate < now)
  {
    if a.dueDate < now {
      DayOfMonotone(a.dueDate, now);
    } else {
      DayOfMonotone(now, a.dueDate);
    }
  }

  /** The label of a due date entered in the form shows back the entered time, and the
      entered weekday or month and day. */
  lemma LabelShowsFormInput(data: FormData, now: int)
    requires WellFormedForm(data) && ValidDate(data.date) && ValidTime(data.time)
    ensures var r := FormatDueDate(DueDateOf(data), now);
      && (!r.OverdueBy? ==> r.time == data.time)
      && (r.OnWeekday? ==> r.weekday == Weekday(DayNumberOf(data.date)))
      && (r.OnDate? ==> r.month == data.date.month && r.day == data.date.day)
  {
    DueDateOfRoundTrip(data);
    DateOfDayNumber(data.date);
  }
}
