/** The lists the dashboard and the "all assignments" tab show, computed from the
    collection and the current instant. */
module Views {
  import opened Sequences
  import opened Assignments

  /** How many upcoming assignments the dashboard lists. */
  const UpcomingLimit: nat := 5

  /** The overdue test of an assignment card: not completed and due before now. */
  predicate IsOverdue(a: Assignment, now: int)
  {
    !a.isCompleted && a.dueDate < now
  }

  predicate IsUpcoming(a: Assignment, now: int)
  {
    !a.isCompleted && a.dueDate >= now
  }

  function OverdueAt(now: int): Assignment -> bool
  {
    (a: Assignment) => IsOverdue(a, now)
  }

  function UpcomingAt(now: int): Assignment -> bool
  {
    (a: Assignment) => IsUpcoming(a, now)
  }

  function Incomplete(): Assignment -> bool
  {
    (a: Assignment) => !a.isCompleted
  }

  function Completed(): Assignment -> bool
  {
    (a: Assignment) => a.isCompleted
  }

  /** Sort key for "earliest due first". */
  function DueKey(a: Assignment): int
  {
    a.dueDate
  }

  /** Sort key for "most recently updated first": a comparator b.updatedAt - a.updatedAt
      orders exactly as ascending order of the negated instant. */
  function RecentFirstKey(a: Assignment): int
  {
    -a.updatedAt
  }

  /** The dashboard's overdue list: every overdue record, in collection order. */
  function OverdueList(xs: seq<Assignment>, now: int): (r: seq<Assignment>)
    ensures forall a :: a in r <==> a in xs && IsOverdue(a, now)
    ensures forall a :: multiset(r)[a] == if IsOverdue(a, now) then multiset(xs)[a] else 0
  {
    Filter(xs, OverdueAt(now))
  }

  /** The dashboard's upcoming list: the incomplete records due now or later,
      earliest first, at most UpcomingLimit of them. */
  function UpcomingList(xs: seq<Assignment>, now: int): (r: seq<Assignment>)
    ensures |r| == if Count(xs, UpcomingAt(now)) < UpcomingLimit then Count(xs, UpcomingAt(now)) else UpcomingLimit
    ensures SortedBy(r, DueKey)
    ensures forall a :: a in r ==> a in xs && IsUpcoming(a, now)
    ensures multiset(r) <= multiset(Filter(xs, UpcomingAt(now)))
    ensures forall a :: a in xs && IsUpcoming(a, now) && a !in r ==>
              |r| == UpcomingLimit && r[UpcomingLimit - 1].dueDate <= a.dueDate
  {
    var candidates := Filter(xs, UpcomingAt(now));
    var sorted := SortBy(candidates, DueKey);
    var r := Take(sorted, UpcomingLimit);
    TakeSorted(sorted, UpcomingLimit, DueKey);
    forall a | a in xs && IsUpcoming(a, now) && a !in r
      ensures |r| == UpcomingLimit && r[UpcomingLimit - 1].dueDate <= a.dueDate
    {
      TakeSortedLeavesLater(sorted, UpcomingLimit, DueKey, a);
    }
    r
  }

  /** The dashboard's three lists never share a record: nothing overdue is upcoming,
      both hold only incomplete records, and every incomplete record is overdue,
      listed as upcoming, or left out behind UpcomingLimit records due no later. */
  lemma DashboardPartition(xs: seq<Assignment>, now: int)
    ensures var overdue, upcoming := OverdueList(xs, now), UpcomingList(xs, now);
      && (forall a :: a in overdue ==> !a.isCompleted)
      && (forall a :: a in upcoming ==> !a.isCompleted)
      && (forall a :: !(a in overdue && a in upcoming))
      && (forall a :: a in xs && !a.isCompleted ==>
            || a in overdue
            || a in upcoming
            || (|upcoming| == UpcomingLimit && upcoming[UpcomingLimit - 1].dueDate <= a.dueDate))
  {
  }

  /** The "Pending" list of the assignments tab: the incomplete records, earliest due first. */
  function PendingList(xs: seq<Assignment>): (r: seq<Assignment>)
    ensures SortedBy(r, DueKey)
    ensures forall a :: multiset(r)[a] == if a.isCompleted then 0 else multiset(xs)[a]
  {
    SortBy(Filter(xs, Incomplete()), DueKey)
  }

  /** The "Completed" list of the assignments tab: the completed records, most
      recently updated first. */
  function CompletedList(xs: seq<Assignment>): (r: seq<Assignment>)
    ensures forall i, j :: 0 <= i < j < |r| ==> r[i].updatedAt >= r[j].updatedAt
    ensures forall a :: multiset(r)[a] == if a.isCompleted then multiset(xs)[a] else 0
  {
    var sorted := SortBy(Filter(xs, Completed()), RecentFirstKey);
    assert forall i, j :: 0 <= i < j < |sorted| ==> RecentFirstKey(sorted[i]) <= RecentFirstKey(sorted[j]);
    sorted
  }

  /** The two lists of the assignments tab split the collection between them. */
  lemma ListViewPartition(xs: seq<Assignment>)
    ensures |PendingList(xs)| + |CompletedList(xs)| == |xs|
    ensures multiset(PendingList(xs)) + multiset(CompletedList(xs)) == multiset(xs)
  {
    FilterSplit(xs, Incomplete(), Completed());
  }

  /** Records due at the same instant keep their collection order in the Pending list. */
  lemma PendingListKeepsTies(xs: seq<Assignment>, due: int)
    ensures Filter(PendingList(xs), HasKey(DueKey, due))
         == Filter(Filter(xs, Incomplete()), HasKey(DueKey, due))
  {
    SortByIsStable(Filter(xs, Incomplete()), DueKey, due);
  }
}
