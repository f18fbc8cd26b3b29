/**
  The read-only selections of the task views (task/views.py): the task list,
  the dashboard's counts and lists, and the missed-task analysis. The task
  table is the sequence of its rows; a query is a conjunction of field
  lookups, as in `Task.objects.filter(...)`, followed by sorting and slicing.
 */
module TaskSelections {
  import opened Wrappers
  import opened TaskModels
  import opened Grouping

  /** One field lookup of a query. */
  datatype Lookup =
    | OwnerIs(user: nat)                   // user=request.user
    | StatusKeyIs(key: string)             // status=<key>
    | StartDateIs(day: int)                // start_time__date=<day>
    | StartDateIn(lo: int, hi: int)        // start_time__date__gte / __lte
    | EndDateIn(lo: int, hi: int)          // end_time__date__gte / __lte
    | ReasonIsNull                         // missed_reason__isnull=True
    | ReasonNameIs(name: string)           // missed_reason__name=<name>
    | CustomReasonIs(text: string)         // custom_missed_reason=<text>
    | Not(lookup: Lookup)                  // .exclude(<lookup>)

  predicate Matches(t: TaskRow, l: Lookup)
  {
    match l
    case OwnerIs(u) => t.owner == u
    case StatusKeyIs(k) => StatusKey(t.status) == k
    case StartDateIs(d) => DateOf(t.startTime) == d
    case StartDateIn(lo, hi) => lo <= DateOf(t.startTime) <= hi
    case EndDateIn(lo, hi) => lo <= DateOf(t.endTime) <= hi
    case ReasonIsNull => t.missedReason.None?
    case ReasonNameIs(n) => t.missedReason.Some? && t.missedReason.value.name == n
    case CustomReasonIs(s) => t.customMissedReason == s
    case Not(l') => !Matches(t, l')
  }

  predicate MatchesAll(t: TaskRow, ls: seq<Lookup>)
  {
    forall i :: 0 <= i < |ls| ==> Matches(t, ls[i])
  }

  /** `filter(*lookups)`: the tasks meeting every lookup, in their original order. */
  function Filter(ts: seq<TaskRow>, ls: seq<Lookup>): (r: seq<TaskRow>)
    ensures forall t :: t in r ==> t in ts && MatchesAll(t, ls)
    ensures forall t :: t in ts && MatchesAll(t, ls) ==> t in r
    ensures multiset(r) <= multiset(ts)
    ensures |r| <= |ts|
  {
    if ts == [] then []
    else
      assert ts == [ts[0]] + ts[1..];
      if MatchesAll(ts[0], ls) then [ts[0]] + Filter(ts[1..], ls) else Filter(ts[1..], ls)
  }

  lemma MatchesOne(t: TaskRow, l: Lookup)
    ensures MatchesAll(t, [l]) <==> Matches(t, l)
  {
    assert [l][0] == l;
  }

  /** `.count()` of a query. */
  function Count(ts: seq<TaskRow>, ls: seq<Lookup>): nat
  {
    |Filter(ts, ls)|
  }

  /** A row that meets the lookups is kept exactly as often as the table holds it. */
  lemma {:induction false} FilterKeepsMultiplicity(ts: seq<TaskRow>, ls: seq<Lookup>, t: TaskRow)
    requires MatchesAll(t, ls)
    ensures multiset(Filter(ts, ls))[t] == multiset(ts)[t]
  {
    if ts != [] {
      FilterKeepsMultiplicity(ts[1..], ls, t);
      assert ts == [ts[0]] + ts[1..];
    }
  }

  /** A status key lookup holds exactly for the task's own status. */
  lemma StatusKeyLookup(t: TaskRow, s: Status)
    ensures Matches(t, StatusKeyIs(StatusKey(s))) <==> t.status == s
  {
  }

  predicate SortedByStart(ts: seq<TaskRow>)
  {
    forall i, j :: 0 <= i < j < |ts| ==> ts[i].startTime <= ts[j].startTime
  }

  /** Inserts `t` before the first task that starts later. */
  function InsertByStart(t: TaskRow, ts: seq<TaskRow>): seq<TaskRow> {
    if ts == [] || t.startTime <= ts[0].startTime then [t] + ts
    else [ts[0]] + InsertByStart(t, ts[1..])
  }

  /** Insertion adds exactly `t`. */
  lemma {:induction false} InsertByStartPermutes(t: TaskRow, ts: seq<TaskRow>)
    ensures multiset(InsertByStart(t, ts)) == multiset(ts) + multiset{t}
  {
    if !(ts == [] || t.startTime <= ts[0].startTime) {
      InsertByStartPermutes(t, ts[1..]);
      assert ts == [ts[0]] + ts[1..];
    }
  }

  /** Insertion into a list sorted by start time keeps it sorted; its head is `t` or the old head. */
  lemma {:induction false} InsertByStartSorted(t: TaskRow, ts: seq<TaskRow>)
    requires SortedByStart(ts)
    ensures var r := InsertByStart(t, ts);
      |r| == |ts| + 1 && (r[0] == t || (ts != [] && r[0] == ts[0])) && SortedByStart(r)
  {
    if !(ts == [] || t.startTime <= ts[0].startTime) {
      InsertByStartSorted(t, ts[1..]);
      var rest := InsertByStart(t, ts[1..]);
      var r := [ts[0]] + rest;
      assert ts[0].startTime <= rest[0].startTime;
      forall i, j | 0 <= i < j < |r| ensures r[i].startTime <= r[j].startTime {
        assert r[j] == rest[j - 1];
        if i > 0 {
          assert r[i] == rest[i - 1];
        } else {
          assert rest[0].startTime <= rest[j - 1].startTime;
        }
      }
    }
  }

  /** `order_by('start_time')` by insertion. */
  function SortByStart(ts: seq<TaskRow>): seq<TaskRow> {
    if ts == [] then [] else InsertByStart(ts[0], SortByStart(ts[1..]))
  }

  /** Sorting yields an ascending list. */
  lemma {:induction false} SortByStartSorted(ts: seq<TaskRow>)
    ensures SortedByStart(SortByStart(ts))
  {
    if ts != [] {
      SortByStartSorted(ts[1..]);
      InsertByStartSorted(ts[0], SortByStart(ts[1..]));
    }
  }

  /** Sorting keeps exactly the tasks it is given. */
  lemma {:induction false} SortByStartPermutes(ts: seq<TaskRow>)
    ensures multiset(SortByStart(ts)) == multiset(ts)
  {
    if ts != [] {
      SortByStartPermutes(ts[1..]);
      InsertByStartPermutes(ts[0], SortByStart(ts[1..]));
      assert ts == [ts[0]] + ts[1..];
    }
  }

  /** Sorting yields an ascending permutation of the tasks. */
  lemma SortByStartSpec(ts: seq<TaskRow>)
    ensures SortedByStart(SortByStart(ts))
    ensures multiset(SortByStart(ts)) == multiset(ts)
  {
    SortByStartSorted(ts);
    SortByStartPermutes(ts);
  }

  /** The first `n` elements, or all when there are fewer (`[:n]`). */
  function Take<T>(s: seq<T>, n: nat): (r: seq<T>)
    ensures |r| == if |s| < n then |s| else n
    ensures |r| <= n && |r| <= |s| && r == s[..|r|]
    ensures |s| <= n ==> r == s
  {
    if |s| <= n then s else s[..n]
  }

  /** The result of a query shown as `[:n]` repeats no row more often than the query. */
  lemma TakeSubMultiset<T>(s: seq<T>, n: nat)
    ensures multiset(Take(s, n)) <= multiset(s)
  {
    var r := Take(s, n);
    assert s == r + s[|r|..];
    assert multiset(s) == multiset(r) + multiset(s[|r|..]);
  }

  /** The lookups of the task list: the user's tasks, narrowed to one status unless the filter is `all`. */
  function TaskListLookups(user: nat, statusFilter: string): seq<Lookup> {
    if statusFilter == "all" then [OwnerIs(user)] else [OwnerIs(user), StatusKeyIs(statusFilter)]
  }

  /** `task_list`: the `status` parameter defaults to `all`; the result is ordered by start time. */
  function TaskList(ts: seq<TaskRow>, user: nat, statusParam: Option<string>): seq<TaskRow>
  {
    SortByStart(Filter(ts, TaskListLookups(user, statusParam.GetOr("all"))))
  }

  /**
    The task list holds the user's tasks, narrowed to those whose status key
    equals the filter unless it is `all`; each such task appears exactly as
    often as the table holds it, and the list is ordered by start time.
   */
  lemma TaskListSpec(ts: seq<TaskRow>, user: nat, statusParam: Option<string>)
    ensures var r := TaskList(ts, user, statusParam);
      var f := statusParam.GetOr("all");
      SortedByStart(r) &&
      (forall t :: t in r <==> t in ts && t.owner == user && (f == "all" || StatusKey(t.status) == f)) &&
      multiset(r) <= multiset(ts) &&
      (forall t: TaskRow :: t.owner == user && (f == "all" || StatusKey(t.status) == f) ==> multiset(r)[t] == multiset(ts)[t])
  {
    var f := statusParam.GetOr("all");
    var ls := TaskListLookups(user, f);
    var r := TaskList(ts, user, statusParam);
    SortByStartSpec(Filter(ts, ls));
    forall t: TaskRow ensures MatchesAll(t, ls) <==> t.owner == user && (f == "all" || StatusKey(t.status) == f) {
      TaskListLookupsMatch(t, user, f);
    }
    assert forall t :: t in r <==> t in multiset(r);
    forall t: TaskRow | t.owner == user && (f == "all" || StatusKey(t.status) == f)
      ensures multiset(r)[t] == multiset(ts)[t]
    {
      FilterKeepsMultiplicity(ts, ls, t);
    }
  }

  lemma TaskListLookupsMatch(t: TaskRow, user: nat, f: string)
    ensures MatchesAll(t, TaskListLookups(user, f)) <==> t.owner == user && (f == "all" || StatusKey(t.status) == f)
  {
    var ls := TaskListLookups(user, f);
    assert Matches(t, ls[0]) <==> t.owner == user;
    if f != "all" {
      assert Matches(t, ls[1]) <==> StatusKey(t.status) == f;
    }
  }

  /** The lookups shared by the user's own tasks. */
  function Mine(ts: seq<TaskRow>, user: nat): seq<TaskRow>
  {
    Filter(ts, [OwnerIs(user)])
  }

  /** The counts the dashboard shows. */
  datatype DashboardCounts = DashboardCounts(
    total: nat, completed: nat, pending: nat, inProgress: nat, notDone: nat,
    missedWithReasons: nat, missedWithCustomReasons: nat, missedWithoutReasons: nat)

  function Dashboard(ts: seq<TaskRow>, user: nat): DashboardCounts
  {
    var mine := Mine(ts, user);
    DashboardCounts(
      |mine|,
      Count(mine, [StatusKeyIs("completed")]),
      Count(mine, [StatusKeyIs("pending")]),
      Count(mine, [StatusKeyIs("in_progress")]),
      Count(mine, [StatusKeyIs("not_done")]),
      Count(mine, WithCatalogReason),
      Count(mine, WithCustomReason),
      Count(mine, WithoutReasons))
  }

  /** One step of a count: the first row adds one when it matches. */
  lemma CountStep(ts: seq<TaskRow>, ls: seq<Lookup>)
    requires ts != []
    ensures Count(ts, ls) == (if MatchesAll(ts[0], ls) then 1 else 0) + Count(ts[1..], ls)
  {
  }

  /** Every task has exactly one of the four statuses, so the four status counts add up to the total. */
  lemma {:induction false} StatusCountsSum(ts: seq<TaskRow>)
    ensures Count(ts, [StatusKeyIs("completed")]) + Count(ts, [StatusKeyIs("pending")]) +
            Count(ts, [StatusKeyIs("in_progress")]) + Count(ts, [StatusKeyIs("not_done")]) == |ts|
  {
    if ts != [] {
      StatusCountsSum(ts[1..]);
      var t := ts[0];
      CountStep(ts, [StatusKeyIs("completed")]);
      CountStep(ts, [StatusKeyIs("pending")]);
      CountStep(ts, [StatusKeyIs("in_progress")]);
      CountStep(ts, [StatusKeyIs("not_done")]);
      MatchesOne(t, StatusKeyIs("completed"));
      MatchesOne(t, StatusKeyIs("pending"));
      MatchesOne(t, StatusKeyIs("in_progress"));
      MatchesOne(t, StatusKeyIs("not_done"));
      StatusKeyLookup(t, Completed);
      StatusKeyLookup(t, Pending);
      StatusKeyLookup(t, InProgress);
      StatusKeyLookup(t, NotDone);
    }
  }

  /** A conjunction of lookups holds when both halves hold. */
  lemma MatchesAllAppend(t: TaskRow, a: seq<Lookup>, b: seq<Lookup>)
    ensures MatchesAll(t, a + b) <==> MatchesAll(t, a) && MatchesAll(t, b)
  {
    if MatchesAll(t, a) && MatchesAll(t, b) {
      forall i | 0 <= i < |a + b| ensures Matches(t, (a + b)[i]) {
        if i >= |a| {
          assert (a + b)[i] == b[i - |a|];
        } else {
          assert (a + b)[i] == a[i];
        }
      }
    }
    if MatchesAll(t, a + b) {
      forall i | 0 <= i < |a| ensures Matches(t, a[i]) {
        assert (a + b)[i] == a[i];
      }
      forall i | 0 <= i < |b| ensures Matches(t, b[i]) {
        assert (a + b)[|a| + i] == b[i];
      }
    }
  }

  /** Chained filters are one filter with all the lookups, as `filter(a).filter(b)` is. */
  lemma {:induction false} FilterFilter(ts: seq<TaskRow>, a: seq<Lookup>, b: seq<Lookup>)
    ensures Filter(Filter(ts, a), b) == Filter(ts, a + b)
  {
    if ts != [] {
      FilterFilter(ts[1..], a, b);
      MatchesAllAppend(ts[0], a, b);
      if MatchesAll(ts[0], a) {
        assert Filter(ts, a) == [ts[0]] + Filter(ts[1..], a);
        assert ([ts[0]] + Filter(ts[1..], a))[1..] == Filter(ts[1..], a);
      }
    }
  }

  /** The lookups of a task with neither reason. */
  const NoReasons: seq<Lookup> := [ReasonIsNull, CustomReasonIs("")]

  /** The lookups of `missed_without_reasons`. */
  const WithoutReasons: seq<Lookup> := [StatusKeyIs("not_done")] + NoReasons

  /** The reason lookups hold exactly when `HasMissedReason` fails. */
  lemma NoReasonsMatch(t: TaskRow)
    ensures MatchesAll(t, NoReasons) <==> !t.HasMissedReason()
  {
    assert MatchesAll(t, NoReasons) <==> Matches(t, NoReasons[0]) && Matches(t, NoReasons[1]);
  }

  /** Every task either has a missed reason or matches the no-reason lookups. */
  lemma {:induction false} ReasonSplit(ts: seq<TaskRow>)
    ensures |ts| == |HaveReason(ts)| + Count(ts, NoReasons)
  {
    if ts != [] {
      ReasonSplit(ts[1..]);
      CountStep(ts, NoReasons);
      NoReasonsMatch(ts[0]);
    }
  }

  /**
    The tasks counted as missed without reasons are the not-done tasks for
    which `HasMissedReason` fails: the not-done count splits into those and
    the not-done tasks that have a reason.
   */
  lemma MissedWithoutReasonsSplit(ts: seq<TaskRow>)
    ensures Count(ts, [StatusKeyIs("not_done")]) ==
            Count(ts, WithoutReasons) + |HaveReason(Filter(ts, [StatusKeyIs("not_done")]))|
  {
    FilterFilter(ts, [StatusKeyIs("not_done")], NoReasons);
    ReasonSplit(Filter(ts, [StatusKeyIs("not_done")]));
  }

  /** The lookups of `missed_with_reasons`. */
  const WithCatalogReason: seq<Lookup> := [StatusKeyIs("not_done")] + [Not(ReasonIsNull)]

  /** The lookups of `missed_with_custom_reasons`. */
  const WithCustomReason: seq<Lookup> := [StatusKeyIs("not_done")] + [Not(CustomReasonIs(""))]

  /** A task is counted as missed with a reason exactly when it is not done and has a catalog reason. */
  lemma WithCatalogReasonMatch(t: TaskRow)
    ensures MatchesAll(t, WithCatalogReason) <==> t.status == NotDone && t.missedReason.Some?
  {
    MatchesAllAppend(t, [StatusKeyIs("not_done")], [Not(ReasonIsNull)]);
    MatchesOne(t, StatusKeyIs("not_done"));
    MatchesOne(t, Not(ReasonIsNull));
    StatusKeyLookup(t, NotDone);
  }

  /** A task is counted as missed with a custom reason exactly when it is not done and its custom reason is not empty. */
  lemma WithCustomReasonMatch(t: TaskRow)
    ensures MatchesAll(t, WithCustomReason) <==> t.status == NotDone && t.customMissedReason != ""
  {
    MatchesAllAppend(t, [StatusKeyIs("not_done")], [Not(CustomReasonIs(""))]);
    MatchesOne(t, StatusKeyIs("not_done"));
    MatchesOne(t, Not(CustomReasonIs("")));
    StatusKeyLookup(t, NotDone);
  }

  /** The step of `HaveReason`: the first row is kept when it has a reason. */
  lemma HaveReasonStep(ts: seq<TaskRow>)
    requires ts != []
    ensures |HaveReason(ts)| == (if ts[0].HasMissedReason() then 1 else 0) + |HaveReason(ts[1..])|
  {
  }

  /** The `missed_reason__isnull=False` lookup holds exactly for a task with a catalog reason. */
  lemma CatalogReasonMatch(t: TaskRow)
    ensures MatchesAll(t, [Not(ReasonIsNull)]) <==> t.missedReason.Some?
  {
    MatchesOne(t, Not(ReasonIsNull));
  }

  /** The `exclude(custom_missed_reason='')` lookup holds exactly for a task with a custom reason. */
  lemma CustomReasonMatch(t: TaskRow)
    ensures MatchesAll(t, [Not(CustomReasonIs(""))]) <==> t.customMissedReason != ""
  {
    MatchesOne(t, Not(CustomReasonIs("")));
  }

  /** The step of counting tasks with a catalog reason. */
  lemma CatalogReasonStep(ts: seq<TaskRow>)
    requires ts != []
    ensures Count(ts, [Not(ReasonIsNull)]) ==
            (if ts[0].missedReason.Some? then 1 else 0) + Count(ts[1..], [Not(ReasonIsNull)])
  {
    CountStep(ts, [Not(ReasonIsNull)]);
    CatalogReasonMatch(ts[0]);
  }

  /** The step of counting tasks with a custom reason. */
  lemma CustomReasonStep(ts: seq<TaskRow>)
    requires ts != []
    ensures Count(ts, [Not(CustomReasonIs(""))]) ==
            (if ts[0].customMissedReason != "" then 1 else 0) + Count(ts[1..], [Not(CustomReasonIs(""))])
  {
    CountStep(ts, [Not(CustomReasonIs(""))]);
    CustomReasonMatch(ts[0]);
  }

  /** Tasks with a catalog reason are among those that have a reason. */
  lemma {:induction false} CatalogReasonsHaveReason(ts: seq<TaskRow>)
    ensures Count(ts, [Not(ReasonIsNull)]) <= |HaveReason(ts)|
  {
    if ts != [] {
      CatalogReasonsHaveReason(ts[1..]);
      CatalogReasonStep(ts);
      HaveReasonStep(ts);
    }
  }

  /** Tasks with a custom reason are among those that have a reason. */
  lemma {:induction false} CustomReasonsHaveReason(ts: seq<TaskRow>)
    ensures Count(ts, [Not(CustomReasonIs(""))]) <= |HaveReason(ts)|
  {
    if ts != [] {
      CustomReasonsHaveReason(ts[1..]);
      CustomReasonStep(ts);
      HaveReasonStep(ts);
    }
  }

  /** Every task that has a reason has a catalog reason or a custom reason. */
  lemma {:induction false} ReasonsCovered(ts: seq<TaskRow>)
    ensures |HaveReason(ts)| <= Count(ts, [Not(ReasonIsNull)]) + Count(ts, [Not(CustomReasonIs(""))])
  {
    if ts != [] {
      ReasonsCovered(ts[1..]);
      CatalogReasonStep(ts);
      CustomReasonStep(ts);
      HaveReasonStep(ts);
    }
  }

  /**
    The dashboard's counts: the total is the number of the user's tasks, and
    the four status counts add up to it; a not-done task is counted as missed
    without reasons or has a reason; the counts with a catalog reason and with
    a custom reason each count only not-done tasks that have a reason, and
    together they cover all of those.
   */
  lemma DashboardSpec(ts: seq<TaskRow>, user: nat)
    ensures var d := Dashboard(ts, user);
      var withReason := |HaveReason(Filter(Mine(ts, user), [StatusKeyIs("not_done")]))|;
      d.total == |Mine(ts, user)| &&
      d.completed + d.pending + d.inProgress + d.notDone == d.total &&
      d.notDone == d.missedWithoutReasons + withReason &&
      d.missedWithReasons <= withReason && d.missedWithCustomReasons <= withReason &&
      withReason <= d.missedWithReasons + d.missedWithCustomReasons
    ensures forall t :: t in Mine(ts, user) <==> t in ts && t.owner == user
  {
    var mine := Mine(ts, user);
    var nd := [StatusKeyIs("not_done")];
    StatusCountsSum(mine);
    MissedWithoutReasonsSplit(mine);
    FilterFilter(mine, nd, [Not(ReasonIsNull)]);
    FilterFilter(mine, nd, [Not(CustomReasonIs(""))]);
    CatalogReasonsHaveReason(Filter(mine, nd));
    CustomReasonsHaveReason(Filter(mine, nd));
    ReasonsCovered(Filter(mine, nd));
    forall t ensures MatchesAll(t, [OwnerIs(user)]) <==> t.owner == user {
      MatchesOne(t, OwnerIs(user));
    }
  }

  /** A task is counted as missed without reasons exactly when it is not done and has no missed reason. */
  lemma WithoutReasonsMatch(t: TaskRow)
    ensures MatchesAll(t, WithoutReasons) <==> t.status == NotDone && !t.HasMissedReason()
  {
    MatchesAllAppend(t, [StatusKeyIs("not_done")], NoReasons);
    MatchesOne(t, StatusKeyIs("not_done"));
    StatusKeyLookup(t, NotDone);
    NoReasonsMatch(t);
  }

  /** The tasks of `ts` for which `HasMissedReason` holds, in order. */
  function HaveReason(ts: seq<TaskRow>): seq<TaskRow>
  {
    if ts == [] then []
    else if ts[0].HasMissedReason() then [ts[0]] + HaveReason(ts[1..])
    else HaveReason(ts[1..])
  }

  /** `HaveReason` keeps exactly the rows for which `HasMissedReason` holds. */
  lemma {:induction false} HaveReasonSpec(ts: seq<TaskRow>, t: TaskRow)
    ensures t in HaveReason(ts) <==> t in ts && t.HasMissedReason()
  {
    if ts != [] {
      HaveReasonSpec(ts[1..], t);
      assert ts == [ts[0]] + ts[1..];
    }
  }

  /** Today's tasks on the dashboard, by start time. */
  function TodayTasks(ts: seq<TaskRow>, user: nat, today: int): seq<TaskRow>
  {
    SortByStart(Filter(Mine(ts, user), [StartDateIs(today)]))
  }

  /**
    Today's tasks are the user's tasks starting today, each as often as the
    table holds it, by start time.
   */
  lemma TodayTasksSpec(ts: seq<TaskRow>, user: nat, today: int, t: TaskRow)
    ensures SortedByStart(TodayTasks(ts, user, today))
    ensures t in TodayTasks(ts, user, today) <==> t in ts && t.owner == user && DateOf(t.startTime) == today
    ensures multiset(TodayTasks(ts, user, today)) <= multiset(ts)
    ensures t.owner == user && DateOf(t.startTime) == today ==>
              multiset(TodayTasks(ts, user, today))[t] == multiset(ts)[t]
  {
    SortByStartSpec(Filter(Mine(ts, user), [StartDateIs(today)]));
    SortedFilterMembers(Mine(ts, user), [StartDateIs(today)], t);
    MatchesOne(t, StartDateIs(today));
    MatchesOne(t, OwnerIs(user));
    if t.owner == user && DateOf(t.startTime) == today {
      FilterKeepsMultiplicity(ts, [OwnerIs(user)], t);
      FilterKeepsMultiplicity(Mine(ts, user), [StartDateIs(today)], t);
    }
  }

  /** The dashboard's candidates for upcoming tasks: starting within the next seven days, not completed. */
  function UpcomingCandidates(ts: seq<TaskRow>, user: nat, today: int): seq<TaskRow>
  {
    Filter(Mine(ts, user), UpcomingLookups(today))
  }

  function UpcomingLookups(today: int): seq<Lookup> {
    [StartDateIn(today, today + 7), Not(StatusKeyIs("completed"))]
  }

  /**
    The candidates are the user's tasks starting on a day in [today, today + 7]
    that are not completed, each as often as the table holds it.
   */
  lemma UpcomingCandidatesSpec(ts: seq<TaskRow>, user: nat, today: int, t: TaskRow)
    ensures t in UpcomingCandidates(ts, user, today) <==>
              t in ts && t.owner == user && today <= DateOf(t.startTime) <= today + 7 && t.status != Completed
    ensures multiset(UpcomingCandidates(ts, user, today)) <= multiset(ts)
    ensures t.owner == user && today <= DateOf(t.startTime) <= today + 7 && t.status != Completed ==>
              multiset(UpcomingCandidates(ts, user, today))[t] == multiset(ts)[t]
  {
    UpcomingLookupsMatch(t, today);
    MatchesOne(t, OwnerIs(user));
    if t.owner == user && today <= DateOf(t.startTime) <= today + 7 && t.status != Completed {
      FilterKeepsMultiplicity(ts, [OwnerIs(user)], t);
      FilterKeepsMultiplicity(Mine(ts, user), UpcomingLookups(today), t);
    }
  }

  lemma UpcomingLookupsMatch(t: TaskRow, today: int)
    ensures MatchesAll(t, UpcomingLookups(today)) <==>
              today <= DateOf(t.startTime) <= today + 7 && t.status != Completed
  {
    var ls := UpcomingLookups(today);
    StatusKeyLookup(t, Completed);
    assert MatchesAll(t, ls) <==> Matches(t, ls[0]) && Matches(t, ls[1]);
  }

  /** The dashboard's upcoming tasks: the candidates by start time, at most five. */
  function UpcomingTasks(ts: seq<TaskRow>, user: nat, today: int): seq<TaskRow>
  {
    Take(SortByStart(UpcomingCandidates(ts, user, today)), 5)
  }

  /** A row is in a sorted query result exactly when it is in the table and matches the lookups. */
  lemma SortedFilterMembers(ts: seq<TaskRow>, ls: seq<Lookup>, t: TaskRow)
    ensures t in SortByStart(Filter(ts, ls)) <==> t in ts && MatchesAll(t, ls)
  {
    SortByStartSpec(Filter(ts, ls));
    assert t in SortByStart(Filter(ts, ls)) <==> t in multiset(SortByStart(Filter(ts, ls)));
  }

  /** In a list sorted by start time, rows beyond the first `n` start no earlier than any of those. */
  lemma TakeKeepsEarliest(s: seq<TaskRow>, n: nat, t: TaskRow, u: TaskRow)
    requires SortedByStart(s) && t in s && t !in Take(s, n) && u in Take(s, n)
    ensures u.startTime <= t.startTime
  {
    var r := Take(s, n);
    var j :| 0 <= j < |s| && s[j] == t;
    var i :| 0 <= i < |r| && r[i] == u;
    assert forall k :: 0 <= k < |r| ==> r[k] == s[k];
    assert |r| <= j;
  }

  /**
    Five upcoming tasks, or all candidates when there are fewer, each the user's, starting on a day in
    [today, today + 7] and not completed, ordered by start time; and no
    candidate left out starts before any task in the list.
   */
  lemma UpcomingTasksSpec(ts: seq<TaskRow>, user: nat, today: int)
    ensures var c := |UpcomingCandidates(ts, user, today)|;
      |UpcomingTasks(ts, user, today)| == if c < 5 then c else 5
    ensures SortedByStart(UpcomingTasks(ts, user, today))
    ensures forall t :: t in UpcomingTasks(ts, user, today) ==>
              t in ts && t.owner == user && today <= DateOf(t.startTime) <= today + 7 && t.status != Completed
    ensures forall t, u :: (t in UpcomingCandidates(ts, user, today) && t !in UpcomingTasks(ts, user, today) &&
                            u in UpcomingTasks(ts, user, today)) ==> u.startTime <= t.startTime
    ensures multiset(UpcomingTasks(ts, user, today)) <= multiset(UpcomingCandidates(ts, user, today))
  {
    var c := UpcomingCandidates(ts, user, today);
    var sorted := SortByStart(c);
    var r := Take(sorted, 5);
    SortByStartSpec(c);
    TakeSubMultiset(sorted, 5);
    assert |sorted| == |c| by {
      assert |multiset(sorted)| == |multiset(c)|;
    }
    forall t | t in r
      ensures t in ts && t.owner == user && today <= DateOf(t.startTime) <= today + 7 && t.status != Completed
    {
      assert t in sorted;
      SortedFilterMembers(Mine(ts, user), UpcomingLookups(today), t);
      UpcomingLookupsMatch(t, today);
      MatchesOne(t, OwnerIs(user));
    }
    forall t, u | t in c && t !in r && u in r ensures u.startTime <= t.startTime {
      SortedFilterMembers(Mine(ts, user), UpcomingLookups(today), t);
      TakeKeepsEarliest(sorted, 5, t, u);
    }
  }

  /** `missed_tasks_analysis`: the `range` parameter (default `30days`) as a number of days. */
  function RangeDays(rangeParam: Option<string>): (days: nat)
    ensures rangeParam == Some("7days") ==> days == 7
    ensures rangeParam == Some("90days") ==> days == 90
    ensures rangeParam != Some("7days") && rangeParam != Some("90days") ==> days == 30
  {
    var r := rangeParam.GetOr("30days");
    if r == "7days" then 7 else if r == "90days" then 90 else 30
  }

  /** The user's not-done tasks whose end falls on a day in [today - days, today], by start time. */
  function MissedTasks(ts: seq<TaskRow>, user: nat, today: int, days: nat): seq<TaskRow>
  {
    SortByStart(Filter(ts, MissedLookups(user, today, days)))
  }

  function MissedLookups(user: nat, today: int, days: nat): seq<Lookup> {
    [OwnerIs(user), StatusKeyIs("not_done"), EndDateIn(today - days, today)]
  }

  lemma MissedLookupsMatch(t: TaskRow, user: nat, today: int, days: nat)
    ensures MatchesAll(t, MissedLookups(user, today, days)) <==>
              t.owner == user && t.status == NotDone && today - days <= DateOf(t.endTime) <= today
  {
    var ls := MissedLookups(user, today, days);
    StatusKeyLookup(t, NotDone);
    assert MatchesAll(t, ls) <==> Matches(t, ls[0]) && Matches(t, ls[1]) && Matches(t, ls[2]);
  }

  /**
    The missed tasks of the analysis are exactly the user's not-done tasks that
    ended in the range, each as often as the table holds it.
   */
  lemma MissedTasksSpec(ts: seq<TaskRow>, user: nat, today: int, days: nat, t: TaskRow)
    ensures SortedByStart(MissedTasks(ts, user, today, days))
    ensures t in MissedTasks(ts, user, today, days) <==>
              t in ts && t.owner == user && t.status == NotDone && today - days <= DateOf(t.endTime) <= today
    ensures multiset(MissedTasks(ts, user, today, days)) <= multiset(ts)
    ensures t.owner == user && t.status == NotDone && today - days <= DateOf(t.endTime) <= today ==>
              multiset(MissedTasks(ts, user, today, days))[t] == multiset(ts)[t]
  {
    SortByStartSpec(Filter(ts, MissedLookups(user, today, days)));
    SortedFilterMembers(ts, MissedLookups(user, today, days), t);
    MissedLookupsMatch(t, user, today, days);
    if t.owner == user && t.status == NotDone && today - days <= DateOf(t.endTime) <= today {
      FilterKeepsMultiplicity(ts, MissedLookups(user, today, days), t);
    }
  }

  /** The catalog reason names of tasks that have one. */
  function ReasonNames(ts: seq<TaskRow>): (r: seq<string>)
    ensures forall k :: k in r <==> exists t :: t in ts && t.missedReason.Some? && k == t.missedReason.value.name
  {
    if ts == [] then []
    else
      (match ts[0].missedReason
       case Some(x) => [x.name]
       case None => []) + ReasonNames(ts[1..])
  }

  /** The non-empty custom reasons of tasks. */
  function CustomReasons(ts: seq<TaskRow>): (r: seq<string>)
    ensures forall k :: k in r <==> exists t :: t in ts && t.customMissedReason != "" && k == t.customMissedReason
  {
    if ts == [] then []
    else (if ts[0].customMissedReason != "" then [ts[0].customMissedReason] else []) + CustomReasons(ts[1..])
  }

  /** The step of counting tasks whose catalog reason has the name `k`. */
  lemma ReasonNameStep(ts: seq<TaskRow>, k: string)
    requires ts != []
    ensures Count(ts, [ReasonNameIs(k)]) ==
            (if ts[0].missedReason.Some? && ts[0].missedReason.value.name == k then 1 else 0) +
            Count(ts[1..], [ReasonNameIs(k)])
  {
    CountStep(ts, [ReasonNameIs(k)]);
    ReasonNameMatch(ts[0], k);
  }

  lemma ReasonNameMatch(t: TaskRow, k: string)
    ensures MatchesAll(t, [ReasonNameIs(k)]) <==> t.missedReason.Some? && t.missedReason.value.name == k
  {
    MatchesOne(t, ReasonNameIs(k));
  }

  /** The step of counting tasks whose custom reason is `k`. */
  lemma CustomTextStep(ts: seq<TaskRow>, k: string)
    requires ts != []
    ensures Count(ts, [CustomReasonIs(k)]) ==
            (if ts[0].customMissedReason == k then 1 else 0) + Count(ts[1..], [CustomReasonIs(k)])
  {
    CountStep(ts, [CustomReasonIs(k)]);
    CustomTextMatch(ts[0], k);
  }

  lemma CustomTextMatch(t: TaskRow, k: string)
    ensures MatchesAll(t, [CustomReasonIs(k)]) <==> t.customMissedReason == k
  {
    MatchesOne(t, CustomReasonIs(k));
  }

  /** A name is listed once for each task whose catalog reason has that name. */
  lemma {:induction false} ReasonNamesCount(ts: seq<TaskRow>, k: string)
    ensures Occurrences(ReasonNames(ts), k) == Count(ts, [ReasonNameIs(k)])
  {
    if ts != [] {
      ReasonNamesCount(ts[1..], k);
      ReasonNameStep(ts, k);
      var head := match ts[0].missedReason case Some(x) => [x.name] case None => [];
      OccurrencesAppend(head, ReasonNames(ts[1..]), k);
    }
  }

  /** A non-empty text is listed once for each task whose custom reason it is; the empty text never is. */
  lemma {:induction false} CustomReasonsCount(ts: seq<TaskRow>, k: string)
    ensures k != "" ==> Occurrences(CustomReasons(ts), k) == Count(ts, [CustomReasonIs(k)])
    ensures Occurrences(CustomReasons(ts), "") == 0
  {
    if ts != [] {
      CustomReasonsCount(ts[1..], k);
      CustomTextStep(ts, k);
      var head := if ts[0].customMissedReason != "" then [ts[0].customMissedReason] else [];
      OccurrencesAppend(head, CustomReasons(ts[1..]), k);
      OccurrencesAppend(head, CustomReasons(ts[1..]), "");
    }
  }

  /** `reason_stats`: every catalog reason among the missed tasks with its count, by descending count. */
  function ReasonStats(missed: seq<TaskRow>): seq<Group>
  {
    var names := ReasonNames(missed);
    TopGroups(names, |names|)
  }

  /** `tasks_without_reasons`: missed tasks with no catalog reason and an empty custom reason. */
  function TasksWithoutReasons(missed: seq<TaskRow>): seq<TaskRow>
  {
    Filter(missed, NoReasons)
  }

  /** `common_custom_reasons`: the ten most frequent custom reasons with their counts. */
  function CommonCustomReasons(missed: seq<TaskRow>): seq<Group>
  {
    TopGroups(CustomReasons(missed), 10)
  }

  /**
    `reason_stats` has one row per catalog reason name among the missed tasks,
    with the number of missed tasks whose reason has that name, by descending
    count.
   */
  lemma ReasonStatsSpec(missed: seq<TaskRow>)
    ensures SortedByCountDesc(ReasonStats(missed))
    ensures NoDuplicates(KeysOf(ReasonStats(missed)))
    ensures forall g :: g in ReasonStats(missed) ==> g.count == Count(missed, [ReasonNameIs(g.key)]) && g.count > 0
    ensures forall k :: Count(missed, [ReasonNameIs(k)]) > 0 ==>
              Group(k, Count(missed, [ReasonNameIs(k)])) in ReasonStats(missed)
  {
    var names := ReasonNames(missed);
    TopGroupsSpec(names, |names|);
    forall g | g in ReasonStats(missed) ensures g.count == Count(missed, [ReasonNameIs(g.key)]) {
      ReasonNamesCount(missed, g.key);
    }
    forall k | Count(missed, [ReasonNameIs(k)]) > 0
      ensures Group(k, Count(missed, [ReasonNameIs(k)])) in ReasonStats(missed)
    {
      ReasonNamesCount(missed, k);
      OccurrencesPositive(names, k);
      AllGroupsKept(names, |names|, k);
    }
  }

  /**
    `common_custom_reasons` holds ten distinct non-empty custom reasons, or
    all of them when there are fewer, each with the number of missed tasks
    giving it, by descending count; no custom reason left out is given by more
    tasks than one kept.
   */
  lemma CommonCustomReasonsSpec(missed: seq<TaskRow>)
    ensures var d := |Distinct(CustomReasons(missed))|;
      |CommonCustomReasons(missed)| == if d < 10 then d else 10
    ensures SortedByCountDesc(CommonCustomReasons(missed))
    ensures NoDuplicates(KeysOf(CommonCustomReasons(missed)))
    ensures forall g :: g in CommonCustomReasons(missed) ==>
              g.key != "" && g.count == Count(missed, [CustomReasonIs(g.key)]) && g.count > 0
    ensures forall k :: k != "" && Count(missed, [CustomReasonIs(k)]) > 0 && k !in KeysOf(CommonCustomReasons(missed)) ==>
              forall g :: g in CommonCustomReasons(missed) ==> Count(missed, [CustomReasonIs(k)]) <= g.count
  {
    var texts := CustomReasons(missed);
    TopGroupsSpec(texts, 10);
    CustomReasonsCount(missed, "");
    forall g | g in CommonCustomReasons(missed)
      ensures g.key != "" && g.count == Count(missed, [CustomReasonIs(g.key)])
    {
      if g.key == "" {
        assert false;
      }
      CustomReasonsCount(missed, g.key);
    }
    forall k | k != "" && Count(missed, [CustomReasonIs(k)]) > 0 && k !in KeysOf(CommonCustomReasons(missed))
      ensures forall g :: g in CommonCustomReasons(missed) ==> Count(missed, [CustomReasonIs(k)]) <= g.count
    {
      CustomReasonsCount(missed, k);
      OccurrencesPositive(texts, k);
    }
  }

  /**
    `tasks_without_reasons` holds exactly the missed tasks for which
    `HasMissedReason` fails, each as often as the missed tasks hold it.
   */
  lemma TasksWithoutReasonsSpec(missed: seq<TaskRow>, t: TaskRow)
    ensures t in TasksWithoutReasons(missed) <==> t in missed && !t.HasMissedReason()
    ensures multiset(TasksWithoutReasons(missed)) <= multiset(missed)
    ensures !t.HasMissedReason() ==> multiset(TasksWithoutReasons(missed))[t] == multiset(missed)[t]
  {
    NoReasonsMatch(t);
    if !t.HasMissedReason() {
      FilterKeepsMultiplicity(missed, NoReasons, t);
    }
  }
}
