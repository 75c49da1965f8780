/** Sessions driven through the controller the way the window drives it:
    load the active subject, report each finished countdown, and answer the
    finish-or-continue decision. */
module Scenarios {
  import opened Backend
  import opened Controller
  import opened Display

  /** On a freshly created plan the first subject is current, untouched. */
  lemma FreshPlanStartsWithFirst(today: Day)
    ensures CurrentSubjectOf(PlanRows(today, SubjectsList, 1), today) ==
              Some(SubjectView(1, SubjectsList[0], 0, Pending))
  {
    var rows := PlanRows(today, SubjectsList, 1);
    assert IsActiveOn(rows[0], today);
    var k := ActiveIndex(rows, today).value;
    assert rows[k].id <= rows[0].id;
  }

  /** On a table whose ids are 1, 2, ... in order, a cycle recorded on id 1
      changes the first row only. */
  lemma CycleOnFirstOnly(plan: seq<StudyRow>, r: StudyRow, after: seq<StudyRow>, duration: int)
    requires |plan| >= 1 && forall k :: 0 <= k < |plan| ==> plan[k].id == k + 1
    requires r.id == 1
    requires |after| == |plan|
    requires forall k :: 0 <= k < |after| ==>
               after[k] == if plan[0 := r][k].id == 1 then AfterCycle(plan[0 := r][k], duration)
                           else plan[0 := r][k]
    ensures after == plan[0 := AfterCycle(r, duration)]
  {
  }

  /** The state after `i` finished countdowns on a plan whose first row was
      current and untouched. */
  ghost predicate CycledFirst(app: StudyController, plan: seq<StudyRow>, i: nat)
    reads app, app.repo
  {
    && |plan| >= 1
    && app.repo.rows == plan[0 := CycledTimes(plan[0], PomodoroDurationSeconds, i)]
    && app.currentSubjectData ==
         Some(SubjectView(1, plan[0].subjectName, i, if i == 0 then Pending else StatusAfterCycles(i)))
  }

  /** One more finished countdown. */
  method NextPomodoro(app: StudyController, ghost plan: seq<StudyRow>, ghost i: nat)
    requires app.Valid() && CycledFirst(app, plan, i)
    requires forall k :: 0 <= k < |plan| ==> plan[k].id == k + 1
    requires plan[0].cyclesCompleted == 0 && plan[0].status == Pending
    modifies app, app.repo
    ensures app.Valid() && CycledFirst(app, plan, i + 1)
  {
    ghost var r := CycledTimes(plan[0], PomodoroDurationSeconds, i);
    CycledTimesCounters(plan[0], PomodoroDurationSeconds, i);
    app.CompletePomodoro();
    CycleOnFirstOnly(plan, r, app.repo.rows, PomodoroDurationSeconds);
  }

  /** Four finished countdowns in a row on a plan whose first row is current
      and untouched. */
  method FourPomodoros(app: StudyController, ghost plan: seq<StudyRow>)
    requires app.Valid()
    requires |plan| >= 1 && forall k :: 0 <= k < |plan| ==> plan[k].id == k + 1
    requires app.repo.rows == plan && plan[0].cyclesCompleted == 0 && plan[0].status == Pending
    requires app.currentSubjectData == Some(View(plan[0]))
    modifies app, app.repo
    ensures app.Valid()
    ensures app.repo.rows == plan[0 := CycledTimes(plan[0], PomodoroDurationSeconds, 4)]
    ensures app.currentSubjectData == Some(SubjectView(1, plan[0].subjectName, 4, Completed))
  {
    assert plan[0 := CycledTimes(plan[0], PomodoroDurationSeconds, 0)] == plan;
    for i := 0 to 4
      invariant app.Valid() && CycledFirst(app, plan, i)
    {
      NextPomodoro(app, plan, i);
    }
  }

  /** Opens a controller on an empty store and loads its first subject. */
  method StartFreshDay(today: Day) returns (app: StudyController, ghost plan: seq<StudyRow>)
    ensures fresh(app) && fresh(app.repo) && app.Valid()
    ensures plan == PlanRows(today, SubjectsList, 1) && app.repo.rows == plan && app.today == today
    ensures app.currentSubjectData == Some(View(plan[0]))
  {
    var store := new StudyRepository.Open([], 1);
    app := new StudyController(store, today);
    plan := store.rows;
    var first := app.LoadActiveSubject();
    FreshPlanStartsWithFirst(today);
  }

  /** Four pomodoros on a fresh plan bring the first subject to the goal
      (COMPLETED, 6000 seconds) and so to the decision; finishing it makes
      the second subject, still PENDING, the current one. */
  method FourCyclesThenAdvance(today: Day)
    returns (afterFour: Option<SubjectView>, seconds: int, decision: bool, next: Option<SubjectView>)
    ensures afterFour == Some(SubjectView(1, SubjectsList[0], 4, Completed))
    ensures seconds == 6000
    ensures decision
    ensures next == Some(SubjectView(2, SubjectsList[1], 0, Pending))
  {
    var app, plan := StartFreshDay(today);
    FourPomodoros(app, plan);
    afterFour := app.currentSubjectData;
    CycledTimesCounters(plan[0], PomodoroDurationSeconds, 4);
    seconds := app.repo.rows[0].totalSeconds;
    decision := ShowsDecision(afterFour);
    ghost var before := app.repo.rows;
    app.FinishSubjectAndAdvance();
    next := app.currentSubjectData;
    SecondBecomesCurrent(before, app.repo.rows, today);
  }

  /** Choosing to continue after the goal keeps the same subject current;
      a fifth pomodoro brings it to 5 cycles and 7500 seconds, still COMPLETED. */
  method FourCyclesThenContinue(today: Day) returns (afterFive: Option<SubjectView>, seconds: int)
    ensures afterFive == Some(SubjectView(1, SubjectsList[0], 5, Completed))
    ensures seconds == 7500
  {
    var app, plan := StartFreshDay(today);
    FourPomodoros(app, plan);
    app.ContinueSameSubject();
    ghost var r := app.repo.rows[0];
    app.CompletePomodoro();
    CycleOnFirstOnly(plan, r, app.repo.rows, PomodoroDurationSeconds);
    afterFive := app.currentSubjectData;
    CycledTimesCounters(plan[0], PomodoroDurationSeconds, 4);
    seconds := app.repo.rows[0].totalSeconds;
  }

  /** Once the first of the fresh plan's rows is FINISHED and the others are
      untouched, the second row is current. */
  lemma SecondBecomesCurrent(before: seq<StudyRow>, after: seq<StudyRow>, today: Day)
    requires |before| == |SubjectsList|
    requires forall k :: 1 <= k < |before| ==> before[k] == PlanRows(today, SubjectsList, 1)[k]
    requires before[0].id == 1
    requires |after| == |before|
    requires forall k :: 0 <= k < |after| ==>
               after[k] == if before[k].id == 1 then before[k].(status := Finished) else before[k]
    ensures CurrentSubjectOf(after, today) == Some(SubjectView(2, SubjectsList[1], 0, Pending))
  {
    assert after[0].status == Finished;
    assert after[1] == before[1];
    assert IsActiveOn(after[1], today);
    var k := ActiveIndex(after, today).value;
    assert after[k].id <= after[1].id;
    assert k != 0;
  }

  /** Finishing subject after subject empties the day: the cache ends empty
      and every row dated today is FINISHED. */
  method FinishWholeDay(app: StudyController)
    requires app.Valid()
    modifies app, app.repo
    ensures app.Valid()
    ensures app.currentSubjectData.None?
    ensures forall k :: 0 <= k < |app.repo.rows| && app.repo.rows[k].studyDate == app.today ==>
              app.repo.rows[k].status == Finished
  {
    var data := app.LoadActiveSubject();
    while data.Some?
      invariant app.Valid()
      invariant data == app.currentSubjectData == app.repo.GetCurrentSubject(app.today)
      invariant data.Some? ==> data.value.id < app.repo.nextId
      decreases if data.Some? then app.repo.nextId - data.value.id else 0
    {
      app.FinishSubjectAndAdvance();
      data := app.currentSubjectData;
    }
  }
}
