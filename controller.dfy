/** The session controller: it owns the repository, keeps the active subject
    of the day in `currentSubjectData`, and turns the three user events
    (a finished pomodoro, finish-and-advance, continue) into repository calls
    followed by a reload of the active subject. */
module Controller {
  import opened Backend

  /** Recording a cycle on the active row leaves that row active: the same
      subject comes back from the query, one cycle further on. */
  lemma CycleKeepsSubject(
    before: seq<StudyRow>, after: seq<StudyRow>, day: Day, duration: int, v: SubjectView)
    requires CurrentSubjectOf(before, day) == Some(v)
    requires |after| == |before|
    requires forall k :: 0 <= k < |after| ==>
               after[k] == if before[k].id == v.id then AfterCycle(before[k], duration) else before[k]
    ensures CurrentSubjectOf(after, day) ==
              Some(SubjectView(v.id, v.name, v.cycles + 1, StatusAfterCycles(v.cycles + 1)))
  {
    SameShapeSameIndex(before, after, day);
  }

  /** Finishing the active row hands the query to an active row with a larger
      id, or to none. */
  lemma FinishAdvances(before: seq<StudyRow>, after: seq<StudyRow>, day: Day, v: SubjectView)
    requires IdsIncreasing(before)
    requires CurrentSubjectOf(before, day) == Some(v)
    requires |after| == |before|
    requires forall k :: 0 <= k < |after| ==>
               after[k] == if before[k].id == v.id then before[k].(status := Finished) else before[k]
    ensures CurrentSubjectOf(after, day).None? || CurrentSubjectOf(after, day).value.id > v.id
  {
    ActiveIndexStrict(before, day);
    var k := ActiveIndex(before, day).value;
    if ActiveIndex(after, day).Some? {
      var j := ActiveIndex(after, day).value;
      assert j != k;
      assert IsActiveOn(before[j], day);
    }
  }

  class StudyController {
    const repo: StudyRepository
    const today: Day
    var currentSubjectData: Option<SubjectView>

    /** The cache is empty (before the first load) or equals the query. */
    ghost predicate Valid()
      reads this, repo
    {
      repo.Valid() &&
      (currentSubjectData.None? || currentSubjectData == repo.GetCurrentSubject(today))
    }

    /** Opens the controller on `store`, creating the plan for `today` from
        the configured subjects if the store has none for that day. */
    constructor (store: StudyRepository, today: Day)
      requires store.Valid()
      modifies store
      ensures Valid() && repo == store && this.today == today
      ensures currentSubjectData == None
      ensures (exists k :: 0 <= k < |old(store.rows)| && old(store.rows)[k].studyDate == today) ==>
                store.rows == old(store.rows) && store.nextId == old(store.nextId)
      ensures (forall k :: 0 <= k < |old(store.rows)| ==> old(store.rows)[k].studyDate != today) ==>
                store.rows == old(store.rows) + PlanRows(today, SubjectsList, old(store.nextId)) &&
                store.nextId == old(store.nextId) + |SubjectsList|
    {
      store.EnsureDailyPlanExists(today, SubjectsList);
      repo := store;
      this.today := today;
      currentSubjectData := None;
    }

    /** Re-reads the active subject into the cache. */
    method LoadActiveSubject() returns (data: Option<SubjectView>)
      requires repo.Valid()
      modifies this
      ensures Valid()
      ensures currentSubjectData == repo.GetCurrentSubject(today)
      ensures data == currentSubjectData
    {
      currentSubjectData := repo.GetCurrentSubject(today);
      data := currentSubjectData;
    }

    /** Records a finished pomodoro on the cached subject and reloads. */
    method CompletePomodoro()
      requires Valid()
      modifies this, repo
      ensures Valid()
      ensures old(currentSubjectData).None? ==>
                currentSubjectData == None && repo.rows == old(repo.rows) &&
                repo.nextId == old(repo.nextId)
      ensures old(currentSubjectData).Some? ==>
                var v := old(currentSubjectData).value;
                && |repo.rows| == |old(repo.rows)|
                && (forall k :: 0 <= k < |repo.rows| ==>
                      repo.rows[k] == if old(repo.rows)[k].id == v.id
                                      then AfterCycle(old(repo.rows)[k], PomodoroDurationSeconds)
                                      else old(repo.rows)[k])
                && repo.nextId == old(repo.nextId)
                && currentSubjectData == repo.GetCurrentSubject(today)
                && currentSubjectData ==
                     Some(SubjectView(v.id, v.name, v.cycles + 1, StatusAfterCycles(v.cycles + 1)))
    {
      if currentSubjectData.None? {
        return;
      }
      var v := currentSubjectData.value;
      ghost var before := repo.rows;
      var outcome := repo.RecordCycle(v.id, PomodoroDurationSeconds);
      // the cached id came from the query, so its row exists
      assert outcome == Done;
      CycleKeepsSubject(before, repo.rows, today, PomodoroDurationSeconds, v);
      var _ := LoadActiveSubject();
    }

    /** Finishes the cached subject and reloads, which moves to the next one. */
    method FinishSubjectAndAdvance()
      requires Valid()
      modifies this, repo
      ensures Valid()
      ensures old(currentSubjectData).None? ==>
                currentSubjectData == None && repo.rows == old(repo.rows) &&
                repo.nextId == old(repo.nextId)
      ensures old(currentSubjectData).Some? ==>
                var v := old(currentSubjectData).value;
                && |repo.rows| == |old(repo.rows)|
                && (forall k :: 0 <= k < |repo.rows| ==>
                      repo.rows[k] == if old(repo.rows)[k].id == v.id
                                      then old(repo.rows)[k].(status := Finished)
                                      else old(repo.rows)[k])
                && repo.nextId == old(repo.nextId)
                && currentSubjectData == repo.GetCurrentSubject(today)
                && (currentSubjectData.None? || currentSubjectData.value.id > v.id)
    {
      if currentSubjectData.Some? {
        var v := currentSubjectData.value;
        ghost var before := repo.rows;
        repo.MarkAsFinished(v.id);
        FinishAdvances(before, repo.rows, today, v);
        var _ := LoadActiveSubject();
      }
    }

    /** Keeps the cached subject: only reloads it. */
    method ContinueSameSubject()
      requires Valid()
      modifies this
      ensures Valid()
      ensures currentSubjectData == repo.GetCurrentSubject(today)
      ensures old(currentSubjectData).Some? ==> currentSubjectData == old(currentSubjectData)
    {
      var _ := LoadActiveSubject();
    }

    /** The history report, passed through from the repository. */
    method GetReportData() returns (report: seq<StatsRow>)
      requires Valid()
      ensures report == repo.GetAllStats()
    {
      report := repo.GetAllStats();
    }
  }
}
