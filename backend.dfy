/** The persistent study-plan table and the repository that owns it.

    The SQLite table `daily_study` is modelled as a sequence of rows held by
    a `StudyRepository` object, in insertion order; `nextId` plays the part of
    the AUTOINCREMENT counter. Calendar dates are day ordinals whose order is
    the order of their ISO 8601 text. */
module Backend {

  /** One cycle of focused study, 25 minutes. */
  const PomodoroDurationSeconds: int := 25 * 60

  /** A subject's cycle count from which its row is COMPLETED. */
  const CycleGoal: nat := 4

  /** The configured subjects, in plan order. */
  const SubjectsList: seq<string> := [
    "Matemática", "História", "Física", "Geografia", "Química",
    "Biologia", "Filosofia", "Sociologia", "Português", "Redação"
  ]

  /** A calendar date; `a < b` exactly when `a`'s ISO text sorts before `b`'s. */
  type Day = nat

  datatype Option<T> = None | Some(value: T)

  datatype Status = Pending | InProgress | Completed | Finished

  /** A row of `daily_study`. */
  datatype StudyRow = StudyRow(
    id: nat,
    studyDate: Day,
    subjectName: string,
    cyclesCompleted: nat,
    totalSeconds: int,
    status: Status)

  /** The projection returned by the current-subject query. */
  datatype SubjectView = SubjectView(id: nat, name: string, cycles: nat, status: Status)

  /** The projection returned by the history query. */
  datatype StatsRow = StatsRow(
    studyDate: Day, subjectName: string, cyclesCompleted: nat, totalSeconds: int, status: Status)

  /** Failure of `RecordCycle`: no row has the given id. */
  datatype Outcome = Done | NotFound(id: int)

  // ---------------------------------------------------------------------
  // Row-level rules

  /** The status a cycle writes into a row that is not FINISHED. */
  function StatusAfterCycles(cycles: nat): Status {
    if cycles >= CycleGoal then Completed else InProgress
  }

  /** A row after one more cycle of `duration` seconds. FINISHED is kept. */
  function AfterCycle(row: StudyRow, duration: int): StudyRow {
    row.(cyclesCompleted := row.cyclesCompleted + 1,
         totalSeconds := row.totalSeconds + duration,
         status := if row.status != Finished then StatusAfterCycles(row.cyclesCompleted + 1)
                   else row.status)
  }

  /** What the cycle rules keep true of every row: a COMPLETED row has met the
      goal, an IN_PROGRESS row has started but not met it, and a row that is
      not FINISHED is PENDING exactly when no cycle was recorded. */
  ghost predicate StatusConsistent(row: StudyRow) {
    && (row.status == Completed ==> row.cyclesCompleted >= CycleGoal)
    && (row.status == InProgress ==> 0 < row.cyclesCompleted < CycleGoal)
    && (row.status != Finished ==> (row.status == Pending <==> row.cyclesCompleted == 0))
  }

  lemma AfterCycleKeepsConsistent(row: StudyRow, duration: int)
    requires StatusConsistent(row)
    ensures StatusConsistent(AfterCycle(row, duration))
    ensures AfterCycle(row, duration).status != Pending
  {
  }

  /** `n` cycles of `duration` seconds, one after another. */
  function CycledTimes(row: StudyRow, duration: int, n: nat): StudyRow
    decreases n
  {
    if n == 0 then row else AfterCycle(CycledTimes(row, duration, n - 1), duration)
  }

  /** After `n` cycles the counters have grown by `n` and `n * duration`; the
      status is FINISHED if it was, and is otherwise decided by the new count. */
  lemma {:induction false} CycledTimesCounters(row: StudyRow, duration: int, n: nat)
    ensures CycledTimes(row, duration, n).cyclesCompleted == row.cyclesCompleted + n
    ensures CycledTimes(row, duration, n).totalSeconds == row.totalSeconds + n * duration
    ensures CycledTimes(row, duration, n).id == row.id
    ensures CycledTimes(row, duration, n).subjectName == row.subjectName
    ensures CycledTimes(row, duration, n).studyDate == row.studyDate
    ensures row.status == Finished ==> CycledTimes(row, duration, n).status == Finished
    ensures row.status != Finished && n > 0 ==>
              CycledTimes(row, duration, n).status == StatusAfterCycles(row.cyclesCompleted + n)
    decreases n
  {
    if n > 0 {
      CycledTimesCounters(row, duration, n - 1);
      assert n * duration == (n - 1) * duration + duration;
    }
  }

  // ---------------------------------------------------------------------
  // Table-level facts

  ghost predicate IdsIncreasing(rows: seq<StudyRow>) {
    forall i, j :: 0 <= i < j < |rows| ==> rows[i].id < rows[j].id
  }

  /** What the table keeps true: ids are positive, strictly increasing in
      insertion order and below the AUTOINCREMENT counter, and every row obeys
      the cycle rules. */
  ghost predicate TableInvariant(rows: seq<StudyRow>, nextId: nat) {
    && IdsIncreasing(rows)
    && (forall k :: 0 <= k < |rows| ==> 1 <= rows[k].id < nextId)
    && (forall k :: 0 <= k < |rows| ==> StatusConsistent(rows[k]))
    && 1 <= nextId
  }

  /** Appending a consistent row that takes the counter's id keeps the
      invariant, with the counter one further on. */
  lemma AppendKeepsInvariant(rows: seq<StudyRow>, nextId: nat, row: StudyRow)
    requires TableInvariant(rows, nextId)
    requires row.id == nextId && StatusConsistent(row)
    ensures TableInvariant(rows + [row], nextId + 1)
  {
  }

  /** `SELECT COUNT(*) FROM daily_study WHERE study_date = ?` */
  function CountOn(rows: seq<StudyRow>, day: Day): (n: nat)
    ensures n <= |rows|
    ensures n == 0 <==> forall k :: 0 <= k < |rows| ==> rows[k].studyDate != day
  {
    if rows == [] then 0
    else CountOn(rows[1..], day) + (if rows[0].studyDate == day then 1 else 0)
  }

  /** The rows a new plan adds: one PENDING row per subject, in list order,
      with consecutive ids from `firstId`. */
  function PlanRows(day: Day, subjects: seq<string>, firstId: nat): (rows: seq<StudyRow>)
    ensures |rows| == |subjects|
  {
    seq(|subjects|, k requires 0 <= k < |subjects| =>
      StudyRow(firstId + k, day, subjects[k], 0, 0, Pending))
  }

  /** Position of the row with this id, if any (the `WHERE id = ?` lookup). */
  function FindRow(rows: seq<StudyRow>, id: int): (r: Option<nat>)
    ensures r.None? <==> forall k :: 0 <= k < |rows| ==> rows[k].id != id
    ensures r.Some? ==> r.value < |rows| && rows[r.value].id == id
  {
    if rows == [] then None
    else if rows[0].id == id then Some(0)
    else match FindRow(rows[1..], id)
      case None => None
      case Some(k) => Some(k + 1)
  }

  predicate IsActiveOn(row: StudyRow, day: Day) {
    row.studyDate == day && row.status != Finished
  }

  /** Position of the lowest-id row dated `day` that is not FINISHED, if any
      (`WHERE study_date = ? AND status != 'FINISHED' ORDER BY id LIMIT 1`). */
  function ActiveIndex(rows: seq<StudyRow>, day: Day): (r: Option<nat>)
    ensures r.None? <==> forall k :: 0 <= k < |rows| ==> !IsActiveOn(rows[k], day)
    ensures r.Some? ==> r.value < |rows| && IsActiveOn(rows[r.value], day)
    ensures r.Some? ==>
              forall k :: 0 <= k < |rows| && IsActiveOn(rows[k], day) ==> rows[r.value].id <= rows[k].id
  {
    if rows == [] then None
    else
      var rest := ActiveIndex(rows[1..], day);
      if IsActiveOn(rows[0], day) && (rest.None? || rows[0].id <= rows[1..][rest.value].id) then Some(0)
      else match rest
        case None => None
        case Some(k) => Some(k + 1)
  }

  /** The query looks only at ids, dates and FINISHED marks: two tables that
      agree on those pick the same position. */
  lemma {:induction false} SameShapeSameIndex(a: seq<StudyRow>, b: seq<StudyRow>, day: Day)
    requires |a| == |b|
    requires forall k :: 0 <= k < |a| ==>
               a[k].id == b[k].id && (IsActiveOn(a[k], day) <==> IsActiveOn(b[k], day))
    ensures ActiveIndex(a, day) == ActiveIndex(b, day)
  {
    if a != [] {
      SameShapeSameIndex(a[1..], b[1..], day);
    }
  }

  /** In a table with increasing ids, the active position holds an id below
      that of every other active row. */
  lemma ActiveIndexStrict(rows: seq<StudyRow>, day: Day)
    requires IdsIncreasing(rows)
    ensures ActiveIndex(rows, day).Some? ==>
              var k := ActiveIndex(rows, day).value;
              forall j :: 0 <= j < |rows| && j != k && IsActiveOn(rows[j], day) ==> rows[k].id < rows[j].id
  {
    if ActiveIndex(rows, day).Some? {
      var k := ActiveIndex(rows, day).value;
      assert forall j :: 0 <= j < |rows| && j != k ==> rows[j].id != rows[k].id;
    }
  }

  function View(row: StudyRow): SubjectView {
    SubjectView(row.id, row.subjectName, row.cyclesCompleted, row.status)
  }

  function CurrentSubjectOf(rows: seq<StudyRow>, day: Day): Option<SubjectView> {
    match ActiveIndex(rows, day)
    case None => None
    case Some(k) => Some(View(rows[k]))
  }

  // ---------------------------------------------------------------------
  // History: rows with recorded time, date descending, then id ascending

  predicate ListedBefore(a: StudyRow, b: StudyRow) {
    a.studyDate > b.studyDate || (a.studyDate == b.studyDate && a.id < b.id)
  }

  ghost predicate HistoryOrdered(s: seq<StudyRow>) {
    forall i, j :: 0 <= i < j < |s| ==> ListedBefore(s[i], s[j])
  }

  ghost predicate IdsDistinct(rows: seq<StudyRow>) {
    forall i, j :: 0 <= i < j < |rows| ==> rows[i].id != rows[j].id
  }

  /** `WHERE total_seconds > 0`, in table order. */
  function WithTime(rows: seq<StudyRow>): (r: seq<StudyRow>)
    ensures forall x :: x in r <==> x in rows && x.totalSeconds > 0
  {
    if rows == [] then []
    else if rows[0].totalSeconds > 0 then [rows[0]] + WithTime(rows[1..])
    else WithTime(rows[1..])
  }

  function InsertListed(x: StudyRow, s: seq<StudyRow>): (r: seq<StudyRow>)
    requires HistoryOrdered(s)
    requires forall k :: 0 <= k < |s| ==> s[k].id != x.id
    ensures HistoryOrdered(r)
    ensures multiset(r) == multiset(s) + multiset{x}
  {
    if s == [] || ListedBefore(x, s[0]) then [x] + s
    else
      var t := InsertListed(x, s[1..]);
      assert s == [s[0]] + s[1..];
      assert ListedBefore(s[0], x);
      PrependListed(s[0], x, s[1..], t);
      [s[0]] + t
  }

  /** `y` may head `t` when `t` holds `x` and the rows `y` already headed. */
  lemma PrependListed(y: StudyRow, x: StudyRow, s: seq<StudyRow>, t: seq<StudyRow>)
    requires HistoryOrdered([y] + s) && HistoryOrdered(t)
    requires ListedBefore(y, x)
    requires multiset(t) == multiset(s) + multiset{x}
    ensures HistoryOrdered([y] + t)
  {
    forall j | 0 <= j < |t| ensures ListedBefore(y, t[j]) {
      assert t[j] in multiset(t);
      if t[j] != x {
        assert t[j] in multiset(s);
        var i :| 0 <= i < |s| && s[i] == t[j];
        assert ([y] + s)[0] == y && ([y] + s)[i + 1] == s[i];
      }
    }
  }

  /** The rows the history query lists, in the order it lists them. */
  function HistoryRows(rows: seq<StudyRow>): (r: seq<StudyRow>)
    requires IdsDistinct(rows)
    ensures HistoryOrdered(r)
    ensures multiset(r) == multiset(WithTime(rows))
    ensures forall x :: x in r <==> x in rows && x.totalSeconds > 0
  {
    if rows == [] then []
    else
      var rest := HistoryRows(rows[1..]);
      assert IdsDistinct(rows[1..]);
      if rows[0].totalSeconds > 0 then
        assert forall k :: 0 <= k < |rest| ==> rest[k].id != rows[0].id by {
          forall k | 0 <= k < |rest| ensures rest[k].id != rows[0].id {
            assert rest[k] in rows[1..];
          }
        }
        assert WithTime(rows) == [rows[0]] + WithTime(rows[1..]);
        var r := InsertListed(rows[0], rest);
        assert forall x :: x in r <==> x in multiset(r);
        r
      else
        rest
  }

  /** Two histories listing the same rows start with the same row. */
  lemma HeadsAgree(a: seq<StudyRow>, b: seq<StudyRow>)
    requires HistoryOrdered(a) && HistoryOrdered(b)
    requires a != [] && b != [] && a[0] in b && b[0] in a
    ensures a[0] == b[0]
  {
    var i :| 0 <= i < |a| && a[i] == b[0];
    var j :| 0 <= j < |b| && b[j] == a[0];
  }

  /** The ordering pins the answer down: two orderings of the same rows that
      both list by date descending and then id ascending are the same list. */
  lemma {:induction false} HistoryOrderIsUnique(a: seq<StudyRow>, b: seq<StudyRow>)
    requires HistoryOrdered(a) && HistoryOrdered(b)
    requires multiset(a) == multiset(b)
    ensures a == b
    decreases |a|
  {
    if a != [] {
      assert a[0] in multiset(b);
      assert b != [];
      assert b[0] in multiset(a);
      HeadsAgree(a, b);
      assert a == [a[0]] + a[1..] && b == [b[0]] + b[1..];
      assert multiset(a) == multiset{a[0]} + multiset(a[1..]);
      assert multiset(b) == multiset{b[0]} + multiset(b[1..]);
      assert multiset(a[1..]) == multiset(a) - multiset{a[0]};
      assert multiset(b[1..]) == multiset(b) - multiset{a[0]};
      HistoryOrderIsUnique(a[1..], b[1..]);
    } else {
      assert |multiset(b)| == 0;
    }
  }

  function Stat(row: StudyRow): StatsRow {
    StatsRow(row.studyDate, row.subjectName, row.cyclesCompleted, row.totalSeconds, row.status)
  }

  // ---------------------------------------------------------------------
  // The repository

  class StudyRepository {
    var rows: seq<StudyRow>
    var nextId: nat

    ghost predicate Valid()
      reads this
    {
      TableInvariant(rows, nextId)
    }

    /** Opens a table holding `table`, whose AUTOINCREMENT counter is `next`. */
    constructor Open(table: seq<StudyRow>, next: nat)
      requires TableInvariant(table, next)
      ensures Valid() && rows == table && nextId == next
    {
      rows := table;
      nextId := next;
    }

    /** Creates today's plan unless some row is already dated today. */
    method EnsureDailyPlanExists(today: Day, subjects: seq<string>)
      requires Valid()
      modifies this
      ensures Valid()
      ensures (exists k :: 0 <= k < |old(rows)| && old(rows)[k].studyDate == today) ==>
                rows == old(rows) && nextId == old(nextId)
      ensures (forall k :: 0 <= k < |old(rows)| ==> old(rows)[k].studyDate != today) ==>
                rows == old(rows) + PlanRows(today, subjects, old(nextId)) &&
                nextId == old(nextId) + |subjects|
      ensures forall j, k :: 0 <= j < |old(rows)| <= k < |rows| ==> rows[j].id < rows[k].id
    {
      var count := CountOn(rows, today);
      if count == 0 {
        var i := 0;
        while i < |subjects|
          invariant 0 <= i <= |subjects|
          invariant rows == old(rows) + PlanRows(today, subjects[..i], old(nextId))
          invariant nextId == old(nextId) + i
          invariant Valid()
          invariant forall k :: |old(rows)| <= k < |rows| ==> old(nextId) <= rows[k].id
        {
          AppendKeepsInvariant(rows, nextId, StudyRow(nextId, today, subjects[i], 0, 0, Pending));
          rows := rows + [StudyRow(nextId, today, subjects[i], 0, 0, Pending)];
          nextId := nextId + 1;
          i := i + 1;
        }
        assert subjects[..i] == subjects;
      }
    }

    /** The current-subject query. */
    function GetCurrentSubject(today: Day): (r: Option<SubjectView>)
      reads this
      requires Valid()
      ensures r.None? <==> forall k :: 0 <= k < |rows| ==> !IsActiveOn(rows[k], today)
      ensures r.Some? ==> exists k :: 0 <= k < |rows| && IsActiveOn(rows[k], today) &&
                                      View(rows[k]) == r.value &&
                                      forall j :: 0 <= j < |rows| && j != k ==>
                                        !IsActiveOn(rows[j], today) || rows[k].id < rows[j].id
    {
      ActiveIndexStrict(rows, today);
      CurrentSubjectOf(rows, today)
    }

    /** Adds one cycle of `duration` seconds to the row with id `rowId`. */
    method RecordCycle(rowId: int, duration: int) returns (outcome: Outcome)
      requires Valid()
      modifies this
      ensures Valid()
      ensures nextId == old(nextId)
      ensures outcome == Done <==> exists k :: 0 <= k < |old(rows)| && old(rows)[k].id == rowId
      ensures outcome.NotFound? ==> rows == old(rows)
      ensures |rows| == |old(rows)|
      ensures forall k :: 0 <= k < |rows| ==>
                rows[k] == if old(rows)[k].id == rowId then AfterCycle(old(rows)[k], duration)
                           else old(rows)[k]
    {
      var found := FindRow(rows, rowId);
      if found.None? {
        return NotFound(rowId);
      }
      var k := found.value;
      var current := rows[k].cyclesCompleted;
      var newCycles := current + 1;
      var newStatus := StatusAfterCycles(newCycles);
      var row := rows[k];
      AfterCycleKeepsConsistent(row, duration);
      rows := rows[k := row.(cyclesCompleted := newCycles,
                             totalSeconds := row.totalSeconds + duration,
                             status := if row.status != Finished then newStatus else row.status)];
      outcome := Done;
    }

    /** Sets the row with id `rowId` to FINISHED; if no row has it, nothing changes. */
    method MarkAsFinished(rowId: int)
      requires Valid()
      modifies this
      ensures Valid()
      ensures nextId == old(nextId)
      ensures |rows| == |old(rows)|
      ensures forall k :: 0 <= k < |rows| ==>
                rows[k] == if old(rows)[k].id == rowId then old(rows)[k].(status := Finished)
                           else old(rows)[k]
    {
      var found := FindRow(rows, rowId);
      if found.Some? {
        var k := found.value;
        rows := rows[k := rows[k].(status := Finished)];
      }
    }

    /** The history query: date, subject, cycles, seconds and status of every
        row with recorded time, newest date first, then in id order. */
    function GetAllStats(): (r: seq<StatsRow>)
      reads this
      requires Valid()
      ensures |r| == |HistoryRows(rows)|
      ensures forall k :: 0 <= k < |r| ==> r[k] == Stat(HistoryRows(rows)[k])
      ensures forall x :: x in HistoryRows(rows) <==> x in rows && x.totalSeconds > 0
      ensures forall i, j :: 0 <= i < j < |r| ==>
                r[i].studyDate >= r[j].studyDate
    {
      var h := HistoryRows(rows);
      assert forall i, j :: 0 <= i < j < |h| ==> ListedBefore(h[i], h[j]);
      seq(|h|, k requires 0 <= k < |h| => Stat(h[k]))
    }
  }
}
