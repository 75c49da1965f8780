# Study-plan state machine of the Pomodoro study app

A Dafny model of the core of a single-user desktop study tracker. The user
works through a fixed, ordered list of subjects with 25-minute Pomodoro
cycles. The program keeps one row per (day, subject) in the table
`daily_study`. The model covers:

- **`Backend`** (`backend.dfy`, from `backend.py`): the repository.
  - The table is the class `StudyRepository`. Its rows are a sequence field
    `rows`, and the AUTOINCREMENT counter is the field `nextId`.
  - Creating the day's plan, recording a cycle and finishing a subject are
    methods that update those fields in place.
  - The current-subject query and the history query are functions over the
    table.
  - The object invariant `Valid()` says three things. Ids are positive,
    strictly increasing in insertion order, and below `nextId`. A COMPLETED
    row has at least 4 cycles. A row that is not FINISHED is PENDING exactly
    when it has 0 cycles, and IN_PROGRESS exactly when it has 1 to 3.
- **`Controller`** (`controller.dfy`, from `app.py`): the class
  `StudyController`.
  - It owns the repository and caches the active subject in
    `currentSubjectData`.
  - It runs the three user events: a pomodoro completes, the user finishes
    and advances, or the user continues the same subject.
  - Its invariant says the cache is empty (before the first load) or equals
    the repository's current-subject query. So the cached id always names an
    existing row, and the controller never reaches the repository's
    unknown-id failure.
- **`Display`** (`display.dfy`, from `app.py`): the pure helpers of the window.
  - The countdown text `mm:ss` and the report's duration text
    (`"{h}h {m}m"` / `"{m} min"`), rendered as Python's `str` and `:02d`
    render integers.
  - The rule that offers the finish-or-continue decision: cached
    cycles >= 4.
  - Two reading functions are partners of the formatters and are used only in
    lemmas. `ReadClock` reads the countdown text back as seconds.
    `ReadDuration` reads the report text back as its (hours, minutes) fields.
- **`Scenarios`** (`scenarios.dfy`): sessions driven through the controller
  the way the window drives it.

Days are natural-number ordinals whose order is the order of the ISO 8601 date
text the program stores. Comparing days is therefore comparing the stored
strings. Python's `divmod` by a positive divisor agrees with Dafny's `/` and
`%`, negative operands included.

The model follows the code on these points:

- `mark_as_finished` on an id with no row changes nothing and raises nothing.
- `record_cycle` on an id with no row fails before any update.
  - In the source this happens because `fetchone()` returns `None` and is then
    indexed.
  - The model returns `NotFound` and leaves the table unchanged.
- `record_cycle` on a FINISHED row still adds to both counters and keeps the
  status FINISHED.

## Model

| member | source | states |
|---|---|---|
| `Backend.AfterCycleKeepsConsistent` | backend.py:85-95 | a recorded cycle keeps a row's status consistent with its count: COMPLETED only from 4 cycles on, IN_PROGRESS for 1 to 3, and a row that is not FINISHED is PENDING exactly at 0 cycles. A cycle never leaves a row PENDING |
| `Backend.CycledTimesCounters` | backend.py:80-95 | after n cycles of d seconds: the cycle count has grown by n and the seconds by n*d. Id, subject and date are unchanged. A FINISHED row stays FINISHED; any other row has the status its new count decides (COMPLETED from 4 on, else IN_PROGRESS) |
| `Backend.CountOn` | backend.py:47-48 | the count of rows dated `day` is 0 exactly when no row has that date |
| `Backend.FindRow` | backend.py:83-84 | the `WHERE id = ?` lookup finds a position holding that id, or reports that no row has it |
| `Backend.ActiveIndex` | backend.py:59-65 | the current-subject query picks a row dated today that is not FINISHED and whose id is no larger than any other such row's. It finds nothing exactly when there is no such row |
| `Backend.SameShapeSameIndex` | backend.py:59-65 | the query depends only on ids, dates and FINISHED marks. Two tables that agree on those pick the same row |
| `Backend.ActiveIndexStrict` | backend.py:59-65 | with distinct ids, the picked row's id is strictly below every other active row's |
| `Backend.WithTime` | backend.py:105 | the filter keeps exactly the rows with `total_seconds > 0` |
| `Backend.InsertListed` | backend.py:106 | inserting a row with a fresh id into a history ordered by date descending, then id ascending, keeps it ordered and adds exactly that row |
| `Backend.HistoryRows` | backend.py:101-107 | the history lists exactly the rows with `total_seconds > 0`, each once, ordered by date descending and then by id ascending |
| `Backend.HistoryOrderIsUnique` | backend.py:106 | that ordering determines the answer: two orderings of the same rows that both satisfy it are equal |
| `Backend.StudyRepository.Open` | backend.py:22-41 | opening a table that satisfies the invariant yields a valid repository holding exactly those rows and that counter |
| `Backend.StudyRepository.EnsureDailyPlanExists` | backend.py:43-55 | if any row is dated today, the table and counter are unchanged. Otherwise the table gains exactly the plan rows for the subjects, in order, and the counter advances by their number. Every new id is larger than every old id. The invariant is kept |
| `Backend.StudyRepository.GetCurrentSubject` | backend.py:57-78 | returns (id, name, cycles, status) of the row dated today that is not FINISHED and has the smallest id. It returns nothing exactly when no row dated today is unfinished |
| `Backend.StudyRepository.RecordCycle` | backend.py:80-95 | on an existing id: that row gets cycles+1 and seconds+duration, and status COMPLETED if the new count is at least 4, else IN_PROGRESS, unless it is FINISHED. No other row or field changes. On an unknown id: `NotFound` and the table is unchanged. The invariant is kept |
| `Backend.StudyRepository.MarkAsFinished` | backend.py:97-99 | the row with that id becomes FINISHED whatever it was. Its counters and all other rows are untouched. An unknown id changes nothing |
| `Backend.StudyRepository.GetAllStats` | backend.py:101-111 | the report is (date, subject, cycles, seconds, status) of each history row, in history order. It contains exactly the rows with recorded time, dates never increase down the list, and ties are in id order |
| `Controller.CycleKeepsSubject` | app.py:18-22 | recording a cycle on the current subject leaves it current, with one more cycle and the status the new count decides |
| `Controller.FinishAdvances` | app.py:24-27 | finishing the current subject makes the query return either nothing or a row with a strictly larger id |
| `Controller.StudyController.constructor` | app.py:9-12 | ensures today's plan from the configured subject list (created only if the day has no rows) and starts with no cached subject |
| `Controller.StudyController.LoadActiveSubject` | app.py:14-16 | the cache, and the returned value, equal the repository's current-subject query. The store is untouched |
| `Controller.StudyController.CompletePomodoro` | app.py:18-22 | with no cached subject, nothing changes. Otherwise the store records one 1500-second cycle on the cached id and nothing else. The cache is then reloaded: it equals the query and is the same subject, one cycle further on |
| `Controller.StudyController.FinishSubjectAndAdvance` | app.py:24-27 | with no cached subject, nothing changes. Otherwise the cached row alone becomes FINISHED. The reloaded cache equals the query and is either empty or a subject with a larger id |
| `Controller.StudyController.ContinueSameSubject` | app.py:29-30 | the store is unchanged, the cache equals the query, and a cached subject stays the same |
| `Controller.StudyController.GetReportData` | app.py:32-33 | the report is the repository's history query |
| `Display.Pad2ReadsBack` | app.py:66 | `:02d` of a number below 100 is exactly two digits, and those digits read back as the number |
| `Display.FormatTime` | app.py:64-66 | the countdown text is at least five characters, with the colon third from the end |
| `Display.FormatTimeReadsBack` | app.py:64-66 | for non-negative seconds, the text reads back as minutes*60 + seconds, equal to the input. The seconds field is two digits below 60. Below 100 minutes the whole text is exactly `mm:ss` |
| `Display.FormatDurationReadsBack` | app.py:68-73 | for a non-negative total, the report text reads back as the fields (total / 3600, total % 3600 / 60). The minutes field is below 60, and hours*3600 + minutes*60 is the total less its leftover seconds (under 60). The minutes-only form `"{m} min"` is used exactly below 3600 seconds |
| `Display.FormatDurationShowsHours` | app.py:71-73 | the text contains an `h` (the hours form) exactly when the total is at least 3600 seconds, i.e. when the hour count is positive |
| `Display.ShowsDecisionIffCompleted` | app.py:163-168 | on a consistent table, the rule "cached cycles >= 4" fires exactly when the current subject is COMPLETED |
| `Scenarios.FreshPlanStartsWithFirst` | app.py:9-16 | on a freshly created plan, the first subject is current, with id 1, 0 cycles and PENDING |
| `Scenarios.FourPomodoros` | app.py:18-22 | four completed pomodoros on an untouched current first row leave it with 4 cycles and COMPLETED, and leave the other rows untouched |
| `Scenarios.FourCyclesThenAdvance` | app.py:156-196 | from an empty store: after four pomodoros the first subject is cached with 4 cycles, COMPLETED and 6000 seconds, and the decision is offered. Finishing it makes the second subject, still PENDING with 0 cycles, the cached one |
| `Scenarios.FourCyclesThenContinue` | app.py:198-202 | continuing after the decision keeps the first subject. A fifth pomodoro brings it to 5 cycles and 7500 seconds, still COMPLETED |
| `Scenarios.FinishWholeDay` | app.py:110-119 | finishing subject after subject ends with no cached subject ("day complete") and every row dated today FINISHED |

## Left out

- The tkinter window is not modelled: layout, labels, buttons, dialogs, the
  report's tree view and window centring. Its one decision rule is kept as
  `Display.ShowsDecision`.
- The countdown is not modelled: `_tick`, `after`/`after_cancel`,
  `time.sleep` and `toggle_timer` are event-loop driven. The window calls
  `complete_pomodoro` once per finished countdown, and `Scenarios` does the
  same.
- SQLite plumbing is not modelled: connections, SQL text, transactions and
  `_init_db`. The table is an in-memory sequence, and storage or connection
  failures are not modelled.
- `date.today()` is a clock. "Today" is a parameter of the repository
  operations and a constant of the controller. A day that rolls over while
  the program runs is not modelled.
- Dates are day ordinals, not ISO strings. Their order is the order the
  program sorts the strings in.
- `Display.FormatDurationReadsBack`: proved for non-negative totals only. The
  report only shows rows with `total_seconds > 0`. `Display.FormatDuration`
  itself is defined for every integer, as in the source.
- `Display.FormatTimeReadsBack`: proved for non-negative seconds only. The
  window only passes the remaining countdown, which is never negative.
