/**
 * The shared record of the exam-grading TAs as a value, and the meaning of
 * every step a TA takes on it. Both programs share this: the one without
 * locks (`part2a`) and the one whose regions are guarded by semaphores
 * (`part2b`). They differ only in how the exam cursor moves on, which is
 * why the step relation is parameterized by a Policy.
 *
 * A run is any sequence of the atomic steps, taken by any TAs in any order.
 * The lemmas at the end hold for every such run.
 */
module Grading {
  import opened Rubric
  import opened Questions

  /** Grading stops once this student's exam is completely marked. */
  const SENTINEL_STUDENT: int := 9999
  /** The student id recorded when an exam file cannot be read. */
  const NO_STUDENT: int := -1

  /** The fixed list of exam files; the last one holds the sentinel student. */
  const EXAM_FILES: seq<string> := [
    "exams/0001", "exams/0002", "exams/0003", "exams/0004", "exams/0005", "exams/0010", "exams/0015",
    "exams/0020", "exams/0025", "exams/0030", "exams/0100", "exams/0200", "exams/0300", "exams/0500",
    "exams/1000", "exams/1500", "exams/2000", "exams/3000", "exams/5000", "exams/7000", "exams/8000",
    "exams/8500", "exams/9000", "exams/9500",
    "exams/9999"
  ]
  const NUM_EXAMS: nat := |EXAM_FILES|

  // ---------------------------------------------------------------------
  // random_delay
  // ---------------------------------------------------------------------

  /**
   * `random_delay(min_ms, max_ms)` for the value `r` that `rand()` returned:
   * a whole number of milliseconds in [min_ms, max_ms], in microseconds.
   * `rand()` is never negative, so C's truncating `%` agrees with Dafny's.
   */
  function RandomDelay(r: int, minMs: int, maxMs: int): (us: int)
    requires 0 <= r && minMs <= maxMs
    ensures minMs * 1000 <= us <= maxMs * 1000
    ensures us % 1000 == 0
  {
    (r % (maxMs - minMs + 1) + minMs) * 1000
  }

  /** Every whole millisecond in the range is the delay for some `rand()` value. */
  lemma RandomDelayCoversRange(minMs: int, maxMs: int, ms: int)
    requires minMs <= ms <= maxMs
    ensures exists r :: 0 <= r && RandomDelay(r, minMs, maxMs) == ms * 1000
  {
    var r := ms - minMs;
    assert r % (maxMs - minMs + 1) == r;
    assert RandomDelay(r, minMs, maxMs) == ms * 1000;
  }

  // ---------------------------------------------------------------------
  // Exam files
  // ---------------------------------------------------------------------

  /** What `fopen`, `fgets` and `atoi` make of one exam file. */
  datatype ExamFile =
    | Missing            // fopen fails
    | Empty              // the first fgets finds nothing
    | FirstLine(id: int) // atoi of the first line, its line end stripped

  /** The exam files as they are on disk; a name not in the map cannot be opened. */
  type Disk = map<string, ExamFile>

  function FileAt(disk: Disk, name: string): ExamFile {
    if name in disk then disk[name] else Missing
  }

  /** The student id `load_exam` records. */
  function StudentIdOf(f: ExamFile): int {
    match f
    case FirstLine(id) => id
    case Missing => NO_STUDENT
    case Empty => NO_STUDENT
  }

  // ---------------------------------------------------------------------
  // The shared record and its steps
  // ---------------------------------------------------------------------

  /** The data fields of `SharedData`; `finished` is C's 0/1 flag. */
  datatype Record = Record(
    rubric: seq<Line>,
    marks: seq<int>,
    cursor: int,
    studentId: int,
    finished: bool)

  /** The shapes every reachable record has, in both programs. */
  predicate WellFormed(s: Record) {
    WellFormedRubric(s.rubric) && |s.marks| == MAX_QUESTIONS && 0 <= s.cursor
  }

  /** `load_exam(data, name)`: a new student id, every question unclaimed. */
  function ExamLoaded(s: Record, disk: Disk, name: string): (r: Record)
    ensures r.rubric == s.rubric && r.cursor == s.cursor && r.finished == s.finished
    ensures AllUnmarked(r.marks)
    ensures FileAt(disk, name).FirstLine? ==> r.studentId == FileAt(disk, name).id
    ensures !FileAt(disk, name).FirstLine? ==> r.studentId == NO_STUDENT
    ensures WellFormed(s) ==> WellFormed(r)
  {
    s.(studentId := StudentIdOf(FileAt(disk, name)), marks := NoMarks())
  }

  /**
   * The record `main` sets up before it forks any TA: zeroed memory, cursor
   * 0, not finished, then `load_rubric` and `load_exam` of the first exam.
   */
  function Setup(file: Option<seq<Byte>>, disk: Disk): (s: Record)
    ensures WellFormed(s) && s.cursor == 0 && !s.finished
    ensures AllUnmarked(s.marks) && s.studentId == StudentIdOf(FileAt(disk, EXAM_FILES[0]))
    ensures file.None? ==> s.rubric == DefaultRubric()
    ensures file == Some([]) ==> s.rubric == [[], [], [], [], []]
  {
    var zeroed := Record([[], [], [], [], []], NoMarks(), 0, 0, false);
    ExamLoaded(zeroed.(rubric := LoadedRubric(zeroed.rubric, file)), disk, EXAM_FILES[0])
  }

  predicate AllUnmarked(m: seq<int>) {
    |m| == MAX_QUESTIONS && forall i :: 0 <= i < |m| ==> m[i] == 0
  }

  /** The rubric region: one pass of corrections over the five lines. */
  function ReviewStep(s: Record, draws: seq<nat>): Record
    requires WellFormed(s)
  {
    s.(rubric := ReviewedRubric(s.rubric, draws))
  }

  /** The claim region: the marks after the probes, and the slot claimed (-1 for none). */
  function ClaimStep(s: Record, draws: seq<nat>): (Record, int)
    requires WellFormed(s)
  {
    var q := FirstFreeProbe(s.marks, draws);
    (s.(marks := MarkSlot(s.marks, q)), q)
  }

  /**
   * The synchronized program's exam transition, run under `exam_sem` after
   * the re-check: nothing unless every question is claimed; then stop on
   * the sentinel student; else move the cursor on by one, and stop if it
   * has run off the list or load the exam it now points at. The flag says
   * whether the TA leaves its loop.
   */
  function GuardedAdvance(s: Record, disk: Disk): (r: (Record, bool))
    requires WellFormed(s)
    ensures WellFormed(r.0) && r.0.rubric == s.rubric
    ensures !AllMarked(s.marks) ==> r == (s, false)
    ensures r.0.cursor == s.cursor || r.0.cursor == s.cursor + 1
    ensures r.0.cursor == s.cursor + 1 <==> AllMarked(s.marks) && s.studentId != SENTINEL_STUDENT
    ensures r.1 <==> AllMarked(s.marks) && (s.studentId == SENTINEL_STUDENT || s.cursor + 1 >= NUM_EXAMS)
    ensures r.0.finished <==> s.finished || r.1
    ensures r.0.cursor == s.cursor + 1 && !r.1 ==>
      r.0.cursor < NUM_EXAMS && AllUnmarked(r.0.marks) &&
      r.0.studentId == StudentIdOf(FileAt(disk, EXAM_FILES[r.0.cursor]))
    ensures r.0.cursor == s.cursor || r.1 ==> r.0.marks == s.marks && r.0.studentId == s.studentId
  {
    if !AllMarked(s.marks) then (s, false)
    else if s.studentId == SENTINEL_STUDENT then (s.(finished := true), true)
    else
      var c := s.cursor + 1;
      if c >= NUM_EXAMS then (s.(cursor := c, finished := true), true)
      else (ExamLoaded(s.(cursor := c), disk, EXAM_FILES[c]), false)
  }

  /**
   * The unsynchronized program's exam transition, run by a TA whose scan
   * saw every question claimed (the marks may have changed since): stop on
   * the sentinel student; else compute the next index, stop if it is off the
   * list, and only otherwise move the cursor there and load that exam.
   */
  function UnguardedAdvance(s: Record, disk: Disk): (r: (Record, bool))
    requires WellFormed(s)
    ensures WellFormed(r.0) && r.0.rubric == s.rubric
    ensures r.0.cursor == s.cursor || r.0.cursor == s.cursor + 1
    ensures r.0.cursor == s.cursor + 1 <==> s.studentId != SENTINEL_STUDENT && s.cursor + 1 < NUM_EXAMS
    ensures s.cursor < NUM_EXAMS ==> r.0.cursor < NUM_EXAMS
    ensures r.1 <==> s.studentId == SENTINEL_STUDENT || s.cursor + 1 >= NUM_EXAMS
    ensures r.0.finished <==> s.finished || r.1
    ensures !r.1 ==>
      AllUnmarked(r.0.marks) && r.0.studentId == StudentIdOf(FileAt(disk, EXAM_FILES[r.0.cursor]))
    ensures r.1 ==> r.0.marks == s.marks && r.0.studentId == s.studentId
  {
    if s.studentId == SENTINEL_STUDENT then (s.(finished := true), true)
    else
      var next := s.cursor + 1;
      if next >= NUM_EXAMS then (s.(finished := true), true)
      else (ExamLoaded(s.(cursor := next), disk, EXAM_FILES[next]), false)
  }

  // ---------------------------------------------------------------------
  // Runs: any interleaving of the atomic steps
  // ---------------------------------------------------------------------

  /** Which program's exam transition a run uses. */
  datatype Policy = Unguarded | Guarded

  /**
   * One atomic step by some TA: a rubric pass with its `rand()` values, a
   * claim with its probe values, or an exam transition.
   */
  datatype Step =
    | Review(reviewDraws: seq<nat>)
    | Claim(claimDraws: seq<nat>)
    | Advance

  /**
   * One step. Only an exam transition moves the cursor, by one at a time,
   * and only it sets `finished`: on the sentinel student or at the end of
   * the list, and under the guarded policy only with every question claimed.
   */
  function Next(p: Policy, s: Record, step: Step, disk: Disk): (t: Record)
    requires WellFormed(s)
    ensures WellFormed(t)
    ensures t.cursor == s.cursor || (step.Advance? && t.cursor == s.cursor + 1)
    ensures s.finished ==> t.finished
    ensures !s.finished && t.finished ==>
      step.Advance? && (s.studentId == SENTINEL_STUDENT || s.cursor + 1 >= NUM_EXAMS) &&
      (p == Guarded ==> AllMarked(s.marks))
  {
    match step
    case Review(draws) =>
      ReviewKeepsQuestionNumbers(s.rubric, draws);
      ReviewStep(s, draws)
    case Claim(draws) => ClaimStep(s, draws).0
    case Advance =>
      match p
      case Guarded => GuardedAdvance(s, disk).0
      case Unguarded => UnguardedAdvance(s, disk).0
  }

  /** The record after the steps, taken in order. */
  function Run(p: Policy, s: Record, steps: seq<Step>, disk: Disk): Record
    requires WellFormed(s)
    decreases |steps|
  {
    if steps == [] then s else Run(p, Next(p, s, steps[0], disk), steps[1..], disk)
  }

  /** Without locks the cursor always indexes the exam list, whatever the interleaving. */
  lemma {:induction false} UnguardedCursorStaysInRange(s: Record, steps: seq<Step>, disk: Disk)
    requires WellFormed(s) && s.cursor < NUM_EXAMS
    ensures 0 <= Run(Unguarded, s, steps, disk).cursor < NUM_EXAMS
    decreases |steps|
  {
    if steps != [] {
      UnguardedCursorStaysInRange(Next(Unguarded, s, steps[0], disk), steps[1..], disk);
    }
  }

  /**
   * With the semaphores the cursor may pass the end of the list, but only
   * once `finished` is set.
   */
  lemma {:induction false} GuardedCursorPastEndOnlyWhenFinished(s: Record, steps: seq<Step>, disk: Disk)
    requires WellFormed(s) && (s.cursor >= NUM_EXAMS ==> s.finished)
    ensures var t := Run(Guarded, s, steps, disk); t.cursor >= NUM_EXAMS ==> t.finished
    decreases |steps|
  {
    if steps != [] {
      GuardedCursorPastEndOnlyWhenFinished(Next(Guarded, s, steps[0], disk), steps[1..], disk);
    }
  }

  /** The cursor never goes back, and it grows by at most one per step. */
  lemma {:induction false} RunCursorNeverDecreases(p: Policy, s: Record, steps: seq<Step>, disk: Disk)
    requires WellFormed(s)
    ensures s.cursor <= Run(p, s, steps, disk).cursor <= s.cursor + |steps|
    decreases |steps|
  {
    if steps != [] {
      RunCursorNeverDecreases(p, Next(p, s, steps[0], disk), steps[1..], disk);
    }
  }

  /** Once set, `finished` stays set. */
  lemma {:induction false} RunNeverClearsFinished(p: Policy, s: Record, steps: seq<Step>, disk: Disk)
    requires WellFormed(s) && s.finished
    ensures Run(p, s, steps, disk).finished
    decreases |steps|
  {
    if steps != [] {
      RunNeverClearsFinished(p, Next(p, s, steps[0], disk), steps[1..], disk);
    }
  }

  /**
   * However the TAs interleave, the rubric keeps five well-formed lines and
   * no line's question number or the comma after it ever changes.
   */
  lemma {:induction false} RunKeepsQuestionNumbers(p: Policy, s: Record, steps: seq<Step>, disk: Disk)
    requires WellFormed(s)
    ensures var t := Run(p, s, steps, disk);
      WellFormedRubric(t.rubric) &&
      forall i :: 0 <= i < MAX_RUBRIC_LINES ==> QuestionPart(t.rubric[i]) == QuestionPart(s.rubric[i])
    decreases |steps|
  {
    if steps != [] {
      var s' := Next(p, s, steps[0], disk);
      if steps[0].Review? {
        ReviewKeepsQuestionNumbers(s.rubric, steps[0].reviewDraws);
      }
      RunKeepsQuestionNumbers(p, s', steps[1..], disk);
    }
  }

  /** All questions of the last exam claimed, its file unreadable, the cursor on it. */
  function LastExamUnreadable(): Record {
    Record(DefaultRubric(), [1, 1, 1, 1, 1], NUM_EXAMS - 1, NO_STUDENT, false)
  }

  /**
   * Two TAs that both reach the exam transition once the list is exhausted:
   * with the semaphores the cursor ends two past the last exam; without
   * them it stays on the last exam.
   */
  lemma GuardedCursorCanPassEnd()
    ensures Run(Guarded, LastExamUnreadable(), [Advance, Advance], map[]).cursor == NUM_EXAMS + 1
    ensures Run(Unguarded, LastExamUnreadable(), [Advance, Advance], map[]).cursor == NUM_EXAMS - 1
  {
  }
}
