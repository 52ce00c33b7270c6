/**
 * `SharedData` of the grading program whose regions are guarded by the
 * semaphores `rubric_sem`, `questions_sem` and `exam_sem`
 * (part2b_101236784_101272210.c). Each method is one guarded region, taken
 * as one atomic step; how the regions of different TAs interleave is
 * described by `Grading.Run` under the Guarded policy. The `rand()` values
 * a region consumes and the files it reads are parameters.
 */
module Synchronized {
  import opened Rubric
  import opened Questions
  import opened Grading

  // LoadRubric, LoadExam, EditRubricLine, ReviewRubric, ClaimQuestion and
  // ScanAllMarked have the same bodies as in the unguarded program, as in the C sources.
  class SharedData {
    var rubric: seq<Line>
    var marks: array<int>
    var cursor: int
    var studentId: int
    var finished: bool

    /** The record's fields as a value. */
    ghost function Snapshot(): Record
      reads this, marks
    {
      Record(rubric, marks[..], cursor, studentId, finished)
    }

    /**
     * The cursor is a valid index into the exam list unless grading has
     * finished: the transition increments it before testing it.
     */
    ghost predicate Valid()
      reads this, marks
    {
      marks.Length == MAX_QUESTIONS &&
      WellFormed(Snapshot()) && (cursor >= NUM_EXAMS ==> finished)
    }

    /** The setup in `main`: zeroed record, rubric loaded, first exam loaded. */
    constructor (rubricFile: Option<seq<Byte>>, disk: Disk)
      ensures Valid() && fresh(marks)
      ensures Snapshot() == Setup(rubricFile, disk)
    {
      rubric := [[], [], [], [], []];
      marks := new int[MAX_QUESTIONS](_ => 0);
      cursor := 0;
      studentId := 0;
      finished := false;
      new;
      assert marks[..] == NoMarks();
      LoadRubric(rubricFile);
      LoadExam(disk, EXAM_FILES[cursor]);
    }

    /** `load_rubric`: the defaults when the file is missing, else up to five normalized lines. */
    method LoadRubric(file: Option<seq<Byte>>)
      requires Valid()
      modifies this`rubric
      ensures Valid()
      ensures rubric == LoadedRubric(old(rubric), file)
    {
      if file.None? {
        rubric := rubric[0 := DefaultLine(0)];
        rubric := rubric[1 := DefaultLine(1)];
        rubric := rubric[2 := DefaultLine(2)];
        rubric := rubric[3 := DefaultLine(3)];
        rubric := rubric[4 := DefaultLine(4)];
        assert rubric == DefaultRubric();
        return;
      }
      var rest := file.value;
      ghost var read: seq<seq<Byte>> := [];
      var i := 0;
      while i < MAX_RUBRIC_LINES
        invariant 0 <= i <= MAX_RUBRIC_LINES && |read| == i
        invariant ReadChunks(file.value, MAX_RUBRIC_LINES) == read + ReadChunks(rest, MAX_RUBRIC_LINES - i)
        invariant rubric == Overlay(old(rubric), read)
      {
        var next := Fgets(rest);
        if next.None? {
          break;
        }
        var (chunk, after) := next.value;
        ReadOneMoreLine(file.value, old(rubric), read, rest, MAX_RUBRIC_LINES - i);
        rubric := rubric[i := NormalizeLine(chunk)];
        read := read + [chunk];
        rest := after;
        i := i + 1;
      }
      assert read == ReadChunks(file.value, MAX_RUBRIC_LINES) by {
        assert ReadChunks(rest, MAX_RUBRIC_LINES - i) == [];
      }
    }

    /** `load_exam`: the file's student id (-1 when unreadable) and every question unclaimed. */
    method LoadExam(disk: Disk, filename: string)
      requires Valid()
      modifies this`studentId, marks
      ensures Valid()
      ensures Snapshot() == ExamLoaded(old(Snapshot()), disk, filename)
    {
      match FileAt(disk, filename) {
        case Missing =>
          studentId := NO_STUDENT;
        case Empty =>
          studentId := NO_STUDENT;
        case FirstLine(id) =>
          studentId := id;
      }
      for i := 0 to MAX_QUESTIONS
        invariant studentId == StudentIdOf(FileAt(disk, filename))
        invariant forall j :: 0 <= j < i ==> marks[j] == 0
      {
        marks[i] := 0;
      }
      assert marks[..] == NoMarks();
    }

    /** The 20% branch for line `i`: bump the byte after the first comma, if there is one. */
    method EditRubricLine(i: nat) returns (changed: bool)
      requires Valid() && i < MAX_RUBRIC_LINES
      modifies this`rubric
      ensures Valid()
      ensures changed == Editable(old(rubric[i]))
      ensures rubric == old(rubric)[i := EditedLine(old(rubric[i]))]
      ensures !changed ==> rubric == old(rubric)
    {
      var line := rubric[i];
      var comma := FirstComma(line);
      if comma.Some? && comma.value + 1 < |line| {
        var k := comma.value + 1;
        var next := (line[k] as int + 1) % 256;
        rubric := rubric[i := if next == NUL then line[..k] else line[k := next]];
        changed := true;
      } else {
        changed := false;
      }
    }

    /**
     * The `rubric_sem` region: each line is corrected when its `rand()`
     * value comes up, and every correction rewrites `rubric.txt`; `written`
     * is what the file last received, None when it was not rewritten.
     */
    method ReviewRubric(draws: seq<nat>) returns (written: Option<seq<Byte>>)
      requires Valid() && |draws| == MAX_RUBRIC_LINES
      modifies this`rubric
      ensures Valid()
      ensures rubric == ReviewedRubric(old(rubric), draws)
      ensures written == if AnyCorrection(old(rubric), draws) then Some(SavedRubric(rubric)) else None
    {
      ghost var before := rubric;
      written := None;
      for i := 0 to MAX_RUBRIC_LINES
        invariant Valid()
        invariant rubric == ReviewedRubric(before, draws[..i])
        invariant AnyCorrection(before, draws[..i]) ==> written == Some(SavedRubric(rubric))
        invariant !AnyCorrection(before, draws[..i]) ==> written == None
      {
        ReviewOneMore(before, draws, i);
        if draws[i] % 100 < CORRECTION_PERCENT {
          var changed := EditRubricLine(i);
          if changed {
            written := Some(SavedRubric(rubric));
          }
        }
      }
      assert draws[..MAX_RUBRIC_LINES] == draws;
    }

    /**
     * The `questions_sem` claim region: the first of the ten probes that
     * hits an unclaimed slot claims it; `chosen` is `q_chosen`.
     */
    method ClaimQuestion(draws: seq<nat>) returns (chosen: int)
      requires Valid() && |draws| == CLAIM_ATTEMPTS
      modifies marks
      ensures Valid()
      ensures (Snapshot(), chosen) == ClaimStep(old(Snapshot()), draws)
    {
      ghost var m := marks[..];
      chosen := -1;
      var attempt := 0;
      while attempt < CLAIM_ATTEMPTS
        invariant 0 <= attempt <= CLAIM_ATTEMPTS
        invariant marks[..] == m
        invariant FirstFreeProbe(m, draws) == FirstFreeProbe(m, draws[attempt..])
      {
        var q := draws[attempt] % MAX_QUESTIONS;
        if marks[q] == 0 {
          assert FirstFreeProbe(m, draws) == q;
          marks[q] := 1;
          assert marks[..] == MarkSlot(m, q);
          chosen := q;
          return;
        }
        assert draws[attempt..][1..] == draws[attempt + 1..];
        attempt := attempt + 1;
      }
      assert FirstFreeProbe(m, draws) == -1;
    }

    /** The scan under `questions_sem`: whether every question of the current exam is claimed. */
    method ScanAllMarked() returns (allMarked: bool)
      requires Valid()
      ensures allMarked <==> AllMarked(marks[..])
    {
      allMarked := true;
      var i := 0;
      while i < MAX_QUESTIONS
        invariant 0 <= i <= MAX_QUESTIONS
        invariant forall j :: 0 <= j < i ==> marks[j] != 0
      {
        if marks[i] == 0 {
          allMarked := false;
          break;
        }
        i := i + 1;
      }
    }

    /**
     * The `exam_sem` region: re-check the marks, and when every question is
     * claimed stop on the sentinel student, else increment the cursor, stop
     * when it has run off the list and otherwise load the exam it points at.
     * The result says whether the TA leaves its loop.
     */
    method AdvanceExam(disk: Disk) returns (stopped: bool)
      requires Valid()
      modifies this`cursor, this`finished, this`studentId, marks
      ensures Valid()
      ensures (Snapshot(), stopped) == GuardedAdvance(old(Snapshot()), disk)
    {
      var allMarked := ScanAllMarked();
      stopped := false;
      if allMarked {
        var currentStudent := studentId;
        if currentStudent == SENTINEL_STUDENT {
          finished := true;
          return true;
        }
        cursor := cursor + 1;
        if cursor >= NUM_EXAMS {
          finished := true;
          return true;
        }
        LoadExam(disk, EXAM_FILES[cursor]);
      }
    }

    /**
     * The completion check: a first scan, then the `exam_sem` region when it
     * saw every question claimed. Taken as one step, the first scan adds
     * nothing to the re-check inside the region.
     */
    method CheckExamDone(disk: Disk) returns (stopped: bool)
      requires Valid()
      modifies this`cursor, this`finished, this`studentId, marks
      ensures Valid()
      ensures (Snapshot(), stopped) == GuardedAdvance(old(Snapshot()), disk)
    {
      var allMarked := ScanAllMarked();
      stopped := false;
      if allMarked {
        stopped := AdvanceExam(disk);
      }
    }

    /**
     * One pass of the body of a TA's `while (!finished)` loop: the rubric
     * region, the claim region and the completion check, in that order.
     * It is the run of the three atomic steps with the same `rand()` values.
     */
    method Turn(reviewDraws: seq<nat>, claimDraws: seq<nat>, disk: Disk)
      returns (written: Option<seq<Byte>>, chosen: int, stopped: bool)
      requires Valid() && |reviewDraws| == MAX_RUBRIC_LINES && |claimDraws| == CLAIM_ATTEMPTS
      modifies this`rubric, this`cursor, this`finished, this`studentId, marks
      ensures Valid()
      ensures Snapshot() == Run(Guarded, old(Snapshot()), [Review(reviewDraws), Claim(claimDraws), Advance], disk)
      ensures written ==
        if AnyCorrection(old(rubric), reviewDraws) then Some(SavedRubric(ReviewedRubric(old(rubric), reviewDraws))) else None
      ensures var claimed := ClaimStep(ReviewStep(old(Snapshot()), reviewDraws), claimDraws);
        chosen == claimed.1 && stopped == GuardedAdvance(claimed.0, disk).1
    {
      ghost var s0 := Snapshot();
      written := ReviewRubric(reviewDraws);
      ghost var s1 := Snapshot();
      chosen := ClaimQuestion(claimDraws);
      ghost var s2 := Snapshot();
      stopped := CheckExamDone(disk);
      assert s1 == Next(Guarded, s0, Review(reviewDraws), disk);
      assert s2 == Next(Guarded, s1, Claim(claimDraws), disk);
      assert Snapshot() == Next(Guarded, s2, Advance, disk);
      var steps := [Review(reviewDraws), Claim(claimDraws), Advance];
      assert steps[1..] == [Claim(claimDraws), Advance] && steps[2..] == [Advance];
      assert Run(Guarded, s2, [Advance], disk) == Snapshot();
      assert Run(Guarded, s1, steps[1..], disk) == Snapshot();
    }
  }
}
