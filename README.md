# Exam-grading TAs: the shared record as a verified state machine

Two C programs let several TA processes grade a stack of exams together
through one shared `SharedData` record. That record holds five rubric
lines such as `"1,A"`, a five-slot `questions_marked` array,
`current_exam_index` into a fixed list of 25 exam files (the last one,
`exams/9999`, holds the sentinel student 9999), the current `student_id`
and a `finished` flag. In each turn of its loop a TA:

- reviews the rubric and sometimes bumps the grade letter after a line's
  first comma, rewriting `rubric.txt` each time;
- claims an unmarked question with up to ten random probes;
- checks whether every question is claimed, and if so moves on to the next
  exam, or stops on student 9999 or at the end of the list.

`part2b_101236784_101272210.c` guards these regions with the semaphores
`rubric_sem`, `questions_sem` and `exam_sem`.
`part2a_101236784_101272210.c` runs the same bodies unguarded.

The project has five modules:

- `Rubric` (rubric.dfy): rubric lines as C strings, which are byte
  sequences of at most 19 bytes without NUL. It covers how `load_rubric`
  reads them through `fgets`, `strcspn` and `strncpy`, what `save_rubric`
  writes, and how a correction changes a line. The C `char` increment wraps
  modulo 256, so a 0xFF grade byte becomes NUL and the string then ends
  right after the comma.
- `Questions` (questions.dfy): the marks array, the ten-probe claim and the
  completeness test.
- `Grading` (grading.dfy): the constants, the exam list, `random_delay`,
  the record as a value (`Record`) and every atomic step as a function.
  - The two exam transitions are `GuardedAdvance` (part2b: increment, then
    test) and `UnguardedAdvance` (part2a: test `next_idx`, then assign).
  - `Next` and `Run` describe any interleaving of the atomic steps of any
    number of TAs. The lemmas about `Run` hold for every such interleaving.
- `Unsynchronized` and `Synchronized` (unsynchronized.dfy, synchronized.dfy):
  the `SharedData` class of each program.
  - Fields are updated in place, and the marks are an `array<int>`.
  - Each method is one region of the TA loop, proved equal to the
    corresponding `Grading` step on the record's snapshot.
  - `Turn` is one whole pass of the loop body, proved equal to a `Run` of
    the steps it takes.

The `rand()` results, the rubric file's bytes (None when it cannot be
opened) and the exam files' contents (`Disk`) are parameters. An exam file is
`Missing`, `Empty`, or `FirstLine(id)` with `id` the `atoi` of its first
line.

## Model

| member | source | states |
|---|---|---|
| Grading.RandomDelay | part2b_101236784_101272210.c:28-30 | for a non-negative `rand()` value and `min <= max` the delay lies in `[min*1000, max*1000]` and is a whole number of milliseconds |
| Grading.RandomDelayCoversRange | part2a_101236784_101272210.c:22-24 | every whole millisecond in `[min, max]` is the delay for some `rand()` value |
| Grading.Setup | part2a_101236784_101272210.c:241-256 | after `main`'s setup the cursor is 0, `finished` is clear, every question is unclaimed and the student id is that of `exams/0001`; the rubric is `"1,A"`…`"5,E"` when `rubric.txt` is missing, and stays the zeroed empty lines when the file is empty |
| Grading.GuardedAdvance | part2b_101236784_101272210.c:196-236 | with a question unclaimed, nothing changes. On student 9999 only `finished` is set. Otherwise the cursor grows by exactly one: when it reaches `NUM_EXAMS`, `finished` is set and marks and id stay; else that exam is loaded. The flag says whether the TA leaves its loop |
| Grading.UnguardedAdvance | part2a_101236784_101272210.c:174-204 | on student 9999, or when `next_idx` is off the list, only `finished` is set and the cursor stays; otherwise the cursor becomes `next_idx`, which stays below `NUM_EXAMS`, and that exam is loaded with every mark reset |
| Grading.Next | part2b_101236784_101272210.c:117-240 | one atomic step keeps the record well formed, moves the cursor by at most one and only in an exam transition, never clears `finished`, and sets it only in a transition on the sentinel or at the end of the list (under the semaphores, only with every question claimed) |
| Grading.ExamLoaded | part2b_101236784_101272210.c:88-107 | `load_exam` changes only the student id and the marks: every mark becomes 0, the id is the first line's number, or -1 when the file is missing or empty |
| Grading.UnguardedCursorStaysInRange | part2a_101236784_101272210.c:189-204 | without locks, under every interleaving of steps, `0 <= current_exam_index < NUM_EXAMS` |
| Grading.GuardedCursorPastEndOnlyWhenFinished | part2b_101236784_101272210.c:222-228 | with the semaphores the cursor may reach `NUM_EXAMS` or beyond, but only when `finished` is set |
| Grading.GuardedCursorCanPassEnd | part2b_101236784_101272210.c:222-228 | two TAs finishing the last exam (its file unreadable) leave the part2b cursor at `NUM_EXAMS + 1`; the part2a cursor stays at `NUM_EXAMS - 1` |
| Grading.RunCursorNeverDecreases | part2b_101236784_101272210.c:222-223 | over any run the cursor never decreases and grows by at most one per step |
| Grading.RunNeverClearsFinished | part2b_101236784_101272210.c:217-225 | once `finished` is set, every later step keeps it set |
| Grading.RunKeepsQuestionNumbers | part2b_101236784_101272210.c:121-147 | over any run the rubric keeps five well-formed lines, and no line's question number or first comma ever changes |
| Questions.FirstFreeProbe | part2b_101236784_101272210.c:154-162 | the slot claimed is -1 or a valid slot that was 0 |
| Questions.FirstFreeProbeIsFirst | part2b_101236784_101272210.c:154-162 | the claim finds nothing exactly when every probe hits a claimed slot; otherwise the slot claimed is that of a probe all of whose predecessors hit claimed slots |
| Questions.ClaimFlipsOneSlot | part2a_101236784_101272210.c:143-163 | a claim flips at most one slot, from 0 to 1, the one returned; no other slot changes, and a claimed slot is never altered |
| Questions.ClaimOnFullExam | part2b_101236784_101272210.c:154-162 | when every question is claimed, a claim finds nothing and changes nothing |
| Rubric.SpanToLineEnd | part2b_101236784_101272210.c:62 | `strcspn` stops at the first CR, LF or NUL and no earlier |
| Rubric.NormalizeLine | part2b_101236784_101272210.c:62-64 | a line read is a prefix of its chunk, holds no CR/LF/NUL, and fits its slot. It stops only at 19 bytes, at the chunk's end or at a line end |
| Rubric.FgetsLength | part2b_101236784_101272210.c:59-61 | one `fgets` call takes at most 63 bytes, and at least one byte from a non-empty file |
| Rubric.FgetsTakesOneLine | part2b_101236784_101272210.c:61 | `fgets` takes no LF but its last byte, and stops early only at end of file or at 63 bytes |
| Rubric.Fgets | part2b_101236784_101272210.c:61 | `fgets` fails exactly at end of file; otherwise it splits off a non-empty chunk of at most 63 bytes |
| Rubric.ReadChunks | part2b_101236784_101272210.c:60-65 | the loop reads at most five chunks |
| Rubric.LoadedRubric | part2b_101236784_101272210.c:46-68 | a missing file yields exactly `"1,A"`…`"5,E"`, an empty file changes nothing, and the result is always five well-formed lines |
| Rubric.LoadedLinesComeFromFile | part2b_101236784_101272210.c:60-65 | from a file that opens, rubric line `i` is the normalization of the `i`-th chunk `fgets` read, and lines beyond the last chunk keep their old text |
| Rubric.FgetsSavedLine | part2b_101236784_101272210.c:71-83 | on saved text one `fgets` call takes exactly one saved line and its newline |
| Rubric.ChunksOfSaved | part2b_101236784_101272210.c:78-80 | reading back what `save_rubric` wrote yields one chunk per line: the line and its newline |
| Rubric.SavedRubric | part2b_101236784_101272210.c:71-83 | `save_rubric` writes each line followed by a newline: the text is empty only for no lines and otherwise ends in LF; `Rubric.SaveThenLoad` reads it back exactly |
| Rubric.SaveThenLoad | part2b_101236784_101272210.c:71-83 | `load_rubric` after `save_rubric` restores exactly the saved rubric, whatever the record held before, when no line holds CR, LF or NUL |
| Rubric.FirstComma | part2b_101236784_101272210.c:130 | `strchr(line, ',')` finds the first comma, or reports that there is none |
| Rubric.EditedLine | part2b_101236784_101272210.c:130-134 | a corrected line is still a valid C string of at most 19 bytes |
| Rubric.EditKeepsQuestionPart | part2b_101236784_101272210.c:129-141 | a correction changes only the byte right after the first comma. It adds one to it, keeping the length and every other byte; a 0xFF byte wraps to NUL and cuts the line there. The question number and comma are kept, and a line with no byte after its comma is unchanged |
| Rubric.ReviewOneMore | part2a_101236784_101272210.c:121-140 | the pass over line `i` corrects exactly that line when its coin comes up, and the file is rewritten exactly when some line was corrected |
| Rubric.ReviewedRubric | part2a_101236784_101272210.c:121-140 | one review pass keeps the number of lines, and line i changes exactly when its coin comes up (`rand() % 100 < 20`) and the line has a byte after its first comma |
| Rubric.ReviewKeepsQuestionNumbers | part2b_101236784_101272210.c:123-143 | a review pass keeps five well-formed lines and every question number; without a correction it changes nothing |
| Unsynchronized.SharedData.constructor | part2a_101236784_101272210.c:241-256 | the class starts in the state `Setup` describes |
| Unsynchronized.SharedData.LoadRubric | part2a_101236784_101272210.c:40-65 | the loop over `fgets` leaves the rubric equal to `LoadedRubric` of the old rubric and the file |
| Unsynchronized.SharedData.LoadExam | part2a_101236784_101272210.c:86-106 | the student id is read (-1 if the file is missing or empty) and every mark reset; no other field changes |
| Unsynchronized.SharedData.EditRubricLine | part2a_101236784_101272210.c:126-139 | only line `i` changes, and it becomes its corrected form; the result says whether it was editable, and when not nothing changes |
| Unsynchronized.SharedData.ReviewRubric | part2a_101236784_101272210.c:121-140 | the rubric becomes the reviewed rubric for the coin flips; the file last written is the new rubric's saved text exactly when some line was corrected, and nothing is written otherwise |
| Unsynchronized.SharedData.ClaimQuestion | part2a_101236784_101272210.c:143-163 | the probe loop marks, and returns, the slot `FirstFreeProbe` picks; nothing else changes |
| Unsynchronized.SharedData.ScanAllMarked | part2a_101236784_101272210.c:166-172 | `all_marked` is set exactly when every slot is nonzero |
| Unsynchronized.SharedData.NextExam | part2a_101236784_101272210.c:181-204 | the record changes exactly as `UnguardedAdvance` says, and the cursor stays a valid index |
| Unsynchronized.SharedData.CheckExamDone | part2a_101236784_101272210.c:165-205 | with every question claimed the transition runs; otherwise nothing changes |
| Unsynchronized.SharedData.Turn | part2a_101236784_101272210.c:116-209 | one pass of the loop body is the run of a review step, a claim step and, when the scan saw every question claimed, a transition step; `rubric.txt` last receives the reviewed rubric exactly when some line was corrected |
| Synchronized.SharedData.constructor | part2b_101236784_101272210.c:272-289 | the class starts in the state `Setup` describes |
| Synchronized.SharedData.LoadRubric | part2b_101236784_101272210.c:46-68 | the loop over `fgets` leaves the rubric equal to `LoadedRubric` of the old rubric and the file |
| Synchronized.SharedData.LoadExam | part2b_101236784_101272210.c:88-107 | the student id is read (-1 if the file is missing or empty) and every mark reset; no other field changes |
| Synchronized.SharedData.EditRubricLine | part2b_101236784_101272210.c:129-141 | only line `i` changes, and it becomes its corrected form; the result says whether it was editable, and when not nothing changes |
| Synchronized.SharedData.ReviewRubric | part2b_101236784_101272210.c:121-147 | the `rubric_sem` region leaves the reviewed rubric; the file last written is its saved text exactly when some line was corrected |
| Synchronized.SharedData.ClaimQuestion | part2b_101236784_101272210.c:151-163 | the `questions_sem` region marks the slot `FirstFreeProbe` picks and returns it as `q_chosen`; nothing else changes |
| Synchronized.SharedData.ScanAllMarked | part2b_101236784_101272210.c:181-189 | the scan (and the identical re-check at 196-204) yields 1 exactly when every slot is nonzero |
| Synchronized.SharedData.AdvanceExam | part2b_101236784_101272210.c:193-236 | the `exam_sem` region, re-check included, changes the record exactly as `GuardedAdvance` says |
| Synchronized.SharedData.CheckExamDone | part2b_101236784_101272210.c:181-237 | the first scan followed by the `exam_sem` region has the same effect as `GuardedAdvance` alone |
| Synchronized.SharedData.Turn | part2b_101236784_101272210.c:117-240 | one pass of the loop body is the run of a review step, a claim step and a transition step; `rubric.txt` last receives the reviewed rubric exactly when some line was corrected |

## Left out

- Concurrency is not modelled: `fork`, `waitpid`, the `mmap` shared
  mapping, the semaphores and the `while (!finished)` polling. A guarded
  region of part2b is one atomic step.
  - part2a's stretches are also taken as atomic steps. The races inside
    them, such as lost updates to one mark or two TAs assigning the same
    `next_idx`, are not modelled.
  - `Grading.RunCursorNeverDecreases` and `Grading.UnguardedCursorStaysInRange`
    hold only for atomic stretches. In part2a a TA can read
    `current_exam_index` (part2a_101236784_101272210.c:190), be preempted
    while others advance it, then write its stale `next_idx` (line 196).
    The real cursor then goes back and an exam is loaded again.
  - What part2a does capture is acting on a stale scan: its transition has
    no re-check.
- `part2b_deadlock.c` and `part2b_livelock.c` are not part of this model.
  Their behaviour is lock ordering and yielding between processes.
- `rand`, `srand`, `time` and `usleep` are not modelled. The `rand()`
  results are parameters, and the sleeps are dropped.
- Grading.RandomDelay: does not model the 32-bit overflow of
  `(r % n + min) * 1000` for very large arguments, because Dafny integers
  are unbounded.
- `printf` and `fflush` logging, the command-line checks in `main`, and the
  cleanup after the TAs exit are not modelled.
- File I/O is replaced by values: the rubric file is its bytes, and an exam
  file is its parsed first line.
  - `atoi` is not re-specified. `FirstLine(id)` carries its result.
  - A read error part-way through a file is not modelled.
  - `save_rubric`'s `fopen` failure is not modelled: its output is the bytes
    written.
- Unsynchronized.SharedData.NextExam: the "safety check" at
  part2a_101236784_101272210.c:199 is always true at that point (the cursor
  was just set to a `next_idx` below `NUM_EXAMS`), so the model omits it.
- Unsynchronized.SharedData.ClaimQuestion: part2a has no `q_chosen`
  variable. The method returns the claimed slot as part2b does, and marks
  it the same way.
- The exam-file name lookup (`Disk`) is exact string matching. Paths and
  the working directory are not modelled.
