/**
 * The five rubric lines of the shared record, as the C strings they are
 * (`char rubric[5][20]`): how they are read from `rubric.txt`, written back
 * to it, and corrected one grade letter at a time.
 */
module Rubric {

  /** A C `char`, seen as the unsigned byte it is stored as. */
  type Byte = b: int | 0 <= b < 256

  /** The text of a NUL-terminated C string, without its terminator. */
  type Line = seq<Byte>

  const NUL: Byte := 0
  const LF: Byte := 10
  const CR: Byte := 13
  const COMMA: Byte := 44

  const MAX_RUBRIC_LINES: nat := 5
  /** A line lives in a `char[20]`: at most 19 bytes of text before the NUL. */
  const LINE_CAPACITY: nat := 19
  /** `fgets` into `char line[64]` takes at most 63 bytes per call. */
  const FGETS_LIMIT: nat := 63
  /** `rand() % 100 < 20`: the chance, in percent, that a TA corrects a line. */
  const CORRECTION_PERCENT: nat := 20

  datatype Option<T> = None | Some(value: T)

  /** A line that fits its `char[20]` slot and holds no terminator. */
  predicate CString(l: Line) {
    |l| <= LINE_CAPACITY && NUL !in l
  }

  /** A rubric as the shared record holds it: five well-formed lines. */
  predicate WellFormedRubric(r: seq<Line>) {
    |r| == MAX_RUBRIC_LINES && forall i :: 0 <= i < |r| ==> CString(r[i])
  }

  // ---------------------------------------------------------------------
  // Loading: `load_rubric`
  // ---------------------------------------------------------------------

  /** The default line for question `n + 1`: "1,A", "2,B", ..., "5,E". */
  function DefaultLine(n: nat): Line
    requires n < MAX_RUBRIC_LINES
  {
    ['1' as int + n, COMMA, 'A' as int + n]
  }

  function DefaultRubric(): seq<Line> {
    [DefaultLine(0), DefaultLine(1), DefaultLine(2), DefaultLine(3), DefaultLine(4)]
  }

  /** The bytes at which `strcspn(line, "\r\n")` stops, the terminator included. */
  predicate IsLineEnd(b: Byte) {
    b == CR || b == LF || b == NUL
  }

  /** `strcspn(chunk, "\r\n")` on the C string in `chunk`. */
  function SpanToLineEnd(chunk: seq<Byte>): (n: nat)
    ensures n <= |chunk|
    ensures forall i :: 0 <= i < n ==> !IsLineEnd(chunk[i])
    ensures n < |chunk| ==> IsLineEnd(chunk[n])
  {
    if chunk == [] || IsLineEnd(chunk[0]) then 0 else 1 + SpanToLineEnd(chunk[1..])
  }

  /**
   * What one chunk read by `fgets` becomes in the rubric: cut at the first
   * CR, LF or NUL, then copied by `strncpy` into 19 bytes, the 20th being
   * forced to NUL.
   */
  function NormalizeLine(chunk: seq<Byte>): (l: Line)
    ensures CString(l)
    ensures |l| <= |chunk| && l == chunk[..|l|]
    ensures forall i :: 0 <= i < |l| ==> !IsLineEnd(l[i])
    ensures |l| == LINE_CAPACITY || |l| == |chunk| || IsLineEnd(chunk[|l|])
  {
    var n := SpanToLineEnd(chunk);
    if n <= LINE_CAPACITY then chunk[..n] else chunk[..LINE_CAPACITY]
  }

  /** How many bytes one `fgets` call takes: through the first LF, at most `limit`. */
  function FgetsLength(s: seq<Byte>, limit: nat): (n: nat)
    ensures n <= |s| && n <= limit
    ensures s != [] && limit > 0 ==> n > 0
  {
    if s == [] || limit == 0 then 0
    else if s[0] == LF then 1
    else 1 + FgetsLength(s[1..], limit - 1)
  }

  /**
   * `fgets` stops right after the first LF: the bytes it takes hold no LF
   * but the last, and it stops early only at end of file or at the limit.
   */
  lemma {:induction false} FgetsTakesOneLine(s: seq<Byte>, limit: nat)
    ensures var n := FgetsLength(s, limit);
      (forall i :: 0 <= i < n - 1 ==> s[i] != LF) &&
      (n == |s| || n == limit || s[n - 1] == LF)
  {
    if s != [] && limit > 0 && s[0] != LF {
      FgetsTakesOneLine(s[1..], limit - 1);
      var n := FgetsLength(s, limit);
      assert forall i :: 1 <= i < n - 1 ==> s[i] == s[1..][i - 1];
    }
  }

  /** One `fgets(line, 64, f)`: None at end of file, else the chunk read and the rest of the file. */
  function Fgets(s: seq<Byte>): (r: Option<(seq<Byte>, seq<Byte>)>)
    ensures r.None? <==> s == []
    ensures r.Some? ==> 0 < |r.value.0| <= FGETS_LIMIT && s == r.value.0 + r.value.1
  {
    if s == [] then None
    else
      var n := FgetsLength(s, FGETS_LIMIT);
      Some((s[..n], s[n..]))
  }

  /** The chunks returned by at most `count` successive `fgets` calls. */
  function ReadChunks(s: seq<Byte>, count: nat): (cs: seq<seq<Byte>>)
    ensures |cs| <= count
  {
    if count == 0 then []
    else
      match Fgets(s)
      case None => []
      case Some((chunk, rest)) => [chunk] + ReadChunks(rest, count - 1)
  }

  /** Reading `count` chunks is reading one, then `count - 1` from where it stopped. */
  lemma ReadChunksUnfold(s: seq<Byte>, count: nat)
    requires count > 0 && s != []
    ensures ReadChunks(s, count) == [Fgets(s).value.0] + ReadChunks(Fgets(s).value.1, count - 1)
  {
  }

  /** Line `i` takes chunk `i` when the file has one, and keeps its old text otherwise. */
  function Overlay(prev: seq<Line>, chunks: seq<seq<Byte>>): seq<Line> {
    seq(|prev|, i requires 0 <= i < |prev| =>
      if i < |chunks| then NormalizeLine(chunks[i]) else prev[i])
  }

  /** Taking one more chunk changes just the next line. */
  lemma OverlayOneMore(prev: seq<Line>, chunks: seq<seq<Byte>>, chunk: seq<Byte>)
    requires |chunks| < |prev|
    ensures Overlay(prev, chunks + [chunk]) == Overlay(prev, chunks)[|chunks| := NormalizeLine(chunk)]
  {
  }

  /**
   * One more turn of the reading loop: the next `fgets` call yields the
   * next chunk of the file, and that chunk fills the next line.
   */
  lemma ReadOneMoreLine(text: seq<Byte>, prev: seq<Line>, read: seq<seq<Byte>>, rest: seq<Byte>, k: nat)
    requires 0 < k && rest != [] && |read| < |prev|
    requires ReadChunks(text, MAX_RUBRIC_LINES) == read + ReadChunks(rest, k)
    ensures var chunk := Fgets(rest).value.0;
      ReadChunks(text, MAX_RUBRIC_LINES) == (read + [chunk]) + ReadChunks(Fgets(rest).value.1, k - 1) &&
      Overlay(prev, read + [chunk]) == Overlay(prev, read)[|read| := NormalizeLine(chunk)]
  {
    ReadChunksUnfold(rest, k);
    OverlayOneMore(prev, read, Fgets(rest).value.0);
  }

  /**
   * The rubric after `load_rubric`: the five default lines when the file
   * cannot be opened (None); otherwise up to five lines read, each
   * normalized, with the lines the file does not reach left as they were.
   */
  function LoadedRubric(prev: seq<Line>, file: Option<seq<Byte>>): (r: seq<Line>)
    requires WellFormedRubric(prev)
    ensures WellFormedRubric(r)
    ensures file.None? ==> r == DefaultRubric()
    ensures file.Some? && file.value == [] ==> r == prev
  {
    match file
    case None => DefaultRubric()
    case Some(text) => Overlay(prev, ReadChunks(text, MAX_RUBRIC_LINES))
  }

  /**
   * From a file that opens, line `i` of the file, normalized, fills line
   * `i` of the rubric; the lines the file does not reach keep their text.
   */
  lemma LoadedLinesComeFromFile(prev: seq<Line>, text: seq<Byte>)
    requires WellFormedRubric(prev)
    ensures var r, cs := LoadedRubric(prev, Some(text)), ReadChunks(text, MAX_RUBRIC_LINES);
      forall i :: 0 <= i < MAX_RUBRIC_LINES ==>
        (i < |cs| ==> r[i] == NormalizeLine(cs[i])) && (i >= |cs| ==> r[i] == prev[i])
  {
  }

  // ---------------------------------------------------------------------
  // Saving: `save_rubric`, and the round trip through the file
  // ---------------------------------------------------------------------

  /** The bytes `save_rubric` writes: each line followed by "\n". */
  function SavedRubric(r: seq<Line>): (s: seq<Byte>)
    ensures (s == []) == (r == [])
    ensures s != [] ==> s[|s| - 1] == LF
  {
    if r == [] then [] else r[0] + [LF] + SavedRubric(r[1..])
  }

  /** A line that survives being written and read back: no CR, LF or NUL, at most 19 bytes. */
  predicate Reloadable(l: Line) {
    |l| <= LINE_CAPACITY && forall i :: 0 <= i < |l| ==> !IsLineEnd(l[i])
  }

  lemma {:induction false} FgetsStopsAtNewline(l: Line, rest: seq<Byte>, limit: nat)
    requires LF !in l && |l| < limit
    ensures FgetsLength(l + [LF] + rest, limit) == |l| + 1
  {
    if l != [] {
      assert (l + [LF] + rest)[1..] == l[1..] + [LF] + rest;
      FgetsStopsAtNewline(l[1..], rest, limit - 1);
    }
  }

  lemma {:induction false} SpanStopsAtNewline(l: Line, rest: seq<Byte>)
    requires forall i :: 0 <= i < |l| ==> !IsLineEnd(l[i])
    ensures SpanToLineEnd(l + [LF] + rest) == |l|
  {
    if l != [] {
      assert (l + [LF] + rest)[1..] == l[1..] + [LF] + rest;
      SpanStopsAtNewline(l[1..], rest);
    }
  }

  /** The lines of `r`, each with the "\n" that `save_rubric` puts after it. */
  function Terminated(r: seq<Line>): seq<seq<Byte>> {
    if r == [] then [] else [r[0] + [LF]] + Terminated(r[1..])
  }

  lemma TerminatedUnfold(r: seq<Line>)
    requires r != []
    ensures Terminated(r) == [r[0] + [LF]] + Terminated(r[1..])
  {
  }

  lemma {:induction false} TerminatedAt(r: seq<Line>, i: nat)
    requires i < |r|
    ensures |Terminated(r)| == |r| && Terminated(r)[i] == r[i] + [LF]
  {
    if i > 0 {
      TerminatedAt(r[1..], i - 1);
    } else if |r| > 1 {
      TerminatedAt(r[1..], 0);
    }
  }

  /** One `fgets` on saved text takes exactly one saved line and its "\n". */
  lemma FgetsSavedLine(l: Line, rest: seq<Byte>)
    requires Reloadable(l)
    ensures Fgets(l + [LF] + rest) == Some((l + [LF], rest))
  {
    assert LF !in l by {
      forall i | 0 <= i < |l| ensures l[i] != LF {
        assert !IsLineEnd(l[i]);
      }
    }
    FgetsStopsAtNewline(l, rest, FGETS_LIMIT);
    var text := l + [LF] + rest;
    assert text[..|l| + 1] == l + [LF] && text[|l| + 1..] == rest;
  }

  /** Saved text starts with its first line; one `fgets` takes exactly that line. */
  lemma ChunksOfSavedStep(r: seq<Line>, count: nat)
    requires 0 < |r| <= count && Reloadable(r[0])
    ensures ReadChunks(SavedRubric(r), count) == [r[0] + [LF]] + ReadChunks(SavedRubric(r[1..]), count - 1)
  {
    var rest := SavedRubric(r[1..]);
    assert SavedRubric(r) == r[0] + [LF] + rest;
    FgetsSavedLine(r[0], rest);
    ReadChunksUnfold(SavedRubric(r), count);
  }

  /** Reading back what `save_rubric` wrote yields one chunk per line: the line and its "\n". */
  lemma {:induction false} ChunksOfSaved(r: seq<Line>, count: nat)
    requires |r| <= count
    requires forall i :: 0 <= i < |r| ==> Reloadable(r[i])
    ensures ReadChunks(SavedRubric(r), count) == Terminated(r)
  {
    if r != [] {
      var head, tail := r[0] + [LF], r[1..];
      ChunksOfSavedStep(r, count);
      assert forall i :: 0 <= i < |tail| ==> Reloadable(tail[i]) by {
        forall i | 0 <= i < |tail| ensures Reloadable(tail[i]) {
          assert tail[i] == r[i + 1];
        }
      }
      ChunksOfSaved(tail, count - 1);
      TerminatedUnfold(r);
      calc {
        ReadChunks(SavedRubric(r), count);
        [head] + ReadChunks(SavedRubric(tail), count - 1);
        [head] + Terminated(tail);
        Terminated(r);
      }
    }
  }

  /**
   * `load_rubric` after `save_rubric` gives back the rubric that was saved,
   * whatever the shared record held before, provided no line holds a CR, LF
   * or NUL.
   */
  lemma {:induction false} SaveThenLoad(r: seq<Line>, prev: seq<Line>)
    requires WellFormedRubric(prev) && |r| == MAX_RUBRIC_LINES
    requires forall i :: 0 <= i < |r| ==> Reloadable(r[i])
    ensures LoadedRubric(prev, Some(SavedRubric(r))) == r
  {
    var cs := ReadChunks(SavedRubric(r), MAX_RUBRIC_LINES);
    ChunksOfSaved(r, MAX_RUBRIC_LINES);
    TerminatedAt(r, 0);
    forall i | 0 <= i < MAX_RUBRIC_LINES ensures NormalizeLine(cs[i]) == r[i] {
      TerminatedAt(r, i);
      SpanStopsAtNewline(r[i], []);
      assert cs[i] == r[i] + [LF] + [];
    }
  }

  // ---------------------------------------------------------------------
  // Correcting a grade letter: the body of the 20% branch
  // ---------------------------------------------------------------------

  /** `strchr(l, ',')`: the index of the first comma, if there is one. */
  function FirstComma(l: Line): (k: Option<nat>)
    ensures k.Some? ==> k.value < |l| && l[k.value] == COMMA && COMMA !in l[..k.value]
    ensures k.None? ==> COMMA !in l
  {
    if l == [] then None
    else if l[0] == COMMA then Some(0)
    else
      match FirstComma(l[1..])
      case None => None
      case Some(j) =>
        assert l[..j + 1] == [l[0]] + l[1..][..j];
        Some(j + 1)
  }

  lemma FirstCommaAt(l: Line, k: nat)
    requires k < |l| && l[k] == COMMA && COMMA !in l[..k]
    ensures FirstComma(l) == Some(k)
  {
  }

  /** The question-number part of a line: through its first comma, or all of it when it has none. */
  function QuestionPart(l: Line): Line {
    match FirstComma(l)
    case None => l
    case Some(k) => l[..k + 1]
  }

  /** `comma != NULL && comma[1] != '\0'`: the line has a grade byte after its first comma. */
  predicate Editable(l: Line) {
    FirstComma(l).Some? && FirstComma(l).value + 1 < |l|
  }

  /**
   * `comma[1] = old_char + 1`. The `char` wraps around, so a 0xFF byte
   * becomes NUL and the string then ends right after the comma.
   */
  function EditedLine(l: Line): (r: Line)
    requires CString(l)
    ensures CString(r)
  {
    match FirstComma(l)
    case None => l
    case Some(k) =>
      if k + 1 == |l| then l
      else
        var b := (l[k + 1] as int + 1) % 256;
        if b == NUL then l[..k + 1] else l[k + 1 := b]
  }

  /**
   * A correction changes only the grade byte right after the first comma:
   * it is incremented, or, when it was 0xFF, the line ends before it. The
   * question number and the comma are kept, and a line with no grade byte
   * is left as it is.
   */
  lemma EditKeepsQuestionPart(l: Line)
    requires CString(l)
    ensures var r := EditedLine(l);
      QuestionPart(r) == QuestionPart(l) && FirstComma(r) == FirstComma(l)
    ensures !Editable(l) ==> EditedLine(l) == l
    ensures Editable(l) ==> var r, k := EditedLine(l), FirstComma(l).value + 1;
      if l[k] < 255 then
        |r| == |l| && r[k] == l[k] + 1 && forall i :: 0 <= i < |l| && i != k ==> r[i] == l[i]
      else
        r == l[..k]
  {
    if Editable(l) {
      var k := FirstComma(l).value;
      var r := EditedLine(l);
      assert r[..k] == l[..k];
      FirstCommaAt(r, k);
    }
  }

  /** The coin flip `rand() % 100 < 20` on one `rand()` value. */
  predicate Corrects(draw: nat) {
    draw % 100 < CORRECTION_PERCENT
  }

  /** One pass over the rubric: line `i` is corrected when draw `i` comes up. */
  function ReviewedRubric(r: seq<Line>, draws: seq<nat>): (r': seq<Line>)
    requires forall i :: 0 <= i < |r| ==> CString(r[i])
    ensures |r'| == |r|
    ensures forall i :: 0 <= i < |r| ==>
      (r'[i] != r[i] <==> i < |draws| && Corrects(draws[i]) && Editable(r[i]))
  {
    var out := seq(|r|, i requires 0 <= i < |r| =>
      if i < |draws| && Corrects(draws[i]) then EditedLine(r[i]) else r[i]);
    assert forall i :: 0 <= i < |r| ==>
      (out[i] != r[i] <==> i < |draws| && Corrects(draws[i]) && Editable(r[i])) by {
      forall i | 0 <= i < |r| {
        EditKeepsQuestionPart(r[i]);
      }
    }
    out
  }

  /** Whether a pass changes some line, and so rewrites `rubric.txt`. */
  predicate AnyCorrection(r: seq<Line>, draws: seq<nat>) {
    exists i :: 0 <= i < |r| && i < |draws| && Corrects(draws[i]) && Editable(r[i])
  }

  /** Extending a pass by line `i` corrects that line or leaves it. */
  lemma ReviewOneMore(r: seq<Line>, draws: seq<nat>, i: nat)
    requires forall j :: 0 <= j < |r| ==> CString(r[j])
    requires i < |r| && i < |draws|
    ensures ReviewedRubric(r, draws[..i])[i] == r[i]
    ensures ReviewedRubric(r, draws[..i + 1]) ==
      if Corrects(draws[i]) then ReviewedRubric(r, draws[..i])[i := EditedLine(r[i])] else ReviewedRubric(r, draws[..i])
    ensures AnyCorrection(r, draws[..i + 1]) <==> AnyCorrection(r, draws[..i]) || (Corrects(draws[i]) && Editable(r[i]))
  {
  }

  /**
   * A review pass keeps the rubric well formed, keeps the number of lines,
   * and never touches a line's question number or the comma after it.
   */
  lemma ReviewKeepsQuestionNumbers(r: seq<Line>, draws: seq<nat>)
    requires WellFormedRubric(r)
    ensures WellFormedRubric(ReviewedRubric(r, draws))
    ensures forall i :: 0 <= i < |r| ==> QuestionPart(ReviewedRubric(r, draws)[i]) == QuestionPart(r[i])
    ensures !AnyCorrection(r, draws) ==> ReviewedRubric(r, draws) == r
  {
  }
}
