/**
 * The `questions_marked[5]` array of the shared record: which questions of
 * the current exam some TA has claimed, how a TA claims one with up to ten
 * random probes, and when the exam counts as completely marked.
 */
module Questions {

  const MAX_QUESTIONS: nat := 5
  /** `for (attempt = 0; attempt < 10; attempt++)` */
  const CLAIM_ATTEMPTS: nat := 10

  /** The slot a probe looks at: `rand() % MAX_QUESTIONS`. */
  function Slot(draw: nat): (q: nat)
    ensures q < MAX_QUESTIONS
  {
    draw % MAX_QUESTIONS
  }

  /** The marks of a freshly loaded exam: every question unclaimed. */
  function NoMarks(): (m: seq<int>)
    ensures |m| == MAX_QUESTIONS && forall i :: 0 <= i < |m| ==> m[i] == 0
  {
    [0, 0, 0, 0, 0]
  }

  /** Every question of the exam has been claimed: no slot is 0. */
  predicate AllMarked(m: seq<int>) {
    forall i :: 0 <= i < |m| ==> m[i] != 0
  }

  /** The first `n` probes all land on slots that are already claimed. */
  predicate MissesFirst(m: seq<int>, draws: seq<nat>, n: nat)
    requires |m| == MAX_QUESTIONS && n <= |draws|
  {
    forall i :: 0 <= i < n ==> m[Slot(draws[i])] != 0
  }

  /**
   * The slot the claim loop takes: the slot of the first probe that lands
   * on an unclaimed slot, or -1 when every probe lands on a claimed one.
   */
  function FirstFreeProbe(m: seq<int>, draws: seq<nat>): (q: int)
    requires |m| == MAX_QUESTIONS
    ensures -1 <= q < MAX_QUESTIONS
    ensures q != -1 ==> m[q] == 0
  {
    if draws == [] then -1
    else if m[Slot(draws[0])] == 0 then Slot(draws[0])
    else FirstFreeProbe(m, draws[1..])
  }

  /**
   * The claim finds nothing exactly when every probe lands on a claimed
   * slot; otherwise the slot it takes is that of some probe all of whose
   * predecessors landed on claimed slots.
   */
  lemma {:induction false} FirstFreeProbeIsFirst(m: seq<int>, draws: seq<nat>)
    requires |m| == MAX_QUESTIONS
    ensures var q := FirstFreeProbe(m, draws);
      (q == -1 <==> MissesFirst(m, draws, |draws|)) &&
      (q != -1 ==> exists j :: 0 <= j < |draws| && Slot(draws[j]) == q && MissesFirst(m, draws, j))
  {
    if draws != [] && m[Slot(draws[0])] != 0 {
      var tail := draws[1..];
      FirstFreeProbeIsFirst(m, tail);
      var q := FirstFreeProbe(m, tail);
      assert forall j :: 1 <= j < |draws| ==> tail[j - 1] == draws[j];
      if q != -1 {
        var j :| 0 <= j < |tail| && Slot(tail[j]) == q && MissesFirst(m, tail, j);
        assert Slot(draws[j + 1]) == q;
        assert MissesFirst(m, draws, j + 1) by {
          forall i | 0 <= i < j + 1 ensures m[Slot(draws[i])] != 0 {
            if i > 0 { assert draws[i] == tail[i - 1]; }
          }
        }
      } else {
        assert MissesFirst(m, draws, |draws|) by {
          forall i | 0 <= i < |draws| ensures m[Slot(draws[i])] != 0 {
            if i > 0 { assert draws[i] == tail[i - 1]; }
          }
        }
      }
    } else if draws != [] {
      assert Slot(draws[0]) == FirstFreeProbe(m, draws) && MissesFirst(m, draws, 0);
    }
  }

  /** The marks after a claim that chose slot `q` (-1: nothing chosen). */
  function MarkSlot(m: seq<int>, q: int): seq<int>
    requires -1 <= q < |m|
  {
    if q == -1 then m else m[q := 1]
  }

  /**
   * A claim flips at most one slot, from 0 to 1, and that slot is the one
   * returned; a slot already claimed is never altered, and with nothing
   * chosen the array is unchanged.
   */
  lemma ClaimFlipsOneSlot(m: seq<int>, draws: seq<nat>)
    requires |m| == MAX_QUESTIONS
    ensures var q := FirstFreeProbe(m, draws); var m' := MarkSlot(m, q);
      |m'| == |m| &&
      (forall i :: 0 <= i < |m| && i != q ==> m'[i] == m[i]) &&
      (q != -1 ==> m[q] == 0 && m'[q] == 1) &&
      (forall i :: 0 <= i < |m| && m[i] != 0 ==> m'[i] == m[i])
  {
  }

  /** Once every slot is claimed, a claim finds nothing and changes nothing. */
  lemma ClaimOnFullExam(m: seq<int>, draws: seq<nat>)
    requires |m| == MAX_QUESTIONS && AllMarked(m)
    ensures FirstFreeProbe(m, draws) == -1 && MarkSlot(m, -1) == m
  {
  }
}
