/**
 * The simulation driver (class `Simulator` of mcitSim.py): a catalogue of
 * twelve course offerings, cohorts of students admitted every term, a
 * shuffled registration order, and the seat counters cleared after each term.
 */
module Simulation {
  import opened Wrappers
  import opened Catalog
  import opened Dicts
  import opened Policies
  import opened Students

  /**
   * The random draws of one run. `swap(t, i)` is the draw Python's
   * `random.shuffle` makes for position `i` in term `t`; `choice(t, s, n)`
   * and `single(t, s, n)` are the n-th `random.choice` and the n-th
   * "take only one course" coin of student `s` in term `t`.
   */
  datatype Random = Random(
    swap: (nat, nat) -> nat,
    choice: (nat, nat, nat) -> nat,
    single: (nat, nat, nat) -> bool)

  /** `[i for i in range(lo, hi)]`. */
  function Range(lo: nat, hi: nat): (r: seq<nat>)
    ensures |r| == if lo <= hi then hi - lo else 0
    ensures forall k :: 0 <= k < |r| ==> r[k] == lo + k
    decreases hi - lo
  {
    if lo >= hi then [] else [lo] + Range(lo + 1, hi)
  }

  /** The ids of `range(lo, hi)` are exactly those from `lo` up to `hi - 1`. */
  lemma RangeMembers(lo: nat, hi: nat)
    ensures forall x :: x in Range(lo, hi) <==> lo <= x < hi
  {
    forall x | lo <= x < hi
      ensures x in Range(lo, hi)
    {
      assert Range(lo, hi)[x - lo] == x;
    }
  }

  /** Appending a range above every id keeps the ids distinct and below the range's end. */
  lemma AppendRange(ids: seq<nat>, lo: nat, hi: nat)
    requires lo <= hi && Distinct(ids) && forall p :: 0 <= p < |ids| ==> ids[p] < lo
    ensures Distinct(ids + Range(lo, hi))
    ensures forall p :: 0 <= p < |ids + Range(lo, hi)| ==> (ids + Range(lo, hi))[p] < hi
  {
  }

  /**
   * The ids of `order` still listed after the registration loop, given
   * which positions were removed.
   */
  function Kept(order: seq<nat>, gone: seq<bool>): (r: seq<nat>)
    requires |gone| == |order|
  {
    if order == [] then []
    else Kept(order[..|order| - 1], gone[..|gone| - 1]) + (if gone[|gone| - 1] then [] else [order[|order| - 1]])
  }

  /** Kept's view of one more position. */
  lemma KeptSnoc(order: seq<nat>, gone: seq<bool>, x: nat, g: bool)
    requires |gone| == |order|
    ensures Kept(order + [x], gone + [g]) == Kept(order, gone) + (if g then [] else [x])
  {
    assert (order + [x])[..|order|] == order;
    assert (gone + [g])[..|gone|] == gone;
  }

  /** Only ids of `order` are kept. */
  lemma {:induction false} KeptWithin(order: seq<nat>, gone: seq<bool>)
    requires |gone| == |order|
    ensures forall x :: x in Kept(order, gone) ==> x in order
    decreases |order|
  {
    if order != [] {
      var n := |order| - 1;
      KeptWithin(order[..n], gone[..n]);
      assert forall x :: x in order[..n] ==> x in order;
    }
  }

  /** Every id kept is below a bound that every id of `order` is below. */
  lemma KeptBelow(order: seq<nat>, gone: seq<bool>, n: nat)
    requires |gone| == |order| && forall p :: 0 <= p < |order| ==> order[p] < n
    ensures forall p :: 0 <= p < |Kept(order, gone)| ==> Kept(order, gone)[p] < n
  {
    KeptWithin(order, gone);
    forall p | 0 <= p < |Kept(order, gone)|
      ensures Kept(order, gone)[p] < n
    {
      var x := Kept(order, gone)[p];
      assert x in order;
      var q :| 0 <= q < |order| && order[q] == x;
    }
  }

  /** Distinct ids stay distinct. */
  lemma {:induction false} KeptDistinct(order: seq<nat>, gone: seq<bool>)
    requires |gone| == |order| && Distinct(order)
    ensures Distinct(Kept(order, gone))
    decreases |order|
  {
    if order != [] {
      var n := |order| - 1;
      KeptDistinct(order[..n], gone[..n]);
      KeptWithin(order[..n], gone[..n]);
      assert order[n] !in order[..n];
    }
  }

  /** A removed position is absent, and every id of `order` not removed is kept. */
  lemma {:induction false} KeptMembers(order: seq<nat>, gone: seq<bool>, p: nat)
    requires |gone| == |order| && Distinct(order) && p < |order|
    ensures order[p] in Kept(order, gone) <==> !gone[p]
    decreases |order|
  {
    var n := |order| - 1;
    if p < n {
      KeptMembers(order[..n], gone[..n], p);
    } else {
      KeptWithin(order[..n], gone[..n]);
      assert order[p] !in order[..n];
    }
  }

  /**
   * No id still listed after a term belongs to a graduate, when none of
   * `order` had graduated before it: a visited graduate is removed, and a
   * student passed over is as before.
   */
  lemma {:induction false} KeptUngraduated(order: seq<nat>, gone: seq<bool>, processed: seq<bool>, before: seq<Record>, after: seq<Record>)
    requires |gone| == |order| && |processed| == |order| && Distinct(order)
    requires |after| == |before| && forall p :: 0 <= p < |order| ==> order[p] < |before| && !before[order[p]].graduated
    requires forall p :: 0 <= p < |order| ==> (gone[p] <==> processed[p] && after[order[p]].graduated)
    requires forall p :: 0 <= p < |order| && !processed[p] ==> after[order[p]] == before[order[p]]
    ensures forall p :: 0 <= p < |Kept(order, gone)| ==> Kept(order, gone)[p] < |after| && !after[Kept(order, gone)[p]].graduated
  {
    KeptBelow(order, gone, |before|);
    KeptWithin(order, gone);
    forall p | 0 <= p < |Kept(order, gone)|
      ensures Kept(order, gone)[p] < |after| && !after[Kept(order, gone)[p]].graduated
    {
      var x := Kept(order, gone)[p];
      assert x in order;
      var q :| 0 <= q < |order| && order[q] == x;
      KeptMembers(order, gone, q);
    }
  }

  /**
   * The ids still listed after a term are exactly those of `order` whose
   * students have not graduated by its end.
   */
  lemma KeptExactly(order: seq<nat>, gone: seq<bool>, processed: seq<bool>, before: seq<Record>, after: seq<Record>)
    requires |gone| == |order| && |processed| == |order| && Distinct(order)
    requires |after| == |before| && forall p :: 0 <= p < |order| ==> order[p] < |before| && !before[order[p]].graduated
    requires forall p :: 0 <= p < |order| ==> (gone[p] <==> processed[p] && after[order[p]].graduated)
    requires forall p :: 0 <= p < |order| && !processed[p] ==> after[order[p]] == before[order[p]]
    ensures forall x: nat :: x in Kept(order, gone) <==> x in order && x < |after| && !after[x].graduated
  {
    KeptUngraduated(order, gone, processed, before, after);
    KeptWithin(order, gone);
    forall x: nat | x in order && x < |after| && !after[x].graduated
      ensures x in Kept(order, gone)
    {
      var q :| 0 <= q < |order| && order[q] == x;
      KeptMembers(order, gone, q);
    }
  }

  /**
   * The state of the registration loop of one term after it has consumed
   * the first `j` positions of `order`: `ids` is the list as Python holds it
   * and `i` the iterator's index into it. A position is visited unless the
   * one before it was removed.
   */
  ghost predicate Walk(order: seq<nat>, ids: seq<nat>, i: nat, j: nat, processed: seq<bool>, gone: seq<bool>) {
    && j <= |order| && |processed| == j && |gone| == j
    && ids == Kept(order[..j], gone) + order[j..]
    && (i == |Kept(order[..j], gone)| || (j == |order| && i == |Kept(order[..j], gone)| + 1))
    && (forall p :: 0 <= p < j ==> (processed[p] <==> p == 0 || !gone[p - 1]))
    && (0 < j < |order| ==> !gone[j - 1])
  }

  lemma WalkStart(order: seq<nat>)
    ensures Walk(order, order, 0, 0, [], [])
  {
    assert order[..0] == [];
  }

  /** While the iterator is inside the list it stands on position `j`, which is visited. */
  lemma WalkAt(order: seq<nat>, ids: seq<nat>, i: nat, j: nat, processed: seq<bool>, gone: seq<bool>)
    requires Walk(order, ids, i, j, processed, gone) && i < |ids|
    ensures j < |order| && ids[i] == order[j]
    ensures j == 0 || !gone[j - 1]
  {
  }

  /** The visited student stays listed: the iterator moves on by one. */
  lemma WalkStay(order: seq<nat>, ids: seq<nat>, i: nat, j: nat, processed: seq<bool>, gone: seq<bool>)
    requires Walk(order, ids, i, j, processed, gone) && i < |ids|
    ensures Walk(order, ids, i + 1, j + 1, processed + [true], gone + [false])
  {
    WalkAt(order, ids, i, j, processed, gone);
    assert order[..j + 1] == order[..j] + [order[j]];
    KeptSnoc(order[..j], gone, order[j], false);
  }

  /** Removing position `j` and keeping `j + 1`. */
  lemma KeptSkip(order: seq<nat>, gone: seq<bool>, j: nat)
    requires |gone| == j && j + 1 < |order|
    ensures Kept(order[..j + 2], gone + [true, false]) == Kept(order[..j], gone) + [order[j + 1]]
  {
    assert order[..j + 1] == order[..j] + [order[j]];
    assert order[..j + 2] == order[..j + 1] + [order[j + 1]];
    KeptSnoc(order[..j], gone, order[j], true);
    KeptSnoc(order[..j + 1], gone + [true], order[j + 1], false);
    assert gone + [true, false] == gone + [true] + [false];
  }

  /**
   * The visited student is removed: the list shifts left under the
   * iterator, so the next position is passed over without a visit.
   */
  lemma WalkRemove(order: seq<nat>, ids: seq<nat>, i: nat, j: nat, processed: seq<bool>, gone: seq<bool>)
    requires Walk(order, ids, i, j, processed, gone) && i < |ids| && j + 1 < |order|
    ensures Walk(order, ids[..i] + ids[i + 1..], i + 1, j + 2, processed + [true, false], gone + [true, false])
  {
    WalkAt(order, ids, i, j, processed, gone);
    var kept := Kept(order[..j], gone);
    KeptSkip(order, gone, j);
    assert ids[..i] == kept && ids[i + 1..] == order[j + 1..];
    assert order[j + 1..] == [order[j + 1]] + order[j + 2..];
    assert ids[..i] + ids[i + 1..] == Kept(order[..j + 2], gone + [true, false]) + order[j + 2..];
    var processed', gone' := processed + [true, false], gone + [true, false];
    forall p | 0 <= p < j + 2
      ensures processed'[p] <==> p == 0 || !gone'[p - 1]
    {
      if p < j {
        assert processed'[p] == processed[p];
        assert p == 0 || gone'[p - 1] == gone[p - 1];
      }
    }
  }

  /** The last student of the order is visited and removed: the iterator runs past the end. */
  lemma WalkRemoveLast(order: seq<nat>, ids: seq<nat>, i: nat, j: nat, processed: seq<bool>, gone: seq<bool>)
    requires Walk(order, ids, i, j, processed, gone) && i < |ids| && j + 1 >= |order|
    ensures Walk(order, ids[..i] + ids[i + 1..], i + 1, j + 1, processed + [true], gone + [true])
  {
    WalkAt(order, ids, i, j, processed, gone);
    assert order[..j + 1] == order[..j] + [order[j]];
    KeptSnoc(order[..j], gone, order[j], true);
  }

  /** Once the iterator leaves the list, every position is consumed. */
  lemma WalkDone(order: seq<nat>, ids: seq<nat>, i: nat, j: nat, processed: seq<bool>, gone: seq<bool>)
    requires Walk(order, ids, i, j, processed, gone) && i >= |ids|
    ensures j == |order| && ids == Kept(order, gone)
  {
    assert order[..|order|] == order;
  }

  /**
   * What the registration loop has done to the students of the first `j`
   * positions: a visited student attended one more term and is removed
   * exactly when now graduated; a student not (yet) visited is as before.
   */
  ghost predicate Progress(order: seq<nat>, j: nat, processed: seq<bool>, gone: seq<bool>, before: seq<Record>, after: seq<Record>)
    requires j <= |order| && |processed| == j && |gone| == j && |after| == |before|
    requires forall p :: 0 <= p < |order| ==> order[p] < |before|
  {
    && (forall p :: 0 <= p < j ==> (gone[p] <==> processed[p] && after[order[p]].graduated))
    && (forall p :: 0 <= p < j && processed[p] ==> after[order[p]].semesterCount == before[order[p]].semesterCount + 1)
    && (forall p :: 0 <= p < |order| && (j <= p || !processed[p]) ==> after[order[p]] == before[order[p]])
  }

  /** Visiting position `j` (and passing over `j + 1` after a removal) keeps Progress. */
  lemma ProgressStep(order: seq<nat>, j: nat, processed: seq<bool>, gone: seq<bool>, before: seq<Record>, after: seq<Record>, r: Record)
    requires j < |order| && |processed| == j && |gone| == j && |after| == |before|
    requires Distinct(order) && forall p :: 0 <= p < |order| ==> order[p] < |before|
    requires Progress(order, j, processed, gone, before, after)
    requires r.semesterCount == after[order[j]].semesterCount + 1
    ensures var next := after[order[j] := r];
      && (!r.graduated ==> Progress(order, j + 1, processed + [true], gone + [false], before, next))
      && (r.graduated && j + 1 < |order| ==> Progress(order, j + 2, processed + [true, false], gone + [true, false], before, next))
      && (r.graduated && j + 1 >= |order| ==> Progress(order, j + 1, processed + [true], gone + [true], before, next))
  {
    var next := after[order[j] := r];
    assert forall p :: 0 <= p < |order| && p != j ==> next[order[p]] == after[order[p]];
  }

  /** Progress once every position is consumed. */
  lemma ProgressDone(order: seq<nat>, processed: seq<bool>, gone: seq<bool>, before: seq<Record>, after: seq<Record>)
    requires |processed| == |order| && |gone| == |order| && |after| == |before|
    requires forall p :: 0 <= p < |order| ==> order[p] < |before|
    requires Progress(order, |order|, processed, gone, before, after)
    ensures forall p :: 0 <= p < |order| ==> (gone[p] <==> processed[p] && after[order[p]].graduated)
    ensures forall p :: 0 <= p < |order| && processed[p] ==> after[order[p]].semesterCount == before[order[p]].semesterCount + 1
    ensures forall p :: 0 <= p < |order| && !processed[p] ==> after[order[p]] == before[order[p]]
  {
  }

  /**
   * The records during a term: each still consistent and grown from what it
   * was before the term, and a student not in `order` as before.
   */
  ghost predicate Evolving(order: seq<nat>, before: seq<Record>, after: seq<Record>) {
    && |before| == |after|
    && (forall k :: 0 <= k < |after| ==> Sound(after[k]) && Grows(before[k], after[k]))
    && (forall k :: 0 <= k < |after| && k !in order ==> after[k] == before[k])
  }

  /** A listed student's record replaced by a consistent record grown from the old one. */
  lemma EvolvingStep(order: seq<nat>, before: seq<Record>, after: seq<Record>, x: nat, r: Record)
    requires Evolving(order, before, after) && x in order && x < |after|
    requires Sound(r) && Grows(before[x], r)
    ensures Evolving(order, before, after[x := r])
  {
  }

  /**
   * What the registration loop of one term knows between two passes, on
   * values: the walk so far, the records evolving, and its effect on them.
   */
  ghost predicate Bookkeeping(order: seq<nat>, before: seq<Record>,
                              ids: seq<nat>, i: nat, j: nat, processed: seq<bool>, gone: seq<bool>, after: seq<Record>) {
    && Distinct(order) && (forall p :: 0 <= p < |order| ==> order[p] < |before|)
    && Walk(order, ids, i, j, processed, gone)
    && Evolving(order, before, after)
    && Progress(order, j, processed, gone, before, after)
  }

  /** The bookkeeping after a pass whose student stays listed; `r` is their new record. */
  lemma BookkeepingStay(order: seq<nat>, before: seq<Record>,
                        ids: seq<nat>, i: nat, j: nat, processed: seq<bool>, gone: seq<bool>, after: seq<Record>, r: Record)
    requires Bookkeeping(order, before, ids, i, j, processed, gone, after) && i < |ids|
    requires ids[i] < |after| && r.semesterCount == after[ids[i]].semesterCount + 1 && after[ids[i]].courseTaken <= r.courseTaken && Sound(r) && !r.graduated
    ensures Bookkeeping(order, before, ids, i + 1, j + 1, processed + [true], gone + [false], after[ids[i] := r])
  {
    WalkAt(order, ids, i, j, processed, gone);
    assert after[order[j]] == before[order[j]];
    EvolvingStep(order, before, after, order[j], r);
    ProgressStep(order, j, processed, gone, before, after, r);
    WalkStay(order, ids, i, j, processed, gone);
  }

  /**
   * The bookkeeping after a pass whose student graduates and is removed,
   * the next position being passed over.
   */
  lemma BookkeepingRemove(order: seq<nat>, before: seq<Record>,
                          ids: seq<nat>, i: nat, j: nat, processed: seq<bool>, gone: seq<bool>, after: seq<Record>, r: Record)
    requires Bookkeeping(order, before, ids, i, j, processed, gone, after) && i < |ids| && j + 1 < |order|
    requires ids[i] < |after| && r.semesterCount == after[ids[i]].semesterCount + 1 && after[ids[i]].courseTaken <= r.courseTaken && Sound(r) && r.graduated
    ensures Bookkeeping(order, before, ids[..i] + ids[i + 1..], i + 1, j + 2, processed + [true, false], gone + [true, false], after[ids[i] := r])
  {
    WalkAt(order, ids, i, j, processed, gone);
    assert after[order[j]] == before[order[j]];
    EvolvingStep(order, before, after, order[j], r);
    ProgressStep(order, j, processed, gone, before, after, r);
    WalkRemove(order, ids, i, j, processed, gone);
  }

  /** The bookkeeping after a pass whose student, the last of the order, graduates and is removed. */
  lemma BookkeepingRemoveLast(order: seq<nat>, before: seq<Record>,
                              ids: seq<nat>, i: nat, j: nat, processed: seq<bool>, gone: seq<bool>, after: seq<Record>, r: Record)
    requires Bookkeeping(order, before, ids, i, j, processed, gone, after) && i < |ids| && j + 1 >= |order|
    requires ids[i] < |after| && r.semesterCount == after[ids[i]].semesterCount + 1 && after[ids[i]].courseTaken <= r.courseTaken && Sound(r) && r.graduated
    ensures Bookkeeping(order, before, ids[..i] + ids[i + 1..], i + 1, j + 1, processed + [true], gone + [true], after[ids[i] := r])
  {
    WalkAt(order, ids, i, j, processed, gone);
    assert after[order[j]] == before[order[j]];
    EvolvingStep(order, before, after, order[j], r);
    ProgressStep(order, j, processed, gone, before, after, r);
    WalkRemoveLast(order, ids, i, j, processed, gone);
  }

  /**
   * The walk's bookkeeping through one pass whose student's new record is
   * `r`: the student stays listed, or graduates and is removed, the next
   * position being passed over unless it was the last.
   */
  ghost method Pass(order: seq<nat>, before: seq<Record>,
                    ids: seq<nat>, i: nat, j: nat, processed: seq<bool>, gone: seq<bool>, after: seq<Record>, r: Record)
    returns (j': nat, processed': seq<bool>, gone': seq<bool>)
    requires Bookkeeping(order, before, ids, i, j, processed, gone, after) && i < |ids|
    requires ids[i] < |after| && r.semesterCount == after[ids[i]].semesterCount + 1 && after[ids[i]].courseTaken <= r.courseTaken && Sound(r)
    ensures Bookkeeping(order, before, if r.graduated then ids[..i] + ids[i + 1..] else ids, i + 1, j', processed', gone', after[ids[i] := r])
  {
    if !r.graduated {
      BookkeepingStay(order, before, ids, i, j, processed, gone, after, r);
      j', processed', gone' := j + 1, processed + [true], gone + [false];
    } else if j + 1 < |order| {
      BookkeepingRemove(order, before, ids, i, j, processed, gone, after, r);
      j', processed', gone' := j + 2, processed + [true, false], gone + [true, false];
    } else {
      BookkeepingRemoveLast(order, before, ids, i, j, processed, gone, after, r);
      j', processed', gone' := j + 1, processed + [true], gone + [true];
    }
  }

  /** `x[i], x[j] = x[j], x[i]`: the same ids, in another order. */
  function Swap(s: seq<nat>, i: nat, j: nat): (r: seq<nat>)
    requires i < |s| && j < |s|
    ensures |r| == |s| && multiset(r) == multiset(s)
    ensures Distinct(s) ==> Distinct(r)
  {
    s[i := s[j]][j := s[i]]
  }

  /**
   * random.shuffle (line 68): Python's Fisher-Yates walk from the last
   * position down to 1, swapping position `i` with the drawn `j <= i`.
   */
  method Shuffle(ids: seq<nat>, swap: nat -> nat) returns (r: seq<nat>)
    ensures multiset(r) == multiset(ids)
    ensures |r| == |ids|
    ensures forall x :: x in r <==> x in ids
    ensures Distinct(ids) ==> Distinct(r)
  {
    r := ids;
    var i := |r| - 1;
    while i >= 1
      invariant i < |r| || |r| == 0
      invariant multiset(r) == multiset(ids) && |r| == |ids|
      invariant Distinct(ids) ==> Distinct(r)
    {
      var j := swap(i) % (i + 1);
      r := Swap(r, i, j);
      i := i - 1;
    }
    assert forall x :: x in r <==> x in multiset(r);
  }

  /** `recs` records the students of `students`, one by one. */
  ghost predicate Pictured(students: seq<Student>, recs: seq<Record>)
    reads students
  {
    |recs| == |students| && forall k :: 0 <= k < |students| ==> Snapshot(students[k]) == recs[k]
  }

  /** Every record is consistent and has counted at most `t` terms. */
  ghost predicate SoundWithin(recs: seq<Record>, t: nat) {
    forall k :: 0 <= k < |recs| ==> Sound(recs[k]) && recs[k].semesterCount <= t
  }

  /** `ids` lists, once each, exactly the students of `recs` who have not graduated. */
  ghost predicate Roster(ids: seq<nat>, recs: seq<Record>) {
    && Distinct(ids)
    && (forall p :: 0 <= p < |ids| ==> ids[p] < |recs| && !recs[ids[p]].graduated)
    && (forall x: nat :: x in ids <==> x < |recs| && !recs[x].graduated)
  }

  /** The records of a term's new cohort are sound, and no record has counted more than `t` terms. */
  lemma AdmittedSound(recs: seq<Record>, n: nat, t: nat, admitted: seq<Record>)
    requires SoundWithin(recs, t)
    requires admitted == recs + seq(n, _ => Admitted)
    ensures SoundWithin(admitted, t)
    ensures forall k :: 0 <= k < |admitted| ==> admitted[k] == Prior(recs, k)
  {
  }

  /**
   * What one term does to a student's record `r`: it counts at most one more
   * term, and courses taken are never lost.
   */
  ghost predicate Grows(r: Record, r': Record) {
    && r.semesterCount <= r'.semesterCount <= r.semesterCount + 1
    && r.courseTaken <= r'.courseTaken
  }

  /** One term takes record `r` to `r'`: still consistent, and grown. */
  ghost predicate Attends(r: Record, r': Record) {
    Sound(r') && Grows(r, r')
  }

  /** No student leaves, and a student who had graduated before the term is as before. */
  ghost predicate Frozen(recs: seq<Record>, next: seq<Record>) {
    |recs| <= |next| && forall k :: 0 <= k < |recs| && recs[k].graduated ==> next[k] == recs[k]
  }

  /** The record of the student at position `k` going into a term whose students' records were `recs`. */
  ghost function Prior(recs: seq<Record>, k: nat): Record {
    if k < |recs| then recs[k] else Admitted
  }

  /**
   * One term takes the records `recs` to `next`: graduates are left as they
   * were, and every student, already listed or admitted this term, attends it.
   */
  ghost predicate TermStep(recs: seq<Record>, next: seq<Record>) {
    Frozen(recs, next) && forall k :: 0 <= k < |next| ==> Attends(Prior(recs, k), next[k])
  }

  /** The records going into term `u`: those at the end of the term before, none before the first. */
  ghost function Preceding(terms: seq<seq<Record>>, u: nat): seq<Record>
    requires u <= |terms|
  {
    if u == 0 then [] else terms[u - 1]
  }

  /** Each term's records follow from the records going into it by one term. */
  ghost predicate Chained(terms: seq<seq<Record>>) {
    forall u {:trigger Preceding(terms, u)} :: 0 <= u < |terms| ==> TermStep(Preceding(terms, u), terms[u])
  }

  /**
   * `terms[u]` is every student's record at the end of term `u`: a student
   * who has graduated by the end of a term is still there, as they were,
   * at the end of every later term.
   */
  ghost predicate Settled(terms: seq<seq<Record>>) {
    forall u, v, k :: 0 <= u <= v < |terms| && 0 <= k < |terms[u]| && terms[u][k].graduated ==>
      k < |terms[v]| && terms[v][k] == terms[u][k]
  }

  /**
   * `terms` holds the records at the end of each of the first `t` terms,
   * `(u + 1) * n` of them after term `u`, the last being `recs`, each
   * term's following from the one before.
   */
  ghost predicate History(terms: seq<seq<Record>>, recs: seq<Record>, t: nat, n: nat) {
    && |terms| == t && |recs| == t * n
    && (forall u :: 0 <= u < t ==> |terms[u]| == (u + 1) * n && |terms[u]| <= |recs|)
    && (0 < t ==> terms[t - 1] == recs)
    && Chained(terms)
  }

  /** One more term that follows from the last extends a chained history. */
  lemma ChainedSnoc(terms: seq<seq<Record>>, next: seq<Record>)
    requires Chained(terms) && TermStep(Preceding(terms + [next], |terms|), next)
    ensures Chained(terms + [next])
  {
    var all: seq<seq<Record>> := terms + [next];
    forall u | 0 <= u < |all|
      ensures TermStep(Preceding(all, u), all[u])
    {
      if u < |terms| {
        assert all[u] == terms[u] && Preceding(all, u) == Preceding(terms, u);
      }
    }
  }

  /** A graduate's record at the end of term `u` is still theirs at the end of term `v`. */
  lemma {:induction false} FrozenFrom(terms: seq<seq<Record>>, u: nat, v: nat, k: nat)
    requires forall w :: 0 < w < |terms| ==> Frozen(terms[w - 1], terms[w])
    requires u <= v < |terms| && k < |terms[u]| && terms[u][k].graduated
    ensures k < |terms[v]| && terms[v][k] == terms[u][k]
    decreases v - u
  {
    if u < v {
      FrozenFrom(terms, u, v - 1, k);
      assert Frozen(terms[v - 1], terms[v]);
    }
  }

  /** A chained history is settled. */
  lemma ChainedSettled(terms: seq<seq<Record>>)
    requires Chained(terms)
    ensures Settled(terms)
  {
    forall w | 0 < w < |terms|
      ensures Frozen(terms[w - 1], terms[w])
    {
      assert TermStep(Preceding(terms, w), terms[w]);
    }
    forall u, v, k | 0 <= u <= v < |terms| && 0 <= k < |terms[u]| && terms[u][k].graduated
      ensures k < |terms[v]| && terms[v][k] == terms[u][k]
    {
      FrozenFrom(terms, u, v, k);
    }
  }

  /** One more term, taking the last records `recs` to `next`, extends the history. */
  lemma HistoryStep(terms: seq<seq<Record>>, recs: seq<Record>, next: seq<Record>, t: nat, n: nat)
    requires History(terms, recs, t, n) && |next| == (t + 1) * n && TermStep(recs, next)
    ensures History(terms + [next], next, t + 1, n)
  {
    assert (t + 1) * n == t * n + n;
    assert Preceding(terms + [next], t) == recs;
    ChainedSnoc(terms, next);
  }

  class Simulator {
    const policy: Policy
    const courseCatalog: map<Code, Course>
    var simulatedStudents: seq<seq<Student>>

    /** Every course has its offering, which carries its own code. */
    ghost predicate Catalogued() {
      forall c: Code :: c in courseCatalog && courseCatalog[c].id == c
    }

    /** No seat counter is above its capacity. */
    ghost predicate WithinCapacity()
      reads courseCatalog.Values
    {
      forall c :: c in courseCatalog ==> courseCatalog[c].numEnrolled <= courseCatalog[c].capacity
    }

    /** Every seat counter is 0, as between two terms. */
    ghost predicate Idle()
      reads courseCatalog.Values
    {
      forall c :: c in courseCatalog ==> courseCatalog[c].numEnrolled == 0
    }

    ghost predicate Valid()
      reads courseCatalog.Values
    {
      Catalogued() && Idle() && WellFormed(policy.courseGraph)
    }

    /**
     * One loop of Simulator.__init__ (lines 39-43): a fresh offering with
     * `capacity` seats for each course of `codes`, added to `catalog`.
     */
    static method AddOfferings(catalog: map<Code, Course>, codes: seq<Code>, capacity: nat) returns (r: map<Code, Course>)
      ensures forall c :: c in r <==> c in catalog || c in codes
      ensures forall c :: c in r && c !in codes ==> r[c] == catalog[c]
      ensures forall c :: c in codes ==> fresh(r[c]) && r[c].id == c && r[c].capacity == capacity && r[c].numEnrolled == 0
    {
      r := catalog;
      for k := 0 to |codes|
        invariant forall c :: c in r <==> c in catalog || c in codes[..k]
        invariant forall c :: c in r && c !in codes[..k] ==> r[c] == catalog[c]
        invariant forall c :: c in codes[..k] ==> fresh(r[c]) && r[c].id == c && r[c].capacity == capacity && r[c].numEnrolled == 0
      {
        var course := new Course(codes[k], capacity);
        r := r[codes[k] := course];
      }
      assert codes[..|codes|] == codes;
    }

    /**
     * Simulator.__init__ (lines 33-43): one fresh offering per course, core
     * courses with `coreCapacity` seats and electives with `electCapacity`.
     */
    constructor (policy: Policy, coreCapacity: nat, electCapacity: nat)
      requires NewPolicy(policy.name) == Ok(policy)
      ensures Valid()
      ensures this.policy == policy && simulatedStudents == []
      ensures forall c :: courseCatalog[c].capacity == if IsCore(c) then coreCapacity else electCapacity
      ensures forall c :: fresh(courseCatalog[c])
    {
      var catalog := AddOfferings(map[], CoreList, coreCapacity);
      catalog := AddOfferings(catalog, ElectList, electCapacity);
      this.policy := policy;
      simulatedStudents := [];
      courseCatalog := catalog;
      new;
      forall c ensures c in courseCatalog && (IsCore(c) <==> c !in ElectList) {
        AllCodesComplete(c);
      }
    }

    /** resetCoursesEnrollment (lines 45-47): every counter back to 0, nothing else changed. */
    method ResetCoursesEnrollment()
      requires Catalogued()
      modifies courseCatalog.Values
      ensures Idle()
    {
      for k := 0 to |AllCodes|
        invariant forall c :: c in AllCodes[..k] ==> courseCatalog[c].numEnrolled == 0
      {
        courseCatalog[AllCodes[k]].ResetEnrollment();
      }
      assert AllCodes[..|AllCodes|] == AllCodes;
      forall c ensures c in AllCodes {
        AllCodesComplete(c);
      }
    }

    /** `[Student(i, 0) for i in range(lo, hi)]` (line 64): a fresh student per id. */
    static method Admit(lo: nat, hi: nat) returns (cohort: seq<Student>)
      requires lo <= hi
      ensures |cohort| == hi - lo
      ensures forall k :: 0 <= k < |cohort| ==> fresh(cohort[k]) && cohort[k].id == lo + k && cohort[k].startTime == 0
      ensures forall k :: 0 <= k < |cohort| ==> Snapshot(cohort[k]) == Admitted
      ensures forall k, m :: 0 <= k < m < |cohort| ==> cohort[k] != cohort[m]
    {
      cohort := [];
      for i := lo to hi
        invariant |cohort| == i - lo
        invariant forall k :: 0 <= k < |cohort| ==> fresh(cohort[k]) && cohort[k].id == lo + k && cohort[k].startTime == 0
        invariant forall k :: 0 <= k < |cohort| ==> Snapshot(cohort[k]) == Admitted
        invariant forall k, m :: 0 <= k < m < |cohort| ==> cohort[k] != cohort[m]
      {
        var student := new Student(i, 0);
        cohort := cohort + [student];
      }
    }

    /**
     * Lines 74-75: take one seat in each course of `courses`. Each had a
     * free seat and is listed once, so no counter passes its capacity.
     */
    method Enroll(courses: seq<Code>)
      requires Catalogued() && WithinCapacity() && Distinct(courses)
      requires forall c :: c in courses ==> courseCatalog[c].numEnrolled < courseCatalog[c].capacity
      modifies courseCatalog.Values
      ensures WithinCapacity()
      ensures forall c :: courseCatalog[c].numEnrolled == old(courseCatalog[c].numEnrolled) + (if c in courses then 1 else 0)
    {
      for k := 0 to |courses|
        invariant forall c :: courseCatalog[c].numEnrolled == old(courseCatalog[c].numEnrolled) + (if c in courses[..k] then 1 else 0)
      {
        assert courses[k] !in courses[..k];
        assert courses[..k + 1] == courses[..k] + [courses[k]];
        courseCatalog[courses[k]].EnrollCourse();
      }
      assert courses[..|courses|] == courses;
    }

    /** Lines 72-75 for one student: choose this term's courses, then take a seat in each. */
    method RegisterStudent(student: Student, t: nat, rand: Random) returns (courses: seq<Code>)
      requires Catalogued() && WithinCapacity() && WellFormed(policy.courseGraph)
      requires student.Valid()
      modifies student, courseCatalog.Values
      ensures WithinCapacity() && student.Valid()
      ensures |courses| <= 2 && Eligible(policy.courseGraph, old(student.courseTaken), courses)
      ensures forall c :: courseCatalog[c].numEnrolled == old(courseCatalog[c].numEnrolled) + (if c in courses then 1 else 0)
      ensures student.semesterCount == old(student.semesterCount) + 1
      ensures student.courseTaken == old(student.courseTaken) + (set c | c in courses)
    {
      var sid := student.id;
      ghost var failed;
      courses, failed := student.ChooseCourse(policy, courseCatalog, (n: nat) => rand.choice(t, sid, n), (n: nat) => rand.single(t, sid, n));
      Enroll(courses);
    }

    /**
     * One pass of the loop of lines 70-77: the student registers (lines
     * 72-75) and the loop asks whether they have now graduated (line 76).
     * Only that student's record changes.
     */
    method Visit(simStudents: seq<Student>, studentID: nat, t: nat, rand: Random, ghost recs: seq<Record>)
      returns (graduated: bool, ghost recs': seq<Record>)
      requires Catalogued() && WithinCapacity() && WellFormed(policy.courseGraph)
      requires studentID < |simStudents|
      requires forall i, j :: 0 <= i < |simStudents| && 0 <= j < |simStudents| && i != j ==> simStudents[i] != simStudents[j]
      requires Pictured(simStudents, recs) && Sound(recs[studentID])
      modifies courseCatalog.Values, simStudents[studentID]
      ensures WithinCapacity() && Pictured(simStudents, recs')
      ensures |recs'| == |recs| && recs' == recs[studentID := recs'[studentID]] && Sound(recs'[studentID])
      ensures recs'[studentID].semesterCount == recs[studentID].semesterCount + 1
      ensures recs[studentID].courseTaken <= recs'[studentID].courseTaken
      ensures graduated == recs'[studentID].graduated
    {
      var student := simStudents[studentID];
      var courses := RegisterStudent(student, t, rand);
      graduated := student.IsGraduated();
      recs' := recs[studentID := Snapshot(student)];
    }

    /**
     * The state of the loop of lines 70-77 between two passes: the
     * bookkeeping, the records matching the students, and no course over
     * capacity.
     */
    ghost predicate Looping(simStudents: seq<Student>, order: seq<nat>, before: seq<Record>,
                            ids: seq<nat>, i: nat, j: nat, processed: seq<bool>, gone: seq<bool>, after: seq<Record>)
      reads courseCatalog.Values, simStudents
    {
      && Bookkeeping(order, before, ids, i, j, processed, gone, after)
      && Pictured(simStudents, after)
      && WithinCapacity()
    }

    /** One pass of the loop of lines 70-77, at the student the iterator stands on. */
    method Advance(simStudents: seq<Student>, order: seq<nat>, t: nat, rand: Random, ghost before: seq<Record>,
                   ids: seq<nat>, i: nat, ghost j: nat, ghost processed: seq<bool>, ghost gone: seq<bool>, ghost after: seq<Record>)
      returns (ids': seq<nat>, i': nat, ghost j': nat, ghost processed': seq<bool>, ghost gone': seq<bool>, ghost after': seq<Record>)
      requires Catalogued() && WellFormed(policy.courseGraph)
      requires forall a, b :: 0 <= a < |simStudents| && 0 <= b < |simStudents| && a != b ==> simStudents[a] != simStudents[b]
      requires Looping(simStudents, order, before, ids, i, j, processed, gone, after) && i < |ids|
      modifies courseCatalog.Values, simStudents
      ensures Bookkeeping(order, before, ids', i', j', processed', gone', after')
      ensures Pictured(simStudents, after')
      ensures WithinCapacity()
      ensures |ids'| - i' < |ids| - i
    {
      WalkAt(order, ids, i, j, processed, gone);
      var studentID := ids[i];
      var graduated;
      graduated, after' := Visit(simStudents, studentID, t, rand, after);
      // `studentIDs.remove(studentID)`: the ids are distinct, so this is the current position
      ids' := if graduated then ids[..i] + ids[i + 1..] else ids;
      i' := i + 1;
      j', processed', gone' := Pass(order, before, ids, i, j, processed, gone, after, after'[studentID]);
    }

    /**
     * The registration loop of one term (lines 70-77). Python's list
     * iterator walks positions while `studentIDs.remove` shifts the rest of
     * the list left, so the student right after one who graduates is not
     * visited this term. `processed[p]` says whether position `p` of `order`
     * was visited, `gone[p]` whether it was removed; `before` and `after`
     * are the students' records at the start and at the end of the term.
     */
    method RegisterTerm(simStudents: seq<Student>, order: seq<nat>, t: nat, rand: Random, ghost before: seq<Record>)
      returns (ids: seq<nat>, ghost processed: seq<bool>, ghost gone: seq<bool>, ghost after: seq<Record>)
      requires Catalogued() && WithinCapacity() && WellFormed(policy.courseGraph)
      requires Distinct(order) && forall p :: 0 <= p < |order| ==> order[p] < |simStudents|
      requires forall i, j :: 0 <= i < |simStudents| && 0 <= j < |simStudents| && i != j ==> simStudents[i] != simStudents[j]
      requires Pictured(simStudents, before) && forall k :: 0 <= k < |before| ==> Sound(before[k])
      modifies courseCatalog.Values, simStudents
      ensures WithinCapacity()
      ensures Pictured(simStudents, after) && forall k :: 0 <= k < |after| ==> Sound(after[k])
      ensures |processed| == |order| && |gone| == |order|
      ensures ids == Kept(order, gone)
      ensures forall p :: 0 <= p < |order| ==> (processed[p] <==> p == 0 || !gone[p - 1])
      ensures forall p :: 0 <= p < |order| ==> (gone[p] <==> processed[p] && after[order[p]].graduated)
      ensures forall p :: 0 <= p < |order| && processed[p] ==> after[order[p]].semesterCount == before[order[p]].semesterCount + 1
      ensures forall p :: 0 <= p < |order| && !processed[p] ==> after[order[p]] == before[order[p]]
      ensures forall k :: 0 <= k < |simStudents| && k !in order ==> after[k] == before[k]
      ensures forall k :: 0 <= k < |simStudents| ==> Grows(before[k], after[k])
    {
      ids := order;
      var i: nat := 0;
      ghost var j: nat := 0;
      processed, gone, after := [], [], before;
      WalkStart(order);
      while i < |ids|
        invariant Looping(simStudents, order, before, ids, i, j, processed, gone, after)
        decreases |ids| - i
      {
        ids, i, j, processed, gone, after := Advance(simStudents, order, t, rand, before, ids, i, j, processed, gone, after);
      }
      WalkDone(order, ids, i, j, processed, gone);
      ProgressDone(order, processed, gone, before, after);
    }

    /**
     * Line 64 of run_sim: admit the cohort of term `t`, the students with
     * ids `t * enrollmentRate` up to `(t + 1) * enrollmentRate - 1`, at the
     * positions equal to their ids.
     */
    static method AdmitTerm(simStudents: seq<Student>, enrollmentRate: nat, t: nat, ghost recs: seq<Record>)
      returns (simStudents': seq<Student>, ghost recs': seq<Record>)
      requires |simStudents| == t * enrollmentRate
      requires forall a, b :: 0 <= a < |simStudents| && 0 <= b < |simStudents| && a != b ==> simStudents[a] != simStudents[b]
      requires Pictured(simStudents, recs)
      ensures |simStudents'| == (t + 1) * enrollmentRate && simStudents'[..|simStudents|] == simStudents
      ensures forall i :: |simStudents| <= i < |simStudents'| ==> fresh(simStudents'[i]) && simStudents'[i].id == i && simStudents'[i].startTime == 0
      ensures forall a, b :: 0 <= a < |simStudents'| && 0 <= b < |simStudents'| && a != b ==> simStudents'[a] != simStudents'[b]
      ensures Pictured(simStudents', recs') && recs' == recs + seq(enrollmentRate, _ => Admitted)
    {
      assert enrollmentRate * (t + 1) == t * enrollmentRate + enrollmentRate;
      var cohort := Admit(t * enrollmentRate, enrollmentRate * (t + 1));
      simStudents' := simStudents + cohort;
      recs' := recs + seq(enrollmentRate, _ => Admitted);
      forall k | 0 <= k < |simStudents'|
        ensures Snapshot(simStudents'[k]) == recs'[k]
      {
        if k < |simStudents| {
          assert simStudents'[k] == simStudents[k] && recs'[k] == recs[k];
        } else {
          assert simStudents'[k] == cohort[k - |simStudents|] && recs'[k] == Admitted;
        }
      }
    }

    /**
     * Lines 64-68 of run_sim: the ids still listed followed by the new
     * cohort's ids, shuffled.
     */
    static method ListTerm(studentIDs: seq<nat>, enrollmentRate: nat, t: nat, rand: Random) returns (order: seq<nat>)
      requires Distinct(studentIDs) && forall p :: 0 <= p < |studentIDs| ==> studentIDs[p] < t * enrollmentRate
      ensures multiset(order) == multiset(studentIDs + Range(t * enrollmentRate, (t + 1) * enrollmentRate))
      ensures Distinct(order) && forall p :: 0 <= p < |order| ==> order[p] < (t + 1) * enrollmentRate
      ensures forall x :: x in order <==> x in studentIDs || t * enrollmentRate <= x < (t + 1) * enrollmentRate
    {
      var lo, hi := t * enrollmentRate, (t + 1) * enrollmentRate;
      var listed := studentIDs + Range(lo, hi);
      AppendRange(studentIDs, lo, hi);
      order := Shuffle(listed, (i: nat) => rand.swap(t, i));
      assert forall p :: 0 <= p < |order| ==> order[p] in listed;
      RangeMembers(lo, hi);
    }

    /**
     * Lines 70-77 of run_sim, summarised: every listed student registers or
     * is skipped; the ids still listed are distinct ids of students who have
     * not graduated, exactly those of `order` who have not graduated by its
     * end; a student not listed, in particular one who had graduated before
     * the term, is as before, and every student attends the term.
     */
    method RegisterAll(simStudents: seq<Student>, order: seq<nat>, t: nat, rand: Random, ghost before: seq<Record>)
      returns (ids: seq<nat>, ghost after: seq<Record>)
      requires Catalogued() && WithinCapacity() && WellFormed(policy.courseGraph)
      requires Distinct(order) && forall p :: 0 <= p < |order| ==> order[p] < |simStudents|
      requires forall i, j :: 0 <= i < |simStudents| && 0 <= j < |simStudents| && i != j ==> simStudents[i] != simStudents[j]
      requires Pictured(simStudents, before) && SoundWithin(before, t)
      requires forall p :: 0 <= p < |order| ==> !before[order[p]].graduated
      modifies courseCatalog.Values, simStudents
      ensures WithinCapacity()
      ensures Pictured(simStudents, after) && SoundWithin(after, t + 1)
      ensures Distinct(ids) && forall p :: 0 <= p < |ids| ==> ids[p] < |simStudents|
      ensures forall p :: 0 <= p < |ids| ==> !after[ids[p]].graduated
      ensures forall x: nat :: x in ids <==> x in order && x < |after| && !after[x].graduated
      ensures forall k :: 0 <= k < |before| && before[k].graduated ==> after[k] == before[k]
      ensures forall k :: 0 <= k < |before| && k !in order ==> after[k] == before[k]
      ensures forall k :: 0 <= k < |before| ==> Attends(before[k], after[k])
    {
      ghost var processed, gone;
      ids, processed, gone, after := RegisterTerm(simStudents, order, t, rand, before);
      KeptBelow(order, gone, |simStudents|);
      KeptDistinct(order, gone);
      KeptUngraduated(order, gone, processed, before, after);
      KeptExactly(order, gone, processed, before, after);
      forall k | 0 <= k < |before| && before[k].graduated
        ensures after[k] == before[k]
      {
        assert k !in order;
      }
    }

    /**
     * One term of run_sim (lines 62-79): admit and shuffle, let every listed
     * student register, and clear the counters. The ids listed are exactly
     * those of the students who have not graduated, before and after.
     */
    method RunTerm(simStudents: seq<Student>, studentIDs: seq<nat>, enrollmentRate: nat, t: nat, rand: Random, ghost recs: seq<Record>)
      returns (simStudents': seq<Student>, studentIDs': seq<nat>, ghost recs': seq<Record>)
      requires Valid()
      requires |simStudents| == t * enrollmentRate
      requires forall a, b :: 0 <= a < |simStudents| && 0 <= b < |simStudents| && a != b ==> simStudents[a] != simStudents[b]
      requires Pictured(simStudents, recs) && SoundWithin(recs, t) && Roster(studentIDs, recs)
      modifies courseCatalog.Values, simStudents
      ensures Valid()
      ensures |simStudents'| == (t + 1) * enrollmentRate && simStudents'[..|simStudents|] == simStudents
      ensures forall i :: |simStudents| <= i < |simStudents'| ==> fresh(simStudents'[i]) && simStudents'[i].id == i && simStudents'[i].startTime == 0
      ensures forall a, b :: 0 <= a < |simStudents'| && 0 <= b < |simStudents'| && a != b ==> simStudents'[a] != simStudents'[b]
      ensures Pictured(simStudents', recs') && SoundWithin(recs', t + 1) && Roster(studentIDs', recs')
      ensures TermStep(recs, recs')
    {
      ghost var admitted;
      simStudents', admitted := AdmitTerm(simStudents, enrollmentRate, t, recs);
      var order := ListTerm(studentIDs, enrollmentRate, t, rand);
      AdmittedSound(recs, enrollmentRate, t, admitted);
      forall p | 0 <= p < |order|
        ensures !admitted[order[p]].graduated
      {
        var x := order[p];
        if x in studentIDs {
          assert admitted[x] == recs[x];
        } else {
          assert admitted[x] == Admitted;
        }
      }
      studentIDs', recs' := RegisterAll(simStudents', order, t, rand, admitted);
      ResetCoursesEnrollment();
    }

    /**
     * run_sim (lines 54-80): `duration` terms of `enrollmentRate` new
     * students each. The student with id `i` is at position `i`; every
     * student's record is consistent, counts at most `duration` terms, and a
     * graduate counts at least five. `terms[u]` is every student's record at
     * the end of term `u`, reached from the records of the term before
     * (admission, for term 0) by one term: a record stays consistent, counts
     * at most one more term and keeps its courses, and a student who has
     * graduated is never registered again, so their record stays as it was.
     */
    method RunSim(enrollmentRate: nat, duration: nat, rand: Random)
      returns (simStudents: seq<Student>, ghost terms: seq<seq<Record>>)
      requires Valid()
      modifies courseCatalog.Values
      ensures Valid()
      ensures |simStudents| == duration * enrollmentRate
      ensures forall i :: 0 <= i < |simStudents| ==> fresh(simStudents[i]) && simStudents[i].id == i && simStudents[i].startTime == 0
      ensures forall a, b :: 0 <= a < |simStudents| && 0 <= b < |simStudents| && a != b ==> simStudents[a] != simStudents[b]
      ensures forall i :: 0 <= i < |simStudents| ==> simStudents[i].Valid() && simStudents[i].semesterCount <= duration
      ensures forall i :: 0 <= i < |simStudents| && simStudents[i].graduated ==> 5 <= simStudents[i].semesterCount
      ensures |terms| == duration && forall u :: 0 <= u < duration ==> |terms[u]| == (u + 1) * enrollmentRate
      ensures 0 < duration ==> Pictured(simStudents, terms[duration - 1])
      ensures Chained(terms) && Settled(terms)
    {
      simStudents := [];
      var studentIDs: seq<nat> := [];
      ghost var recs: seq<Record> := [];
      terms := [];
      for t := 0 to duration
        invariant Valid()
        invariant |simStudents| == t * enrollmentRate
        invariant forall i :: 0 <= i < |simStudents| ==> fresh(simStudents[i]) && simStudents[i].id == i && simStudents[i].startTime == 0
        invariant forall a, b :: 0 <= a < |simStudents| && 0 <= b < |simStudents| && a != b ==> simStudents[a] != simStudents[b]
        invariant Pictured(simStudents, recs) && SoundWithin(recs, t) && Roster(studentIDs, recs)
        invariant History(terms, recs, t, enrollmentRate)
      {
        ghost var recs';
        simStudents, studentIDs, recs' := RunTerm(simStudents, studentIDs, enrollmentRate, t, rand, recs);
        HistoryStep(terms, recs, recs', t, enrollmentRate);
        terms, recs := terms + [recs'], recs';
      }
      ChainedSettled(terms);
      forall i | 0 <= i < |simStudents|
        ensures simStudents[i].Valid() && simStudents[i].semesterCount <= duration
        ensures simStudents[i].graduated ==> 5 <= simStudents[i].semesterCount
      {
        assert Snapshot(simStudents[i]) == recs[i];
      }
    }

    /**
     * run_sim_replicates (lines 49-52): `replicates` independent runs, the
     * `r`-th drawing from `rands(r)`, each run's students appended to
     * `simulatedStudents`. The counters are cleared after every term, so
     * every run starts from empty courses.
     */
    method RunSimReplicates(replicates: nat, enrollmentRate: nat, duration: nat, rands: nat -> Random)
      requires Valid()
      modifies this, courseCatalog.Values
      ensures Valid()
      ensures |simulatedStudents| == |old(simulatedStudents)| + replicates
      ensures simulatedStudents[..|old(simulatedStudents)|] == old(simulatedStudents)
      ensures forall r :: |old(simulatedStudents)| <= r < |simulatedStudents| ==>
                |simulatedStudents[r]| == duration * enrollmentRate &&
                forall i :: 0 <= i < |simulatedStudents[r]| ==>
                  && simulatedStudents[r][i].id == i && simulatedStudents[r][i].semesterCount <= duration && simulatedStudents[r][i].Valid()
                  && (simulatedStudents[r][i].graduated ==> 5 <= simulatedStudents[r][i].semesterCount)
    {
      for r := 0 to replicates
        invariant Valid()
        invariant |simulatedStudents| == |old(simulatedStudents)| + r
        invariant simulatedStudents[..|old(simulatedStudents)|] == old(simulatedStudents)
        invariant forall q :: |old(simulatedStudents)| <= q < |simulatedStudents| ==>
                    |simulatedStudents[q]| == duration * enrollmentRate &&
                    forall i :: 0 <= i < |simulatedStudents[q]| ==>
                      && simulatedStudents[q][i].id == i && simulatedStudents[q][i].semesterCount <= duration && simulatedStudents[q][i].Valid()
                      && (simulatedStudents[q][i].graduated ==> 5 <= simulatedStudents[q][i].semesterCount)
      {
        var simulData, _ := RunSim(enrollmentRate, duration, rands(r));
        simulatedStudents := simulatedStudents + [simulData];
      }
    }
  }
}
