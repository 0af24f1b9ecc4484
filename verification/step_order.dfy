/**
 * The designer's ordering machinery: `compareStep`, the sort it drives, and
 * the find / filter / prepend / re-sort pattern every step edit goes through.
 */
module StepOrder {
  import opened Wrappers
  import opened Entities

  /** `compareStep`: a three-way comparison of two steps on `position`. */
  function CompareStep(a: Step, b: Step): (r: int)
    ensures r == -1 || r == 0 || r == 1
    ensures r < 0 <==> a.position < b.position
    ensures r > 0 <==> a.position > b.position
  {
    if a.position < b.position then -1
    else if a.position > b.position then 1
    else 0
  }

  /** Swapping the arguments of `compareStep` negates its answer. */
  lemma CompareStepAntisymmetric(a: Step, b: Step)
    ensures CompareStep(a, b) == -CompareStep(b, a)
    ensures CompareStep(a, b) == 0 <==> a.position == b.position
  {
  }

  /** Positions never decrease along the list. */
  predicate SortedByPosition(s: seq<Step>) {
    forall i, j :: 0 <= i < j < |s| ==> s[i].position <= s[j].position
  }

  /** Positions strictly increase along the list: the designer's invariant. */
  predicate StrictlyIncreasing(s: seq<Step>) {
    forall i, j :: 0 <= i < j < |s| ==> s[i].position < s[j].position
  }

  /** Some step of the list has position `pos`. */
  predicate HasPosition(s: seq<Step>, pos: int) {
    exists i :: 0 <= i < |s| && s[i].position == pos
  }

  /**
   * Inserts `x` before the first element `compareStep` does not rank below it.
   * Elements with the same position as `x` stay behind it.
   */
  function Insert(x: Step, ys: seq<Step>): (r: seq<Step>)
    ensures |r| == |ys| + 1
  {
    if |ys| == 0 then [x]
    else if CompareStep(x, ys[0]) <= 0 then [x] + ys
    else [ys[0]] + Insert(x, ys[1..])
  }

  /** Inserting adds `x` and keeps every element of `ys`: a permutation. */
  lemma {:induction false} InsertPermutes(x: Step, ys: seq<Step>)
    ensures multiset(Insert(x, ys)) == multiset(ys) + multiset{x}
  {
    if |ys| > 0 && CompareStep(x, ys[0]) > 0 {
      InsertPermutes(x, ys[1..]);
      assert ys == [ys[0]] + ys[1..];
    }
  }

  /** A lower bound on `x` and on every element of `ys` bounds every element of the insertion. */
  lemma {:induction false} InsertAbove(x: Step, ys: seq<Step>, lo: int)
    requires lo <= x.position
    requires forall i :: 0 <= i < |ys| ==> lo <= ys[i].position
    ensures forall i :: 0 <= i < |Insert(x, ys)| ==> lo <= Insert(x, ys)[i].position
  {
    if |ys| > 0 && CompareStep(x, ys[0]) > 0 {
      InsertAbove(x, ys[1..], lo);
    }
  }

  /** Inserting into a sorted list keeps it sorted. */
  lemma {:induction false} InsertSorted(x: Step, ys: seq<Step>)
    requires SortedByPosition(ys)
    ensures SortedByPosition(Insert(x, ys))
  {
    if |ys| > 0 && CompareStep(x, ys[0]) > 0 {
      var tail := Insert(x, ys[1..]);
      InsertSorted(x, ys[1..]);
      InsertAbove(x, ys[1..], ys[0].position);
      var r := [ys[0]] + tail;
      forall i, j | 0 <= i < j < |r|
        ensures r[i].position <= r[j].position
      {
        assert r[j] == tail[j - 1];
        if i > 0 {
          assert r[i] == tail[i - 1];
        }
      }
    }
  }

  /**
   * `sort(compareStep)`, as an insertion sort by position. The lists the
   * designer sorts never hold two steps with the same position (see
   * `DesignerSession.ReplayWellFormed`), so ties never arise, and on those
   * lists `ReinsertReplaces` fixes the exact output.
   */
  function SortSteps(xs: seq<Step>): (r: seq<Step>)
    ensures SortedByPosition(r)
    ensures |r| == |xs|
  {
    if |xs| == 0 then []
    else
      var rest := SortSteps(xs[1..]);
      InsertSorted(xs[0], rest);
      Insert(xs[0], rest)
  }

  /** The sort only reorders: its result is a permutation of its input. */
  lemma {:induction false} SortStepsPermutes(xs: seq<Step>)
    ensures multiset(SortSteps(xs)) == multiset(xs)
  {
    if |xs| > 0 {
      SortStepsPermutes(xs[1..]);
      InsertPermutes(xs[0], SortSteps(xs[1..]));
      assert xs == [xs[0]] + xs[1..];
      assert multiset(xs) == multiset{xs[0]} + multiset(xs[1..]);
    }
  }

  /** Inserting `x` between a prefix below it and a suffix not below it. */
  lemma {:induction false} InsertBetween(x: Step, a: seq<Step>, b: seq<Step>)
    requires forall i :: 0 <= i < |a| ==> a[i].position < x.position
    requires |b| > 0 ==> x.position <= b[0].position
    ensures Insert(x, a + b) == a + [x] + b
  {
    if |a| > 0 {
      assert (a + b)[0] == a[0];
      assert (a + b)[1..] == a[1..] + b;
      InsertBetween(x, a[1..], b);
      assert a == [a[0]] + a[1..];
    }
  }

  /** Sorting a list that is already sorted gives it back unchanged. */
  lemma {:induction false} SortSortedIsIdentity(xs: seq<Step>)
    requires SortedByPosition(xs)
    ensures SortSteps(xs) == xs
  {
    if |xs| > 0 {
      SortSortedIsIdentity(xs[1..]);
      InsertBetween(xs[0], [], xs[1..]);
      assert [] + xs[1..] == xs[1..];
      assert [] + [xs[0]] + xs[1..] == xs;
    }
  }

  /** `find` by position: the index of the first step with position `pos`. */
  function FindPosition(steps: seq<Step>, pos: int): (r: Option<nat>)
    ensures r.None? <==> !HasPosition(steps, pos)
    ensures r.Some? ==> r.value < |steps| && steps[r.value].position == pos
    ensures r.Some? ==> forall j :: 0 <= j < r.value ==> steps[j].position != pos
  {
    if |steps| == 0 then None
    else if steps[0].position == pos then Some(0)
    else
      match FindPosition(steps[1..], pos)
      case None =>
        assert forall i :: 1 <= i < |steps| ==> steps[i] == steps[1..][i - 1];
        None
      case Some(i) => Some(i + 1)
  }

  /** With unique positions, `find` lands on the one step holding the position. */
  lemma FindPositionUnique(steps: seq<Step>, k: int)
    requires StrictlyIncreasing(steps)
    requires 0 <= k < |steps|
    ensures FindPosition(steps, steps[k].position) == Some(k)
  {
    var r := FindPosition(steps, steps[k].position);
    assert r.Some?;
    assert !(r.value < k);
    assert !(r.value > k);
  }

  /** `filter` by position: every step whose position is not `pos`, in order. */
  function WithoutPosition(steps: seq<Step>, pos: int): (r: seq<Step>)
    ensures |r| <= |steps|
    ensures forall i :: 0 <= i < |r| ==> r[i].position != pos
  {
    if |steps| == 0 then []
    else if steps[0].position == pos then WithoutPosition(steps[1..], pos)
      else [steps[0]] + WithoutPosition(steps[1..], pos)
  }

  /**
   * The filter keeps exactly the steps whose position is not `pos`. With
   * duplicate positions every step holding `pos` is dropped, not only the
   * one `find` returned.
   */
  lemma {:induction false} WithoutPositionKeepsOthers(steps: seq<Step>, pos: int)
    ensures forall s :: s in WithoutPosition(steps, pos) <==> s in steps && s.position != pos
  {
    if |steps| > 0 {
      WithoutPositionKeepsOthers(steps[1..], pos);
      assert steps == [steps[0]] + steps[1..];
    }
  }

  /** Filtering out a position nobody holds changes nothing. */
  lemma {:induction false} WithoutAbsentPosition(steps: seq<Step>, pos: int)
    requires forall i :: 0 <= i < |steps| ==> steps[i].position != pos
    ensures WithoutPosition(steps, pos) == steps
  {
    if |steps| > 0 {
      WithoutAbsentPosition(steps[1..], pos);
      assert steps == [steps[0]] + steps[1..];
    }
  }

  /** With unique positions, the filter drops exactly the step at index `k`. */
  lemma {:induction false} WithoutPositionDropsOne(steps: seq<Step>, k: int)
    requires StrictlyIncreasing(steps)
    requires 0 <= k < |steps|
    ensures WithoutPosition(steps, steps[k].position) == steps[..k] + steps[k + 1..]
  {
    var pos := steps[k].position;
    if k == 0 {
      WithoutAbsentPosition(steps[1..], pos);
    } else {
      var tail := steps[1..];
      assert tail[k - 1] == steps[k];
      assert StrictlyIncreasing(tail);
      WithoutPositionDropsOne(tail, k - 1);
      assert tail[..k - 1] + tail[k..] == steps[1..k] + steps[k + 1..];
      assert steps[..k] == [steps[0]] + steps[1..k];
    }
  }

  /**
   * The edit pattern shared by every step edit: drop the steps holding `pos`,
   * put the modified step `m` in front, and sort with `compareStep`.
   */
  function Reinsert(steps: seq<Step>, pos: int, m: Step): (r: seq<Step>)
    ensures SortedByPosition(r)
    ensures |r| <= |steps| + 1
  {
    SortSteps([m] + WithoutPosition(steps, pos))
  }

  /** Prepend-and-sort loses nothing: the result is a permutation of `m` and the filtered steps. */
  lemma ReinsertPermutes(steps: seq<Step>, pos: int, m: Step)
    ensures multiset(Reinsert(steps, pos, m)) == multiset([m] + WithoutPosition(steps, pos))
  {
    SortStepsPermutes([m] + WithoutPosition(steps, pos));
  }

  /** Dropping one step from a strictly increasing list leaves it sorted. */
  lemma DropOneSorted(steps: seq<Step>, k: int)
    requires StrictlyIncreasing(steps)
    requires 0 <= k < |steps|
    ensures SortedByPosition(steps[..k] + steps[k + 1..])
  {
    var rest := steps[..k] + steps[k + 1..];
    forall i, j | 0 <= i < j < |rest|
      ensures rest[i].position <= rest[j].position
    {
      var i' := if i < k then i else i + 1;
      var j' := if j < k then j else j + 1;
      assert rest[i] == steps[i'] && rest[j] == steps[j'];
    }
  }

  /** Replacing a step by one at the same position keeps positions strictly increasing. */
  lemma ReplaceKeepsStrict(steps: seq<Step>, k: int, m: Step)
    requires StrictlyIncreasing(steps)
    requires 0 <= k < |steps|
    requires m.position == steps[k].position
    ensures StrictlyIncreasing(steps[k := m])
  {
    var r := steps[k := m];
    assert forall i :: 0 <= i < |r| ==> r[i].position == steps[i].position;
  }

  /**
   * On a list with unique positions, re-inserting a modified step that keeps
   * its position is a replacement in place: no other step moves or changes.
   */
  lemma ReinsertReplaces(steps: seq<Step>, k: int, m: Step)
    requires StrictlyIncreasing(steps)
    requires 0 <= k < |steps|
    requires m.position == steps[k].position
    ensures Reinsert(steps, steps[k].position, m) == steps[k := m]
    ensures StrictlyIncreasing(steps[k := m])
  {
    var rest := steps[..k] + steps[k + 1..];
    WithoutPositionDropsOne(steps, k);
    DropOneSorted(steps, k);
    SortSortedIsIdentity(rest);
    assert ([m] + rest)[1..] == rest;
    InsertBetween(m, steps[..k], steps[k + 1..]);
    assert steps[..k] + [m] + steps[k + 1..] == steps[k := m];
    ReplaceKeepsStrict(steps, k, m);
  }
}
