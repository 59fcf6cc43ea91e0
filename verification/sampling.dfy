/** Choice of the slices shown to the classifier: a step that grows with the
    depth of the volume, and a quartile plan that samples the two middle
    quartiles twice as densely as the outer two. */
module Sampling {

  /** The six-band step table of `select_step`. */
  function SelectStep(nSlices: int): (step: int)
    ensures step in {1, 2, 4, 6, 8, 10}
    ensures nSlices < 50 ==> step == 1
    ensures nSlices >= 600 ==> step == 10
  {
    if nSlices < 50 then 1
    else if nSlices < 100 then 2
    else if nSlices < 200 then 4
    else if nSlices < 400 then 6
    else if nSlices < 600 then 8
    else 10
  }

  /** A deeper volume is never sampled with a smaller step. */
  lemma SelectStepMonotonic(m: int, n: int)
    requires m <= n
    ensures SelectStep(m) <= SelectStep(n)
  {
  }

  function Max(a: int, b: int): int {
    if a >= b then a else b
  }

  /** Python's `range(start, stop, step)` for a non-zero step. */
  function PyRange(start: int, stop: int, step: int): (r: seq<int>)
    requires step != 0
    ensures step > 0 ==> forall x :: x in r <==> start <= x < stop && (x - start) % step == 0
    ensures step < 0 ==> forall x :: x in r <==> stop < x <= start && (start - x) % (-step) == 0
    ensures step > 0 ==> forall i, j :: 0 <= i < j < |r| ==> r[i] < r[j]
    decreases if step > 0 then stop - start else start - stop
  {
    if (step > 0 && start >= stop) || (step < 0 && start <= stop) then []
    else
      var rest := PyRange(start + step, stop, step);
      if step > 0 then
        RangeUpStep(start, stop, step, rest);
        [start] + rest
      else
        RangeDownStep(start, stop, step, rest);
        [start] + rest
  }

  lemma RangeUpStep(start: int, stop: int, step: int, rest: seq<int>)
    requires 0 < step && start < stop
    requires forall x :: x in rest <==> start + step <= x < stop && (x - (start + step)) % step == 0
    requires forall i, j :: 0 <= i < j < |rest| ==> rest[i] < rest[j]
    ensures forall x :: x in [start] + rest <==> start <= x < stop && (x - start) % step == 0
    ensures forall i, j :: 0 <= i < j < |[start] + rest| ==> ([start] + rest)[i] < ([start] + rest)[j]
  {
    forall x ensures x in [start] + rest <==> start <= x < stop && (x - start) % step == 0 {
      ModStep(x - start, step);
    }
    forall i, j | 0 <= i < j < |[start] + rest| ensures ([start] + rest)[i] < ([start] + rest)[j] {
      assert ([start] + rest)[j] == rest[j - 1];
      if i == 0 {
        assert rest[j - 1] in rest;
      } else {
        assert ([start] + rest)[i] == rest[i - 1];
      }
    }
  }

  lemma RangeDownStep(start: int, stop: int, step: int, rest: seq<int>)
    requires step < 0 && stop < start
    requires forall x :: x in rest <==> stop < x <= start + step && (start + step - x) % (-step) == 0
    ensures forall x :: x in [start] + rest <==> stop < x <= start && (start - x) % (-step) == 0
  {
    forall x ensures x in [start] + rest <==> stop < x <= start && (start - x) % (-step) == 0 {
      ModStep(start - x, -step);
    }
  }

  lemma MulMono(p: int, a: int, b: int)
    requires p > 0 && a < b
    ensures p * a + p <= p * b
  {
    var c := b - a;
    assert c >= 1;
    assert p * b == p * a + p * c;
    assert p * c >= p;
  }

  /** Euclidean division is unique. */
  lemma DivModUnique(d: int, p: int, q: int, r: int)
    requires p > 0 && 0 <= r < p && d == p * q + r
    ensures d / p == q && d % p == r
  {
    var q', r' := d / p, d % p;
    assert d == p * q' + r';
    if q < q' {
      MulMono(p, q, q');
      assert false;
    } else if q' < q {
      MulMono(p, q', q);
      assert false;
    }
  }

  /** Stepping one period forward keeps the residue; a positive multiple of
      the period is at least the period. */
  lemma ModStep(d: int, p: int)
    requires p > 0
    ensures (d - p) % p == d % p
    ensures d > 0 && d % p == 0 ==> d >= p
  {
    var q, r := d / p, d % p;
    assert d == p * q + r;
    assert d - p == p * (q - 1) + r;
    DivModUnique(d - p, p, q - 1, r);
    if d > 0 && r == 0 {
      if q <= 0 {
        MulMono(p, q, 1);
      }
      MulMono(p, 0, q);
    }
  }

  /** The elements of a range, as `set.update` adds them. */
  function Elems(r: seq<int>): set<int> {
    set x | x in r
  }

  /** The set `quartile_sample_indices` collects before sorting. A step of 0
      is read as 1; the middle quartiles use half the step, at least 1. */
  function QuartileSet(nFiles: nat, step: int): set<int> {
    var n := if step == 0 then 1 else step;
    var half := Max(1, n / 2);
    var q1, q2, q3 := nFiles / 4, nFiles / 2, (3 * nFiles) / 4;
    var idx := Elems(PyRange(0, q1, n)) + Elems(PyRange(q1, q2, half))
             + Elems(PyRange(q2, q3, half)) + Elems(PyRange(q3, nFiles, n));
    if nFiles > 0 then idx + {nFiles - 1} else idx
  }

  /** Reference description of the plan, one arithmetic condition per
      quartile, independent of how the ranges are enumerated. */
  predicate InPlan(nFiles: nat, step: int, x: int) {
    var n := if step == 0 then 1 else step;
    var half := Max(1, n / 2);
    var q1, q2, q3 := nFiles / 4, nFiles / 2, (3 * nFiles) / 4;
    || (n > 0 && 0 <= x < q1 && x % n == 0)
    || (q1 <= x < q2 && (x - q1) % half == 0)
    || (q2 <= x < q3 && (x - q2) % half == 0)
    || (n > 0 && q3 <= x < nFiles && (x - q3) % n == 0)
    || (nFiles > 0 && x == nFiles - 1)
  }

  /** The quartile boundaries are ordered and inside the volume. */
  lemma QuartileBounds(nFiles: nat)
    ensures 0 <= nFiles / 4 <= nFiles / 2 <= (3 * nFiles) / 4 <= nFiles
  {
  }

  /** Membership in a range, for the ranges the plan builds: a negative step
      only ever appears with a start not below the stop, giving nothing. */
  lemma RangeMember(start: int, stop: int, step: int, x: int)
    requires step != 0
    requires step < 0 ==> start <= stop
    ensures x in Elems(PyRange(start, stop, step)) <==> step > 0 && start <= x < stop && (x - start) % step == 0
  {
  }

  lemma QuartileSetIsPlan(nFiles: nat, step: int)
    ensures forall x :: x in QuartileSet(nFiles, step) <==> InPlan(nFiles, step, x)
    ensures forall x :: x in QuartileSet(nFiles, step) ==> 0 <= x < nFiles
  {
    var n := if step == 0 then 1 else step;
    var half := Max(1, n / 2);
    var q1, q2, q3 := nFiles / 4, nFiles / 2, (3 * nFiles) / 4;
    QuartileBounds(nFiles);
    forall x ensures x in QuartileSet(nFiles, step) <==> InPlan(nFiles, step, x) {
      RangeMember(0, q1, n, x);
      RangeMember(q1, q2, half, x);
      RangeMember(q2, q3, half, x);
      RangeMember(q3, nFiles, n, x);
    }
  }

  /** The members of `s` below `n`, in ascending order: what `sorted(list(s))`
      returns for a set of indices inside `[0, n)`. */
  function AscendingMembers(s: set<int>, n: nat): (r: seq<int>)
    ensures forall i :: 0 <= i < |r| ==> 0 <= r[i] < n
    ensures forall i, j :: 0 <= i < j < |r| ==> r[i] < r[j]
    ensures forall x :: x in r <==> x in s && 0 <= x < n
  {
    if n == 0 then []
    else AscendingMembers(s, n - 1) + (if n - 1 in s then [n - 1] else [])
  }

  predicate StrictlyAscending(r: seq<int>) {
    forall i, j :: 0 <= i < j < |r| ==> r[i] < r[j]
  }

  /** `quartile_sample_indices(n_files, step)`. */
  function QuartileSampleIndices(nFiles: nat, step: int): (r: seq<int>)
    ensures StrictlyAscending(r)
    ensures forall x :: x in r <==> InPlan(nFiles, step, x)
    ensures forall i :: 0 <= i < |r| ==> 0 <= r[i] < nFiles
  {
    QuartileSetIsPlan(nFiles, step);
    AscendingMembers(QuartileSet(nFiles, step), nFiles)
  }

  /** The plan is empty exactly for an empty volume; otherwise it ends with
      the last slice. */
  lemma PlanEndsWithLastSlice(nFiles: nat, step: int)
    ensures |QuartileSampleIndices(nFiles, step)| == 0 <==> nFiles == 0
    ensures nFiles > 0 ==> QuartileSampleIndices(nFiles, step)[|QuartileSampleIndices(nFiles, step)| - 1] == nFiles - 1
  {
    var r := QuartileSampleIndices(nFiles, step);
    if nFiles > 0 {
      assert InPlan(nFiles, step, nFiles - 1);
      assert nFiles - 1 in r;
      var k :| 0 <= k < |r| && r[k] == nFiles - 1;
      assert r[|r| - 1] < nFiles;
      if k < |r| - 1 {
        assert false;
      }
    }
  }

  /** A step of 0 is treated as a step of 1. */
  lemma ZeroStepIsUnitStep(nFiles: nat)
    ensures QuartileSampleIndices(nFiles, 0) == QuartileSampleIndices(nFiles, 1)
  {
    QuartileSetIsPlan(nFiles, 0);
    QuartileSetIsPlan(nFiles, 1);
    assert QuartileSet(nFiles, 0) == QuartileSet(nFiles, 1);
  }

  /** With a non-negative step the first slice is always sampled. */
  lemma PlanStartsWithFirstSlice(nFiles: nat, step: int)
    requires nFiles > 0 && step >= 0
    ensures QuartileSampleIndices(nFiles, step)[0] == 0
  {
    var r := QuartileSampleIndices(nFiles, step);
    assert InPlan(nFiles, step, 0);
    assert 0 in r;
  }

  /** The plan `run_inference` uses for a volume of `nSlices` slices. */
  function PlanSlices(nSlices: nat): seq<int> {
    QuartileSampleIndices(nSlices, SelectStep(nSlices))
  }
}
