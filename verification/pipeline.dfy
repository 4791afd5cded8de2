/** How the pieces fit together: the "25 + 6k" reducers produce series every
    rule accepts, and the error table of a complete result set has exactly
    the two Simpson methods in it. */
module Pipeline {
  import opened Wrappers
  import opened RowCount
  import opened Truncation
  import opened Reduction
  import opened Quadrature
  import opened Integration
  import opened RelativeErrors

  /** A truncated series of at least 7 rows, on any equally spaced time axis,
      gets a value from every rule. */
  lemma TruncatedSeriesHasEveryMethod<T>(rows: seq<T>, x: seq<real>, y: seq<real>)
    requires |rows| >= 1 && Truncate(rows).Written?
    requires |x| == |y| == |Truncate(rows).rows| >= 7 && EquallySpaced(x)
    ensures IntegrateAll(x, y).Success?
    ensures forall i :: 0 <= i < 3 ==> IntegrateAll(x, y).value[i].1.Some?
  {
    AdmissibleSeriesHasEveryMethod(x, y);
  }

  /** The admissible count 1 is the exception: a 6-row frame is cut to its
      first row, and a one-point series fails the trapezoid rule, so no
      method gets a value. */
  lemma SixRowFrameLeavesOnePoint<T>(rows: seq<T>, x: seq<real>, y: seq<real>)
    requires |rows| == 6 && |x| == |y| == 1
    ensures Truncate(rows) == Written(rows[..1])
    ensures IntegrateAll(x, y) == Failure(TooFewPoints(2))
  {
    TruncateKeepsMaxPrefix(rows);
  }

  /** The same holds for the output of the percentage reducer, whose length
      is `MaxValidRows` of the selected count. */
  lemma ReducedSeriesHasEveryMethod<T>(rows: seq<T>, p: real, x: seq<real>, y: seq<real>)
    requires 0.0 <= p < 100.0 && SelectedCount(|rows|, p) >= 1
    requires |x| == |y| == MaxValidRows(SelectedCount(|rows|, p)) >= 7 && EquallySpaced(x)
    ensures RemovePercentage(rows, p).Success? && |RemovePercentage(rows, p).value| == |x|
    ensures IntegrateAll(x, y).Success?
    ensures forall i :: 0 <= i < 3 ==> IntegrateAll(x, y).value[i].1.Some?
  {
    AdmissibleSeriesHasEveryMethod(x, y);
  }

  /** The three method names form a dict with no "_pct" clash. */
  lemma ResultNamesAreClashFree(x: seq<real>, y: seq<real>)
    requires IntegrateAll(x, y).Success?
    ensures DistinctKeys(IntegrateAll(x, y).value)
    ensures NoPctClash(IntegrateAll(x, y).value)
  {
    var e := IntegrateAll(x, y).value;
    assert KeysOf(e) == [TrapezoidName, Simpson13Name, Simpson38Name];
    forall j, k | 0 <= j < |e| && 0 <= k < |e|
      ensures e[j].0 != e[k].0 + PctSuffix
    {
      assert |e[k].0 + PctSuffix| >= 13;
      assert e[j].0 == KeysOf(e)[j];
    }
  }

  /** When every rule applied, the error table has exactly the keys
      "Simpson 1/3", "Simpson 1/3_pct", "Simpson 3/8" and "Simpson 3/8_pct",
      holding each Simpson result's error against the reference. */
  lemma CompleteResultsErrorTable(x: seq<real>, y: seq<real>, ref: real)
    requires ref != 0.0
    requires IntegrateAll(x, y).Success?
    requires forall i :: 0 <= i < 3 ==> IntegrateAll(x, y).value[i].1.Some?
    ensures ComputeErrors(IntegrateAll(x, y).value, ref).Success?
    ensures ComputeErrors(IntegrateAll(x, y).value, ref).value.Keys
         == {Simpson13Name, Simpson13Name + PctSuffix, Simpson38Name, Simpson38Name + PctSuffix}
    ensures ComputeErrors(IntegrateAll(x, y).value, ref).value[Simpson13Name]
         == RelativeError(Simpson13(x, y).value, ref)
    ensures ComputeErrors(IntegrateAll(x, y).value, ref).value[Simpson13Name + PctSuffix]
         == 100.0 * RelativeError(Simpson13(x, y).value, ref)
    ensures ComputeErrors(IntegrateAll(x, y).value, ref).value[Simpson38Name]
         == RelativeError(Simpson38(x, y).value, ref)
    ensures ComputeErrors(IntegrateAll(x, y).value, ref).value[Simpson38Name + PctSuffix]
         == 100.0 * RelativeError(Simpson38(x, y).value, ref)
  {
    var e := IntegrateAll(x, y).value;
    assert KeysOf(e) == [TrapezoidName, Simpson13Name, Simpson38Name];
    assert e[0].0 == TrapezoidName && e[1].0 == Simpson13Name && e[2].0 == Simpson38Name;
    assert !MissingAt(e, 0) && !MissingAt(e, 1) && !MissingAt(e, 2);
    ResultNamesAreClashFree(x, y);
    var keys := KeysFrom(e, 0);
    assert keys == {Simpson13Name, Simpson13Name + PctSuffix, Simpson38Name, Simpson38Name + PctSuffix} by {
      forall k | k in keys
        ensures k in {Simpson13Name, Simpson13Name + PctSuffix, Simpson38Name, Simpson38Name + PctSuffix}
      {
      }
      assert Simpson13Name == e[1].0 && Simpson38Name == e[2].0;
    }
    ComputeErrorsValues(e, ref, 1);
    ComputeErrorsValues(e, ref, 2);
  }

  /** A `None` recorded for a Simpson rule makes the error computation fail
      on the first such entry: Simpson 1/3 comes before Simpson 3/8. */
  lemma MissingSimpsonAborts(x: seq<real>, y: seq<real>, ref: real)
    requires ref != 0.0
    requires IntegrateAll(x, y).Success?
    ensures Simpson13(x, y).Failure? ==>
              ComputeErrors(IntegrateAll(x, y).value, ref) == Failure(MissingValue(Simpson13Name))
    ensures Simpson38(x, y).Failure? ==> ComputeErrors(IntegrateAll(x, y).value, ref).Failure?
    ensures Simpson13(x, y).Success? && Simpson38(x, y).Failure? ==>
              ComputeErrors(IntegrateAll(x, y).value, ref) == Failure(MissingValue(Simpson38Name))
  {
    var e := IntegrateAll(x, y).value;
    assert KeysOf(e) == [TrapezoidName, Simpson13Name, Simpson38Name];
    assert e[0].0 == TrapezoidName && e[1].0 == Simpson13Name && e[2].0 == Simpson38Name;
    assert !MissingAt(e, 0);
    if Simpson13(x, y).Failure? {
      assert MissingAt(e, 1);
    }
    if Simpson38(x, y).Failure? {
      assert MissingAt(e, 2);
    }
  }
}
