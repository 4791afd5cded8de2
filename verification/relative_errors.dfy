/** `calcular_errores` (src/integration/errors.py): relative and percentage
    error of every method except "Trapecios" against a reference value the
    caller passes in. */
module RelativeErrors {
  import opened Wrappers
  import opened Integration

  /** Subtracting from `None` raises a `TypeError` in the source; the model
      names the method whose value was missing. */
  datatype ErrorsFailure = MissingValue(name: string)

  const PctSuffix: string := "_pct"

  function Abs(v: real): (a: real)
    ensures a >= 0.0 && (a == v || a == -v)
  {
    if v < 0.0 then -v else v
  }

  /** |v − ref| / |ref|. */
  function RelativeError(v: real, ref: real): (e: real)
    requires ref != 0.0
    ensures e >= 0.0
    ensures e == 0.0 <==> v == ref
    ensures e * Abs(ref) == Abs(v - ref)
  {
    Abs(v - ref) / Abs(ref)
  }

  /** The source's loop from item `i` on, with the dict built so far in `acc`. */
  function ErrorsFrom(items: Entries, i: nat, ref: real, acc: map<string, real>)
    : Result<map<string, real>, ErrorsFailure>
    requires ref != 0.0 && i <= |items|
    decreases |items| - i
  {
    if i == |items| then Success(acc)
    else if items[i].0 == TrapezoidName then ErrorsFrom(items, i + 1, ref, acc)
    else match items[i].1
      case None => Failure(MissingValue(items[i].0))
      case Some(v) =>
        var e := RelativeError(v, ref);
        ErrorsFrom(items, i + 1, ref, acc[items[i].0 := e][items[i].0 + PctSuffix := e * 100.0])
  }

  /** Item `j` is a method other than "Trapecios" whose value is `None`. */
  predicate MissingAt(items: Entries, j: int) {
    0 <= j < |items| && items[j].0 != TrapezoidName && items[j].1.None?
  }

  /** The keys the loop writes from item `i` on: `m` and `m + "_pct"` for each
      method `m` other than "Trapecios". */
  ghost function KeysFrom(items: Entries, i: nat): set<string> {
    (set j | i <= j < |items| && items[j].0 != TrapezoidName :: items[j].0)
    + (set j | i <= j < |items| && items[j].0 != TrapezoidName :: items[j].0 + PctSuffix)
  }

  /** The loop fails exactly when some later item is missing, and then it
      names the first one. */
  lemma {:induction false} ErrorsFromFailure(items: Entries, i: nat, ref: real, acc: map<string, real>)
    requires ref != 0.0 && i <= |items|
    ensures ErrorsFrom(items, i, ref, acc).Failure? <==> exists j :: i <= j && MissingAt(items, j)
    ensures ErrorsFrom(items, i, ref, acc).Failure? ==>
              exists j :: i <= j && MissingAt(items, j)
                && ErrorsFrom(items, i, ref, acc).error == MissingValue(items[j].0)
                && forall k :: i <= k < j ==> !MissingAt(items, k)
    decreases |items| - i
  {
    if i < |items| {
      if items[i].0 == TrapezoidName || items[i].1.Some? {
        var acc' := if items[i].0 == TrapezoidName then acc
                    else var e := RelativeError(items[i].1.value, ref);
                         acc[items[i].0 := e][items[i].0 + PctSuffix := e * 100.0];
        ErrorsFromFailure(items, i + 1, ref, acc');
        assert !MissingAt(items, i);
      } else {
        assert MissingAt(items, i);
      }
    }
  }

  lemma KeysFromStep(items: Entries, i: nat)
    requires i < |items|
    ensures items[i].0 == TrapezoidName ==> KeysFrom(items, i) == KeysFrom(items, i + 1)
    ensures items[i].0 != TrapezoidName ==>
              KeysFrom(items, i) == {items[i].0, items[i].0 + PctSuffix} + KeysFrom(items, i + 1)
  {
    var t1 := set j | i <= j < |items| && items[j].0 != TrapezoidName :: items[j].0;
    var t2 := set j | i + 1 <= j < |items| && items[j].0 != TrapezoidName :: items[j].0;
    var p1 := set j | i <= j < |items| && items[j].0 != TrapezoidName :: items[j].0 + PctSuffix;
    var p2 := set j | i + 1 <= j < |items| && items[j].0 != TrapezoidName :: items[j].0 + PctSuffix;
    if items[i].0 == TrapezoidName {
      assert t1 == t2;
      assert p1 == p2;
    } else {
      assert t1 == {items[i].0} + t2;
      assert p1 == {items[i].0 + PctSuffix} + p2;
    }
  }

  /** A successful loop writes exactly the keys of `KeysFrom` on top of `acc`,
      and leaves every other entry of `acc` as it was. */
  lemma {:induction false} ErrorsFromKeys(items: Entries, i: nat, ref: real, acc: map<string, real>)
    requires ref != 0.0 && i <= |items|
    requires ErrorsFrom(items, i, ref, acc).Success?
    ensures ErrorsFrom(items, i, ref, acc).value.Keys == acc.Keys + KeysFrom(items, i)
    ensures forall k :: k in acc && k !in KeysFrom(items, i) ==>
              ErrorsFrom(items, i, ref, acc).value[k] == acc[k]
    decreases |items| - i
  {
    if i == |items| {
      assert KeysFrom(items, i) == {};
    } else {
      KeysFromStep(items, i);
      if items[i].0 == TrapezoidName {
        ErrorsFromKeys(items, i + 1, ref, acc);
      } else {
        var e := RelativeError(items[i].1.value, ref);
        var acc' := acc[items[i].0 := e][items[i].0 + PctSuffix := e * 100.0];
        ErrorsFromKeys(items, i + 1, ref, acc');
      }
    }
  }

  /** The items form a dict: no key occurs twice. */
  predicate DistinctKeys(items: Entries) {
    forall j, k :: 0 <= j < k < |items| ==> items[j].0 != items[k].0
  }

  /** No method's name is another method's name followed by "_pct", so no
      percentage entry overwrites a relative one. */
  predicate NoPctClash(items: Entries) {
    forall j, k :: 0 <= j < |items| && 0 <= k < |items| ==> items[j].0 != items[k].0 + PctSuffix
  }

  lemma AppendCancel(a: string, b: string, s: string)
    requires a + s == b + s
    ensures a == b
  {
    assert |a| == |b|;
    assert a == (a + s)[..|a|];
    assert b == (b + s)[..|b|];
  }

  /** For a clash-free dict, each method's entries are its own errors. */
  lemma {:induction false} ErrorsFromValues(items: Entries, i: nat, ref: real, acc: map<string, real>, j: nat)
    requires ref != 0.0 && i <= j < |items|
    requires DistinctKeys(items) && NoPctClash(items)
    requires ErrorsFrom(items, i, ref, acc).Success?
    requires items[j].0 != TrapezoidName && items[j].1.Some?
    ensures items[j].0 in ErrorsFrom(items, i, ref, acc).value
    ensures items[j].0 + PctSuffix in ErrorsFrom(items, i, ref, acc).value
    ensures ErrorsFrom(items, i, ref, acc).value[items[j].0] == RelativeError(items[j].1.value, ref)
    ensures ErrorsFrom(items, i, ref, acc).value[items[j].0 + PctSuffix]
         == 100.0 * RelativeError(items[j].1.value, ref)
    decreases |items| - i
  {
    var m := items[i].0;
    var next := if m == TrapezoidName then acc
                else var e := RelativeError(items[i].1.value, ref);
                     acc[m := e][m + PctSuffix := e * 100.0];
    if i < j {
      ErrorsFromValues(items, i + 1, ref, next, j);
    } else {
      ErrorsFromKeys(items, i + 1, ref, next);
      forall k | i + 1 <= k < |items| && items[k].0 != TrapezoidName
        ensures items[k].0 != m && items[k].0 != m + PctSuffix
        ensures items[k].0 + PctSuffix != m && items[k].0 + PctSuffix != m + PctSuffix
      {
        if items[k].0 + PctSuffix == m + PctSuffix {
          AppendCancel(items[k].0, m, PctSuffix);
        }
      }
      assert m !in KeysFrom(items, i + 1);
      assert m + PctSuffix !in KeysFrom(items, i + 1);
    }
  }

  /** "Trapecios" never receives an error entry: no name followed by "_pct"
      spells it. */
  lemma TrapezoidNeverScored(items: Entries, i: nat)
    ensures TrapezoidName !in KeysFrom(items, i)
  {
    forall j | i <= j < |items|
      ensures items[j].0 + PctSuffix != TrapezoidName
    {
      var s := items[j].0 + PctSuffix;
      assert s[|s| - 1] == 't';
    }
  }

  /** `calcular_errores(resultados, referencia)`. The reference must be
      non-zero. */
  function ComputeErrors(results: Entries, ref: real): (r: Result<map<string, real>, ErrorsFailure>)
    requires ref != 0.0
    ensures r.Failure? <==> exists j :: MissingAt(results, j)
    ensures r.Failure? ==>
              exists j :: MissingAt(results, j) && r.error == MissingValue(results[j].0)
                && forall k :: 0 <= k < j ==> !MissingAt(results, k)
    ensures r.Success? ==> r.value.Keys == KeysFrom(results, 0)
    ensures r.Success? ==> TrapezoidName !in r.value
  {
    ErrorsFromFailure(results, 0, ref, map[]);
    var r := ErrorsFrom(results, 0, ref, map[]);
    if r.Success? then
      ErrorsFromKeys(results, 0, ref, map[]);
      TrapezoidNeverScored(results, 0);
      r
    else r
  }

  /** Each scored method `m` with value `v` gets `m ↦ |v − ref|/|ref|` and
      `m + "_pct" ↦ 100·|v − ref|/|ref|`. */
  lemma ComputeErrorsValues(results: Entries, ref: real, j: nat)
    requires ref != 0.0 && j < |results|
    requires DistinctKeys(results) && NoPctClash(results)
    requires ComputeErrors(results, ref).Success?
    requires results[j].0 != TrapezoidName
    ensures results[j].1.Some?
    ensures ComputeErrors(results, ref).value[results[j].0]
         == RelativeError(results[j].1.value, ref)
    ensures ComputeErrors(results, ref).value[results[j].0 + PctSuffix]
         == 100.0 * RelativeError(results[j].1.value, ref)
  {
    assert !MissingAt(results, j);
    ErrorsFromValues(results, 0, ref, map[], j);
  }
}
