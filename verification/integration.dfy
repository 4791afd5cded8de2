/** `calcular_metodos_integracion` (src/integration/calculations.py): run the
    three rules on one series and collect their results by method name. */
module Integration {
  import opened Wrappers
  import opened RowCount
  import opened Quadrature

  const TrapezoidName: string := "Trapecios"
  const Simpson13Name: string := "Simpson 1/3"
  const Simpson38Name: string := "Simpson 3/8"

  /** A Python dict from method name to a value or `None`, as its items in
      insertion order. */
  type Entries = seq<(string, Option<real>)>

  /** The dict's keys, in insertion order. */
  function KeysOf(e: Entries): seq<string> {
    seq(|e|, i requires 0 <= i < |e| => e[i].0)
  }

  /** The trapezoid rule's failure is not caught and ends the call; a failed
      Simpson rule is recorded as `None` and the other entries are unaffected. */
  function IntegrateAll(x: seq<real>, y: seq<real>): (r: Result<Entries, RuleError>)
    ensures r.Failure? <==> Trapezoid(x, y).Failure?
    ensures r.Failure? ==> r.error == Trapezoid(x, y).error
    ensures r.Success? ==> KeysOf(r.value) == [TrapezoidName, Simpson13Name, Simpson38Name]
    ensures r.Success? ==> r.value[0].1 == Some(Trapezoid(x, y).value)
    ensures r.Success? ==> (r.value[1].1.None? <==> Simpson13(x, y).Failure?)
    ensures r.Success? && r.value[1].1.Some? ==> r.value[1].1.value == Simpson13(x, y).value
    ensures r.Success? ==> (r.value[2].1.None? <==> Simpson38(x, y).Failure?)
    ensures r.Success? && r.value[2].1.Some? ==> r.value[2].1.value == Simpson38(x, y).value
  {
    match Trapezoid(x, y)
    case Failure(e) => Failure(e)
    case Success(t) =>
      Success([(TrapezoidName, Some(t)),
               (Simpson13Name, Simpson13(x, y).ToOption()),
               (Simpson38Name, Simpson38(x, y).ToOption())])
  }

  /** Every rule applies to an equally spaced series whose length has the
      "25 + 6k" form and is at least 7, so no entry is `None`. */
  lemma AdmissibleSeriesHasEveryMethod(x: seq<real>, y: seq<real>)
    requires |x| == |y| && |x| >= 7 && IsAdmissible(|x|) && EquallySpaced(x)
    ensures IntegrateAll(x, y).Success?
    ensures forall i :: 0 <= i < 3 ==> IntegrateAll(x, y).value[i].1.Some?
  {
    AdmissibleFitsSimpson(|x|);
  }

  /** A series shorter than the "25 + 6k" count still fails only where the
      individual rule does: with an even point count Simpson 1/3 is `None`. */
  lemma EvenSeriesLosesSimpson13(x: seq<real>, y: seq<real>)
    requires |x| == |y| && |x| >= 2 && |x| % 2 == 0
    ensures IntegrateAll(x, y).Success?
    ensures IntegrateAll(x, y).value[1] == (Simpson13Name, None)
  {
  }

  /** On a constant series of admissible length all three methods agree:
      each gives c·(n − 1)·h. */
  lemma ConstantSeriesAgree(x: seq<real>, y: seq<real>, c: real)
    requires |x| == |y| && |x| >= 7 && IsAdmissible(|x|) && EquallySpaced(x)
    requires forall i :: 0 <= i < |y| ==> y[i] == c
    ensures IntegrateAll(x, y).Success?
    ensures forall i :: 0 <= i < 3 ==>
              IntegrateAll(x, y).value[i].1 == Some(c * ((|x| - 1) as real) * (x[1] - x[0]))
  {
    AdmissibleFitsSimpson(|x|);
    TrapezoidConstant(x, y, c);
    Simpson13Constant(x, y, c);
    Simpson38Constant(x, y, c);
  }
}
