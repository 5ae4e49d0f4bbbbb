/** A payload that states its own size: the number is part of what is measured, so it is found by iterating
    (continuity-payload.js). */
module PayloadMeasure {
  import Decimal
  import opened MessageSpans
  import opened PromptEntries

  datatype PayloadError = MeasurementInvalid | BudgetInvalid | BudgetExceeded

  /** A payload as it is serialised: the bytes before and after the number in `estimated_tokens`, and the budget fields. */
  datatype Payload = Payload(prefix: string, suffix: string, estimated: int, hardCap: int)

  /** The JSON with `n` in place of the estimate. */
  function Serialized(p: Payload, n: nat): string {
    p.prefix + Decimal.Print(n) + p.suffix
  }

  /** The byte length of the payload without the digits of its estimate. */
  ghost function Base(p: Payload): nat {
    |p.prefix| + |p.suffix|
  }

  ghost function Length(base: nat, n: nat): nat {
    base + |Decimal.Print(n)|
  }

  lemma SerializedLength(p: Payload, n: nat)
    ensures |Serialized(p, n)| == Length(Base(p), n)
  {
  }

  /** The k-th estimate of the iteration that starts at zero. */
  ghost function Estimate(base: nat, k: nat): nat {
    if k == 0 then 0 else Length(base, Estimate(base, k - 1))
  }

  /** A size that states itself. */
  ghost predicate Fixed(base: nat, n: nat) {
    Length(base, n) == n
  }

  // ---- Convergence ----

  /** An estimate stays below every self-stating size. */
  lemma {:induction false} EstimateBelow(base: nat, k: nat, n: nat)
    requires Fixed(base, n)
    ensures Estimate(base, k) <= n
  {
    if k > 0 {
      EstimateBelow(base, k - 1, n);
      Decimal.PrintMonotone(Estimate(base, k - 1), n);
    }
  }

  /** The estimates never fall. */
  lemma {:induction false} EstimateGrows(base: nat, k: nat)
    ensures Estimate(base, k) <= Estimate(base, k + 1)
  {
    if k > 0 {
      EstimateGrows(base, k - 1);
      Decimal.PrintMonotone(Estimate(base, k - 1), Estimate(base, k));
    }
  }

  /** A number has at most as many digits as it counts. */
  lemma {:induction false} DigitsSmall(n: nat)
    ensures |Decimal.Print(n)| <= n + 1
  {
    if n >= 10 { DigitsSmall(n / 10); }
  }

  /** Adding the digit count of a number to it carries into at most one digit more, and doing it again into none. */
  lemma OneCarry(m: nat, a: nat, b: nat)
    requires m >= 1 && a == m - 1 + |Decimal.Print(m)| && b == m - 1 + |Decimal.Print(a)|
    ensures |Decimal.Print(m)| <= |Decimal.Print(a)| <= |Decimal.Print(m)| + 1
    ensures |Decimal.Print(b)| == |Decimal.Print(a)|
  {
    hide Decimal.Print;
    DigitsSmall(m);
    Decimal.PrintGrowsSlowly(m, a - m);
    if |Decimal.Print(a)| == |Decimal.Print(m)| {
      assert b == a;
    } else {
      assert b == a + 1;
      NoSecondCarry(m, a);
    }
  }

  /** Just past a power of ten there is no second carry. */
  lemma NoSecondCarry(m: nat, a: nat)
    requires m <= a && a - m <= m && |Decimal.Print(a)| == |Decimal.Print(m)| + 1
    ensures |Decimal.Print(a + 1)| == |Decimal.Print(a)|
  {
    hide Decimal.Print;
    Decimal.PrintMonotone(a, a + 1);
    Decimal.PrintGrowsSlowly(m, a + 1 - m);
  }

  /** The iteration reaches a self-stating size within four measurements. */
  lemma ConvergesInFour(base: nat)
    ensures Estimate(base, 3) == Estimate(base, 4)
  {
    var m := Estimate(base, 1);
    assert Estimate(base, 0) == 0 && m == base + 1;
    var a, b := Estimate(base, 2), Estimate(base, 3);
    assert a == m - 1 + |Decimal.Print(m)|;
    assert b == m - 1 + |Decimal.Print(a)|;
    OneCarry(m, a, b);
    assert Estimate(base, 4) == m - 1 + |Decimal.Print(b)|;
  }

  /** Three measurements are not always enough: 98 bytes around the number need all four. */
  lemma ThreeAreNotEnough()
    ensures Estimate(98, 2) == 100 && Estimate(98, 3) == 101 && !Fixed(98, Estimate(98, 2)) && Fixed(98, Estimate(98, 3))
  {
    assert Estimate(98, 0) == 0;
    assert Estimate(98, 1) == 99;
    TwoDigits();
    assert Estimate(98, 2) == 98 + |Decimal.Print(Estimate(98, 1))|;
    assert Estimate(98, 3) == 98 + |Decimal.Print(Estimate(98, 2))|;
  }

  lemma TwoDigits()
    ensures |Decimal.Print(99)| == 2 && |Decimal.Print(100)| == 3 && |Decimal.Print(101)| == 3
  {
    assert Decimal.Print(99) == Decimal.Print(9) + [Decimal.DigitChar(9)];
    assert Decimal.Print(10) == Decimal.Print(1) + [Decimal.DigitChar(0)];
    assert Decimal.Print(100) == Decimal.Print(10) + [Decimal.DigitChar(0)];
    assert Decimal.Print(101) == Decimal.Print(10) + [Decimal.DigitChar(1)];
  }

  /** There may be several self-stating sizes: 97 bytes around the number make both 99 and 100 one. */
  lemma TwoFixedPoints()
    ensures Fixed(97, 99) && Fixed(97, 100)
  {
    TwoDigits();
  }

  // ---- Measuring ----

  /** The least size that states itself. */
  ghost predicate LeastFixed(base: nat, n: nat) {
    Fixed(base, n) && forall m :: Fixed(base, m) ==> n <= m
  }

  /** Where the measurements lead, with any tokenizer. */
  ghost predicate Iterates(p: Payload, measure: string -> int, estimates: seq<nat>) {
    && estimates != [] && estimates[0] == 0
    && forall k :: 0 < k < |estimates| ==> estimates[k] == measure(Serialized(p, estimates[k - 1])) && estimates[k] != estimates[k - 1]
  }

  method Measure(p: Payload, tokenizer: Option<string -> int>) returns (r: Result<nat, PayloadError>, ghost estimates: seq<nat>)
    ensures tokenizer.None? ==> r.Success? && LeastFixed(Base(p), r.value)
    ensures tokenizer.Some? ==> Iterates(p, tokenizer.value, estimates) && |estimates| <= 5
    ensures tokenizer.Some? && r.Success? ==>
      && r.value == estimates[|estimates| - 1]
      && (|estimates| == 5 || tokenizer.value(Serialized(p, r.value)) == r.value)
    ensures tokenizer.Some? && r.Failure? ==> tokenizer.value(Serialized(p, estimates[|estimates| - 1])) < 0
    ensures r.Failure? ==> r.error == MeasurementInvalid
  {
    var estimate: nat := 0;
    estimates := [0];
    ConvergesInFour(Base(p));
    for iteration := 0 to 4
      invariant |estimates| == iteration + 1 && estimates[iteration] == estimate
      invariant tokenizer.None? ==> estimate == Estimate(Base(p), iteration)
      invariant tokenizer.None? && iteration > 0 ==> estimate != Estimate(Base(p), iteration - 1)
      invariant tokenizer.Some? ==> Iterates(p, tokenizer.value, estimates)
    {
      var serialized := Serialized(p, estimate);
      SerializedLength(p, estimate);
      var next := if tokenizer.Some? then tokenizer.value(serialized) else |serialized|;
      if next < 0 { return Failure(MeasurementInvalid), estimates; }
      if next == estimate {
        if tokenizer.None? { FixedIsLeast(Base(p), iteration); }
        return Success(estimate), estimates;
      }
      estimate := next;
      estimates := estimates + [next];
    }
    r := Success(estimate);
  }

  lemma FixedIsLeast(base: nat, k: nat)
    requires Fixed(base, Estimate(base, k))
    ensures LeastFixed(base, Estimate(base, k))
  {
    forall m | Fixed(base, m) ensures Estimate(base, k) <= m { EstimateBelow(base, k, m); }
  }

  // ---- The budget ----

  /** 15 percent of the available input, at most 2400 tokens. */
  function EffectiveCap(available: Option<real>): (cap: int)
    ensures cap <= 2400
    ensures available.None? ==> cap == 2400
    ensures available.Some? ==> 100.0 * cap as real <= 15.0 * available.value
    ensures available.Some? && cap < 2400 ==> 15.0 * available.value < 100.0 * (cap + 1) as real
  {
    var share := if available.Some? then (available.value * 0.15).Floor else 2400;
    if share < 2400 then share else 2400
  }

  method Validate(p: Payload, available: Option<real>, tokenizer: Option<string -> int>)
    returns (r: Result<Payload, PayloadError>, ghost estimates: seq<nat>)
    ensures r.Success? ==>
      && p.estimated >= 0 && 0 < p.hardCap <= EffectiveCap(available)
      && 0 <= r.value.estimated <= p.hardCap && r.value == p.(estimated := r.value.estimated)
    ensures r.Success? && tokenizer.None? ==>
      |Serialized(r.value, r.value.estimated)| == r.value.estimated && LeastFixed(Base(p), r.value.estimated)
    ensures tokenizer.None? ==>
      (r.Success? <==> p.estimated >= 0 && 0 < p.hardCap <= EffectiveCap(available) && exists n: nat :: n <= p.hardCap && Fixed(Base(p), n))
    ensures r == Failure(BudgetInvalid) <==> p.estimated < 0 || p.hardCap <= 0
    ensures r.Success? && tokenizer.Some? ==>
      && Iterates(p, tokenizer.value, estimates) && |estimates| <= 5
      && r.value.estimated == estimates[|estimates| - 1]
      && (|estimates| == 5 || tokenizer.value(Serialized(p, estimates[|estimates| - 1])) == r.value.estimated)
    ensures r == Failure(MeasurementInvalid) ==> tokenizer.Some?
  {
    hide Decimal.Print;
    estimates := [];
    if p.estimated < 0 || p.hardCap <= 0 { return Failure(BudgetInvalid), estimates; }
    var measured;
    measured, estimates := Measure(p, tokenizer);
    if measured.Failure? { return Failure(measured.error), estimates; }
    if p.hardCap > EffectiveCap(available) || measured.value > p.hardCap { return Failure(BudgetExceeded), estimates; }
    r := Success(p.(estimated := measured.value));
    SerializedLength(r.value, measured.value);
  }
}
