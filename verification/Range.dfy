/** The integer form of `range`: `php_range` of `src/builtins.rs`, computed in wrapping 64-bit arithmetic. */
module Range {
  import opened Common

  const HT_MAX_SIZE: int := 0x4000_0000

  datatype Error = StepTooSmall | StepIsZero | StepIsNegative | StepExceedsSpan | TooManyElements

  datatype Result = Values(values: seq<I64>) | Refused(error: Error)

  // ---------- machine arithmetic ----------

  function ToU64(n: I64): U64 {
    n % TWO_64
  }

  function ToI64(n: U64): I64 {
    if n < TWO_63 then n else n - TWO_64
  }

  function WrappingAdd(a: U64, b: U64): U64 {
    (a + b) % TWO_64
  }

  function WrappingSub(a: U64, b: U64): U64 {
    (a - b) % TWO_64
  }

  function WrappingMul(a: U64, b: U64): U64 {
    (a * b) % TWO_64
  }

  // ---------- what the function means ----------

  function Sign(n: int): int {
    if n < 0 then -1 else if n == 0 then 0 else 1
  }

  /** A step that moves from `start` towards another `end`; its sign counts only upwards. */
  predicate IsStep(start: I64, end: I64, step: I64) {
    step != 0 && -0x8000_0000_0000_0000 < step && (start > end || (start < end && step > 0))
  }

  function Term(start: int, end: int, k: int, i: nat): int {
    start + Sign(end - start) * (i * k)
  }

  /** Whether `values` runs from `start` towards `end` in steps of `k`, to the last term not past `end`. */
  ghost predicate IsProgression(values: seq<int>, start: int, end: int, k: int) {
    && values != []
    && (forall i :: 0 <= i < |values| ==> values[i] == Term(start, end, k, i))
    && (|values| - 1) * k <= Abs(end - start)
    && (start != end ==> Abs(end - start) < |values| * k)
    && (start == end ==> |values| == 1)
  }

  lemma WrappingSpan(hi: I64, lo: I64)
    requires hi >= lo
    ensures WrappingSub(ToU64(hi), ToU64(lo)) == hi - lo
  {
  }

  lemma PositiveToU64(n: I64)
    requires n >= 0
    ensures ToU64(n) == n
  {
  }

  lemma WrappingTerm(start: I64, offset: int, down: bool)
    requires 0 <= offset < TWO_64
    requires if down then -TWO_63 <= start - offset else start + offset < TWO_63
    ensures ToI64(if down then WrappingSub(ToU64(start), offset) else WrappingAdd(ToU64(start), offset))
            == if down then start - offset else start + offset
  {
  }

  lemma SingletonProgression(start: int, k: int)
    ensures IsProgression([start], start, start, k)
  {
  }

  lemma SizeBound(span: nat, k: nat)
    requires k >= 1
    ensures span / k >= 0x3FFF_FFFF <==> 0x3FFF_FFFF * k <= span
  {
    DivBounds(span, k);
    if span / k >= 0x3FFF_FFFF {
      MulGrows(k, 0x3FFF_FFFF, span / k);
    } else {
      MulGrows(k, span / k + 1, 0x3FFF_FFFF);
    }
  }

  /** The size check: the quotient of the span, refused where it would reach the cap. */
  function CheckedSize(hi: I64, lo: I64, ustep: U64): (size: Option<U64>)
    requires ustep >= 1 && hi >= lo
    ensures size.None? <==> (0x4000_0000 - 1) * ustep <= hi - lo
    ensures size.Some? ==> size.value == (hi - lo) / ustep + 1
  {
    WrappingSpan(hi, lo);
    DivBounds(hi - lo, ustep);
    SizeBound(hi - lo, ustep);
    var quotient := WrappingSub(ToU64(hi), ToU64(lo)) / ustep;
    if quotient >= HT_MAX_SIZE - 1 then None else Some(quotient + 1)
  }

  /** Refuses each call for one reason, a step that is no step ahead of the others, and else returns the mathematical
      progression. Too many elements are 2^30: the last of those is not past `end`. */
  method PhpRange(start: I64, end: I64, userStep: I64) returns (r: Result)
    ensures r == Refused(StepTooSmall) <==> userStep == -0x8000_0000_0000_0000
    ensures r == Refused(StepIsZero) <==> userStep == 0
    ensures r == Refused(StepIsNegative) <==> start < end && -0x8000_0000_0000_0000 < userStep < 0
    ensures r == Refused(StepExceedsSpan) <==> IsStep(start, end, userStep) && Abs(end - start) < Abs(userStep)
    ensures r == Refused(TooManyElements) <==>
            IsStep(start, end, userStep) && (0x4000_0000 - 1) * Abs(userStep) <= Abs(end - start)
    ensures r.Values? ==> IsProgression(r.values, start, end, Abs(userStep))
  {
    hide IsProgression, ToI64, ToU64, WrappingAdd, WrappingSub, WrappingMul;
    var step := userStep;
    var isStepNegative := false;
    if step < 0 {
      if step == -TWO_63 {
        return Refused(StepTooSmall);
      }
      isStepNegative := true;
      step := -step;
    }
    if step == 0 {
      return Refused(StepIsZero);
    }
    var ustep := ToU64(step);
    PositiveToU64(step);
    if start > end {
      WrappingSpan(start, end);
      if WrappingSub(ToU64(start), ToU64(end)) < ustep {
        return Refused(StepExceedsSpan);
      }
      var size := CheckedSize(start, end, ustep);
      if size.None? {
        return Refused(TooManyElements);
      }
      var values := Terms(start, end, ustep, size.value);
      return Values(values);
    } else if start < end {
      if isStepNegative {
        return Refused(StepIsNegative);
      }
      WrappingSpan(end, start);
      if WrappingSub(ToU64(end), ToU64(start)) < ustep {
        return Refused(StepExceedsSpan);
      }
      var size := CheckedSize(end, start, ustep);
      if size.None? {
        return Refused(TooManyElements);
      }
      var values := Terms(start, end, ustep, size.value);
      return Values(values);
    } else {
      SingletonProgression(start, Abs(userStep));
      return Values([start]);
    }
  }

  /** No term wraps around: each is computed exactly. */
  lemma TermIsExact(start: I64, end: I64, ustep: U64, size: int, i: int)
    requires ustep >= 1 && start != end && size == Abs(end - start) / ustep + 1 && 0 <= i < size
    ensures 0 <= i * ustep <= Abs(end - start)
    ensures var offset := i * ustep;
      && offset < TWO_64
      && ToI64(if start > end then WrappingSub(ToU64(start), offset) else WrappingAdd(ToU64(start), offset))
         == Term(start, end, ustep, i)
  {
    hide ToI64, ToU64, WrappingAdd, WrappingSub;
    DivBounds(Abs(end - start), ustep);
    MulGrows(ustep, i, size - 1);
    MulGrows(ustep, 0, i);
    WrappingTerm(start, i * ustep, start > end);
  }

  lemma LastTerm(start: int, end: int, k: int, size: int)
    requires k >= 1 && start != end && size == Abs(end - start) / k + 1
    ensures size >= 1 && (size - 1) * k <= Abs(end - start) < size * k
  {
    DivBounds(Abs(end - start), k);
  }

  /** The generating loop of either direction. */
  method Terms(start: I64, end: I64, ustep: U64, size: U64) returns (values: seq<I64>)
    requires ustep >= 1 && start != end && size == Abs(end - start) / ustep + 1
    ensures IsProgression(values, start, end, ustep)
  {
    hide ToI64, ToU64, WrappingAdd, WrappingSub, Term, Abs;
    LastTerm(start, end, ustep, size);
    values := [];
    for i := 0 to size
      invariant |values| == i
      invariant forall j :: 0 <= j < i ==> values[j] == Term(start, end, ustep, j)
    {
      TermIsExact(start, end, ustep, size, i);
      var offset := WrappingMul(i, ustep);
      var v := ToI64(if start > end then WrappingSub(ToU64(start), offset) else WrappingAdd(ToU64(start), offset));
      values := values + [v];
    }
  }

  predicate Between(n: int, start: int, end: int) {
    start <= n <= end || end <= n <= start
  }

  /** A progression holds exactly the integers between its bounds that are a whole number of steps from
      the start, each once. */
  lemma ProgressionMembers(values: seq<int>, start: int, end: int, k: int, n: int)
    requires k >= 1 && IsProgression(values, start, end, k)
    ensures n in values <==> Between(n, start, end) && exists i: nat :: n == Term(start, end, k, i)
    ensures forall i, j :: 0 <= i < j < |values| ==> values[i] != values[j]
  {
    if n in values {
      var i :| 0 <= i < |values| && values[i] == n;
      TermIsBetween(values, start, end, k, i);
      assert n == Term(start, end, k, i);
    }
    if Between(n, start, end) && exists i: nat :: n == Term(start, end, k, i) {
      var i: nat :| n == Term(start, end, k, i);
      TermIsListed(values, start, end, k, i);
    }
    forall i, j | 0 <= i < j < |values| ensures values[i] != values[j] {
      TermsDiffer(start, end, k, i, j);
      assert start == end ==> |values| == 1;
    }
  }

  lemma TermsDiffer(start: int, end: int, k: int, i: nat, j: nat)
    requires k >= 1 && i < j
    ensures start != end ==> Term(start, end, k, i) != Term(start, end, k, j)
  {
    MulGrows(k, i + 1, j);
  }

  lemma TermIsBetween(values: seq<int>, start: int, end: int, k: int, i: nat)
    requires k >= 1 && IsProgression(values, start, end, k) && i < |values|
    ensures Between(values[i], start, end)
  {
    MulGrows(k, i, |values| - 1);
    MulGrows(k, 0, i);
    assert values[i] == Term(start, end, k, i);
  }

  lemma TermIsListed(values: seq<int>, start: int, end: int, k: int, i: nat)
    requires k >= 1 && IsProgression(values, start, end, k) && Between(Term(start, end, k, i), start, end)
    ensures Term(start, end, k, i) in values
  {
    if start == end {
      assert values[0] == Term(start, end, k, 0);
    } else {
      MulGrows(k, 0, i);
      if i >= |values| {
        MulGrows(k, |values|, i);
      }
      assert values[i] == Term(start, end, k, i);
    }
  }
}
