/** `discreteBinarySearch` and `discreteLinearSearch`: finding the highest value for which an executor succeeds. */
module DiscreteSearch {
  import opened Wrappers

  /** What a linear-search executor returns; `Abort` is `undefined`. */
  datatype Answer = Yes | No | Abort

  /** The largest `k` with 2^k <= n. */
  function FloorLog2(n: nat): nat
    requires n > 0
  {
    if n == 1 then 0 else 1 + FloorLog2(n / 2)
  }

  lemma {:induction false} LogMonotone(a: nat, b: nat)
    requires 0 < a <= b
    ensures FloorLog2(a) <= FloorLog2(b)
  {
    if a > 1 {
      LogMonotone(a / 2, b / 2);
    }
  }

  /** How many calls the loop may still make for a range of `d + 1` values. */
  function CallBound(d: nat): nat {
    if d == 0 then 0 else FloorLog2(d) + 1
  }

  lemma Halving(d: nat, e: nat)
    requires 0 < d && e <= d / 2
    ensures CallBound(e) + 1 <= CallBound(d)
  {
    if e > 0 {
      LogMonotone(e, d / 2);
    }
  }

  /** The executor stays false once it has been false. */
  ghost predicate StaysFalse(executor: int -> bool, rangeMin: int, rangeMax: int) {
    forall v, w | rangeMin <= v < w <= rangeMax :: executor(w) ==> executor(v)
  }

  /** `calls` counts the calls of the executor.  A defined result is a value in the range at which the executor
      succeeds and after which it fails or the range ends. */
  method DiscreteBinarySearch(rangeMin: int, rangeMax: int, executor: int -> bool)
    returns (r: Option<int>, calls: nat)
    ensures rangeMin <= rangeMax && r.Some? ==>
              rangeMin <= r.value <= rangeMax && executor(r.value)
              && (r.value == rangeMax || !executor(r.value + 1))
    ensures rangeMin <= rangeMax && r.None? ==> !executor(rangeMin) && (rangeMin == rangeMax || !executor(rangeMin + 1))
    ensures rangeMin < rangeMax ==> calls <= FloorLog2(rangeMax - rangeMin) + 2
    ensures rangeMin >= rangeMax ==> calls == 1 && r == if executor(rangeMin) then Some(rangeMin) else None
  {
    var min, max := rangeMin, rangeMax;
    calls := 0;
    while min < max
      invariant rangeMin <= min
      invariant rangeMin <= rangeMax ==> min <= max <= rangeMax
      invariant min == rangeMin || executor(min)
      invariant rangeMin <= rangeMax ==> max == rangeMax || !executor(max + 1)
      invariant rangeMin < rangeMax ==> calls + CallBound(max - min) <= CallBound(rangeMax - rangeMin)
      invariant rangeMin >= rangeMax ==> calls == 0 && min == rangeMin && max == rangeMax
      decreases max - min
    {
      var mid := min + (max - min + 1) / 2;
      calls := calls + 1;
      if executor(mid) {
        Halving(max - min, max - mid);
        min := mid;
      } else {
        Halving(max - min, mid - 1 - min);
        max := mid - 1;
      }
    }
    if min == rangeMin {
      calls := calls + 1;
      if !executor(min) {
        return None, calls;
      }
    }
    return Some(min), calls;
  }

  ghost predicate AllYes(executor: int -> Answer, from: int, to: int) {
    forall v | from <= v < to :: executor(v) == Yes
  }

  /** The search returns the last value before the first one at which the executor does not say yes.  It returns
      nothing exactly if the range is empty, the first value fails, or the executor aborts first. */
  method DiscreteLinearSearch(rangeMin: int, rangeMax: int, executor: int -> Answer) returns (r: Option<int>)
    ensures r.Some? ==>
              rangeMin <= r.value <= rangeMax && AllYes(executor, rangeMin, r.value + 1)
              && (r.value == rangeMax || executor(r.value + 1) == No)
    ensures r.None? ==>
              rangeMin > rangeMax
              || exists s | rangeMin <= s <= rangeMax ::
                   AllYes(executor, rangeMin, s) && (executor(s) == Abort || (s == rangeMin && executor(s) == No))
  {
    var val := rangeMin;
    while val <= rangeMax
      invariant rangeMin <= val && (rangeMin <= rangeMax ==> val <= rangeMax)
      invariant AllYes(executor, rangeMin, val)
      decreases rangeMax - val
    {
      var result := executor(val);
      if result == Abort {
        return None;
      }
      if result == No {
        if val == rangeMin {
          return None;
        } else {
          return Some(val - 1);
        }
      } else if val == rangeMax {
        return Some(rangeMax);
      }
      val := val + 1;
    }
    return None;
  }

  function AsAnswer(executor: int -> bool): int -> Answer {
    v => if executor(v) then Yes else No
  }

  /** Where the executor never turns true again after it was false, there is at most one value that a search may
      return, so the binary and the linear search agree. */
  lemma BoundaryIsUnique(rangeMin: int, rangeMax: int, executor: int -> bool, a: int, b: int)
    requires StaysFalse(executor, rangeMin, rangeMax)
    requires rangeMin <= a <= rangeMax && executor(a) && (a == rangeMax || !executor(a + 1))
    requires rangeMin <= b <= rangeMax && executor(b) && (b == rangeMax || !executor(b + 1))
    ensures a == b
  {
  }

  lemma HoldsBelow(rangeMin: int, rangeMax: int, executor: int -> bool, v: int, w: int)
    requires StaysFalse(executor, rangeMin, rangeMax) && rangeMin <= v <= w <= rangeMax && executor(w)
    ensures executor(v)
  {
  }

  /** Both searches on the same executor: refinement of the linear search by the binary one. */
  method SearchBothWays(rangeMin: int, rangeMax: int, executor: int -> bool)
    returns (binary: Option<int>, linear: Option<int>)
    requires rangeMin <= rangeMax && StaysFalse(executor, rangeMin, rangeMax)
    ensures binary == linear
    ensures binary.Some? <==> executor(rangeMin)
  {
    var calls;
    binary, calls := DiscreteBinarySearch(rangeMin, rangeMax, executor);
    linear := DiscreteLinearSearch(rangeMin, rangeMax, AsAnswer(executor));
    if binary.Some? && linear.Some? {
      assert AsAnswer(executor)(linear.value) == Yes;
      BoundaryIsUnique(rangeMin, rangeMax, executor, binary.value, linear.value);
    }
    if binary.Some? {
      HoldsBelow(rangeMin, rangeMax, executor, rangeMin, binary.value);
    }
    if linear.Some? {
      assert AsAnswer(executor)(rangeMin) == Yes;
    }
  }
}
