/**
 * The divisor benchmark: the divisor list of one number, the sequential map of it
 * over a list of numbers, and the process-pool map whose results are collected back
 * in input order whatever order the workers finish in.
 */
module Factorize {

  /** A sequence whose elements strictly increase (so it holds no duplicates). */
  predicate StrictlyAscending(s: seq<int>) {
    forall i, j :: 0 <= i < j < |s| ==> s[i] < s[j]
  }

  /** `i` divides `n`, with the remainder test the comprehension uses. Only positive
      candidates are ever tested, and for those Python's floored `%` and Dafny's
      Euclidean `%` agree. */
  predicate Divides(i: int, n: int)
    requires i >= 1
  {
    n % i == 0
  }

  /**
   * The comprehension `[i for i in range(lo, hi) if n % i == 0]`: every candidate of
   * the half-open range, in ascending order, that leaves no remainder.
   */
  function DivisorsIn(n: int, lo: int, hi: int): seq<int>
    requires 1 <= lo
    decreases hi - lo
  {
    if hi <= lo then []
    else (if n % lo == 0 then [lo] else []) + DivisorsIn(n, lo + 1, hi)
  }

  /** The comprehension keeps exactly the candidates of the range that divide `n`,
      in strictly ascending order. */
  lemma {:induction false} DivisorsInFacts(n: int, lo: int, hi: int)
    requires 1 <= lo
    ensures forall x :: x in DivisorsIn(n, lo, hi) <==> lo <= x < hi && Divides(x, n)
    ensures StrictlyAscending(DivisorsIn(n, lo, hi))
    decreases hi - lo
  {
    if lo < hi {
      var rest := DivisorsIn(n, lo + 1, hi);
      DivisorsInFacts(n, lo + 1, hi);
      if n % lo == 0 {
        PrependAscending(lo, rest);
      }
    }
  }

  /** Putting a value below every element in front keeps a sequence strictly ascending. */
  lemma PrependAscending(x: int, s: seq<int>)
    requires StrictlyAscending(s)
    requires forall y :: y in s ==> x < y
    ensures StrictlyAscending([x] + s)
  {
    forall i, j | 0 <= i < j < |[x] + s|
      ensures ([x] + s)[i] < ([x] + s)[j]
    {
      assert ([x] + s)[j] == s[j - 1];
      assert s[j - 1] in s;
      if i > 0 {
        assert ([x] + s)[i] == s[i - 1];
      }
    }
  }

  /** `factorize_number(n)`: the candidates are `range(1, n + 1)`. */
  function FactorizeNumber(n: int): (r: seq<int>)
    ensures forall x :: x in r <==> 1 <= x <= n && Divides(x, n)
    ensures StrictlyAscending(r)
    // A corollary of the ascending order, stated for the promise it makes.
    ensures forall i, j :: 0 <= i < |r| && 0 <= j < |r| && r[i] == r[j] ==> i == j
  {
    DivisorsInFacts(n, 1, n + 1);
    DivisorsIn(n, 1, n + 1)
  }

  /** For a non-positive `n` the candidate range is empty, so is the result. */
  lemma FactorizeNonPositive(n: int)
    requires n <= 0
    ensures FactorizeNumber(n) == []
  {
    var r := FactorizeNumber(n);
    assert forall k :: 0 <= k < |r| ==> r[k] in r;
  }

  /** In a strictly ascending sequence the first element is the least and the last
      the greatest. */
  lemma AscendingBounds(s: seq<int>, k: int)
    requires StrictlyAscending(s)
    requires 0 <= k < |s|
    ensures s[0] <= s[k] <= s[|s| - 1]
  {
  }

  /** For `n >= 1` the divisor list starts with 1 and ends with `n`. */
  lemma FactorizeEndpoints(n: int)
    requires n >= 1
    ensures |FactorizeNumber(n)| >= 1
    ensures FactorizeNumber(n)[0] == 1
    ensures FactorizeNumber(n)[|FactorizeNumber(n)| - 1] == n
  {
    var r := FactorizeNumber(n);
    assert 1 in r;
    assert n in r;
    var a :| 0 <= a < |r| && r[a] == 1;
    var b :| 0 <= b < |r| && r[b] == n;
    AscendingBounds(r, a);
    AscendingBounds(r, b);
    assert r[0] in r;
    assert r[|r| - 1] in r;
  }

  /** Dropping the head of a strictly ascending sequence drops exactly its least
      element and keeps it strictly ascending. */
  lemma AscendingTail(s: seq<int>)
    requires StrictlyAscending(s) && s != []
    ensures forall x :: x in s ==> s[0] <= x
    ensures forall x :: x in s[1..] <==> x in s && x != s[0]
    ensures StrictlyAscending(s[1..])
  {
    forall x | x in s[1..]
      ensures x in s && x != s[0]
    {
      var k :| 0 <= k < |s| - 1 && s[1..][k] == x;
      assert s[k + 1] == x;
    }
    forall x | x in s && x != s[0]
      ensures x in s[1..]
    {
      var k :| 0 <= k < |s| && s[k] == x;
      assert s[1..][k - 1] == x;
    }
  }

  /** Two strictly ascending sequences with the same elements are equal. */
  lemma {:induction false} AscendingUnique(s: seq<int>, t: seq<int>)
    requires StrictlyAscending(s) && StrictlyAscending(t)
    requires forall x :: x in s <==> x in t
    ensures s == t
  {
    // Each sequence is empty exactly when the other one is.
    assert s != [] ==> s[0] in s;
    assert t != [] ==> t[0] in t;
    if s != [] {
      // The heads are both the least element of the common set.
      AscendingTail(s);
      AscendingTail(t);
      assert t[0] in s;
      assert s[0] == t[0];
      AscendingUnique(s[1..], t[1..]);
      assert s == [s[0]] + s[1..];
      assert t == [t[0]] + t[1..];
    }
  }

  /**
   * The divisor list is the only strictly ascending list of exactly the divisors of
   * `n` in `[1, n]`: an independent characterisation of `factorize_number`.
   */
  lemma FactorizeCharacterised(n: int, s: seq<int>)
    requires StrictlyAscending(s)
    requires forall x :: x in s <==> 1 <= x <= n && Divides(x, n)
    ensures s == FactorizeNumber(n)
  {
    AscendingUnique(s, FactorizeNumber(n));
  }

  /** Multiplying by a non-negative factor keeps the order of the other factors. */
  lemma MulMonotone(a: int, b: int, c: int)
    requires a >= b && c >= 0
    ensures a * c >= b * c
  {
  }

  /**
   * A divisor `x` of a positive `n` that is at least 16 has a cofactor `q` below 17
   * with `x * q == n`: the divisors above 15 are found from their small cofactors,
   * so only 15 candidates and 16 cofactors need to be looked at.
   */
  lemma LargeDivisorCofactor(n: int, x: int) returns (q: int)
    requires 1 <= n <= 256 && 16 <= x && Divides(x, n)
    ensures 1 <= q <= 16 && x * q == n
  {
    q := n / x;
    assert x * q == n;
    MulMonotone(x, 16, q);
  }

  /** Every divisor of 128 is one of the eight listed. */
  lemma DivisorOf128(x: int)
    requires 1 <= x <= 128 && Divides(x, 128)
    ensures x in [1, 2, 4, 8, 16, 32, 64, 128]
  {
    if x >= 16 {
      var q := LargeDivisorCofactor(128, x);
    }
  }

  /** The first number of the benchmark and its divisor list. */
  lemma FactorizeNumber128()
    ensures FactorizeNumber(128) == [1, 2, 4, 8, 16, 32, 64, 128]
  {
    var s := [1, 2, 4, 8, 16, 32, 64, 128];
    forall x | 1 <= x <= 128 && Divides(x, 128)
      ensures x in s
    {
      DivisorOf128(x);
    }
    FactorizeCharacterised(128, s);
  }

  /** Every divisor of 255 is one of the eight listed. */
  lemma DivisorOf255(x: int)
    requires 1 <= x <= 255 && Divides(x, 255)
    ensures x in [1, 3, 5, 15, 17, 51, 85, 255]
  {
    if x >= 16 {
      var q := LargeDivisorCofactor(255, x);
    }
  }

  /** The second number of the benchmark and its divisor list. */
  lemma FactorizeNumber255()
    ensures FactorizeNumber(255) == [1, 3, 5, 15, 17, 51, 85, 255]
  {
    var s := [1, 3, 5, 15, 17, 51, 85, 255];
    forall x | 1 <= x <= 255 && Divides(x, 255)
      ensures x in s
    {
      DivisorOf255(x);
    }
    FactorizeCharacterised(255, s);
  }

  /** `factorize_sync(*numbers)`: the divisor list of every number, in input order. */
  function FactorizeSync(numbers: seq<int>): (r: seq<seq<int>>)
    ensures |r| == |numbers|
    ensures forall k :: 0 <= k < |numbers| ==> r[k] == FactorizeNumber(numbers[k])
  {
    if numbers == [] then []
    else [FactorizeNumber(numbers[0])] + FactorizeSync(numbers[1..])
  }

  /**
   * A completion schedule of a pool that was given `count` tasks: the task indices
   * in the order the workers finish them, every task exactly once.
   */
  predicate IsSchedule(order: seq<nat>, count: nat) {
    && |order| == count
    && (forall j :: 0 <= j < |order| ==> order[j] < count)
    && (forall k :: 0 <= k < count ==> k in order)
  }

  /**
   * The futures completed after the workers have finished the tasks in `order`:
   * each finished task `k` holds the divisor list of `numbers[k]`.
   */
  function Completed(numbers: seq<int>, order: seq<nat>): (done: map<nat, seq<int>>)
    requires forall j :: 0 <= j < |order| ==> order[j] < |numbers|
    ensures forall k :: k in done <==> k in order
    ensures forall k :: k in done ==> k < |numbers| && done[k] == FactorizeNumber(numbers[k])
  {
    if order == [] then map[]
    else
      var last := order[|order| - 1];
      var before := Completed(numbers, order[..|order| - 1]);
      assert forall k :: k in order <==> k in order[..|order| - 1] || k == last;
      before[last := FactorizeNumber(numbers[last])]
  }

  /**
   * `factorize_parallel(*numbers)`: one task per number is submitted to the pool,
   * the workers finish them in the order `order`, and `Executor.map` reads the
   * futures back in submission order.
   */
  function FactorizeParallel(numbers: seq<int>, order: seq<nat>): (r: seq<seq<int>>)
    requires IsSchedule(order, |numbers|)
    ensures |r| == |numbers|
    ensures forall k :: 0 <= k < |numbers| ==> r[k] == FactorizeNumber(numbers[k])
  {
    var done := Completed(numbers, order);
    seq(|numbers|, k requires 0 <= k < |numbers| => done[k])
  }

  /**
   * The assertion of the entry point: the parallel results equal the sequential
   * ones, element by element and in input order, for every completion schedule.
   */
  lemma ParallelEqualsSync(numbers: seq<int>, order: seq<nat>)
    requires IsSchedule(order, |numbers|)
    ensures FactorizeParallel(numbers, order) == FactorizeSync(numbers)
  {
  }

  /** The numbers the entry point benchmarks. */
  const BenchmarkNumbers: seq<int> := [128, 255, 99999, 10651060]

  /** The entry point's assertion holds on its own inputs, whatever order the
      workers finish in. */
  lemma BenchmarkAssertionHolds(order: seq<nat>)
    requires IsSchedule(order, |BenchmarkNumbers|)
    ensures FactorizeSync(BenchmarkNumbers) == FactorizeParallel(BenchmarkNumbers, order)
  {
    ParallelEqualsSync(BenchmarkNumbers, order);
  }
}
