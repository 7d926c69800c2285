/** The cycle-length component of problem5: the length of the recurring
    block of the decimal expansion of 1/n, found by simulating the long
    division and remembering where each remainder was first seen, and the
    denominator below a limit whose cycle is the longest.

    Numbers are unbounded: the source's `int` arithmetic (`remainder * 10`)
    is modelled without its 32-bit wrap-around. */
module RecurringCycle {

  datatype Error = IllegalArgument(message: string)

  datatype Result<T> = Ok(value: T) | Err(error: Error)

  /** The remainder after k steps of the long division of 1 by n. It always
      lies in [0, n - 1]. */
  function Rem(n: int, k: nat): (r: int)
    requires n > 1
    ensures 0 <= r < n
  {
    if k == 0 then 1 else (Rem(n, k - 1) * 10) % n
  }

  /** The first p remainders are nonzero and pairwise distinct: by step p
      the division has neither ended nor repeated itself. */
  ghost predicate FreshPrefix(n: int, p: nat)
    requires n > 1
  {
    (forall i :: 0 <= i < p ==> Rem(n, i) != 0) &&
    (forall i, j :: 0 <= i < j < p ==> Rem(n, i) != Rem(n, j))
  }

  /** Step p is where the source's loop stops: the remainder is 0, or it
      was seen at an earlier step. */
  ghost predicate Stops(n: int, p: nat)
    requires n > 1
  {
    Rem(n, p) == 0 || exists j :: 0 <= j < p && Rem(n, j) == Rem(n, p)
  }

  /** The expansion of 1/n terminates. */
  ghost predicate Terminates(n: int)
    requires n > 1
  {
    exists k: nat :: Rem(n, k) == 0
  }

  /** From step s on, the remainders repeat every L steps. */
  ghost predicate PeriodicFrom(n: int, s: nat, L: nat)
    requires n > 1
  {
    forall i: nat, k: nat :: s <= i <= k && k - i == L ==> Rem(n, k) == Rem(n, i)
  }

  /** L is the length of the recurring cycle: the remainders are eventually
      L-periodic and no shorter positive period ever holds. */
  ghost predicate IsCycleLength(n: int, L: nat)
    requires n > 1
  {
    L > 0 &&
    (exists s: nat :: PeriodicFrom(n, s, L)) &&
    (forall L': nat, s: nat :: 0 < L' < L ==> !PeriodicFrom(n, s, L'))
  }

  /** The first L' in [L, n] at which the remainder of step s comes back,
      or n if it does not. */
  function FirstReturn(n: int, s: nat, L: nat): (r: nat)
    requires n > 1 && 1 <= L <= n
    ensures L <= r <= n
    decreases n - L
  {
    if L == n || Rem(n, s + L) == Rem(n, s) then L else FirstReturn(n, s, L + 1)
  }

  /** Reference definition of the cycle length, independent of the source's
      remainder map: n steps are enough for the division to end or to enter
      its cycle, so the cycle length is 0 if the remainder of step n is 0
      and otherwise the number of steps that remainder takes to come back. */
  function CycleLen(n: int): nat
    requires n > 1
  {
    if Rem(n, n) == 0 then 0 else FirstReturn(n, n, 1)
  }

  /** Equal remainders have equal successors, step after step. */
  lemma {:induction false} RemShift(n: int, i: nat, j: nat, t: nat)
    requires n > 1 && Rem(n, i) == Rem(n, j)
    ensures Rem(n, i + t) == Rem(n, j + t)
    decreases t
  {
    if t > 0 {
      RemShift(n, i, j, t - 1);
    }
  }

  /** Once the remainder is 0 it stays 0. */
  lemma {:induction false} ZeroStays(n: int, p: nat, k: nat)
    requires n > 1 && Rem(n, p) == 0 && p <= k
    ensures Rem(n, k) == 0
    decreases k
  {
    if k > p {
      ZeroStays(n, p, k - 1);
    }
  }

  /** A set of integers in [1, n - 1] has at most n - 1 elements. */
  lemma {:induction false} BoundedSetCard(s: set<int>, n: int)
    requires n >= 1 && forall x :: x in s ==> 1 <= x < n
    ensures |s| <= n - 1
    decreases n
  {
    if n > 1 {
      BoundedSetCard(s - {n - 1}, n - 1);
    } else {
      assert forall x :: x !in s;
      assert s == {};
    }
  }

  /** The remainders of steps 0 .. p - 1, as a set. */
  ghost function Seen(n: int, p: nat): set<int>
    requires n > 1
  {
    if p == 0 then {} else Seen(n, p - 1) + {Rem(n, p - 1)}
  }

  /** Every member of Seen(n, p) is the remainder of some step before p. */
  lemma {:induction false} SeenIndex(n: int, p: nat, x: int) returns (i: nat)
    requires n > 1 && x in Seen(n, p)
    ensures i < p && Rem(n, i) == x
    decreases p
  {
    if x == Rem(n, p - 1) {
      i := p - 1;
    } else {
      i := SeenIndex(n, p - 1, x);
    }
  }

  /** A fresh prefix of length p has p distinct remainders. */
  lemma {:induction false} SeenCard(n: int, p: nat)
    requires n > 1 && FreshPrefix(n, p)
    ensures |Seen(n, p)| == p
    decreases p
  {
    if p > 0 {
      assert FreshPrefix(n, p - 1);
      SeenCard(n, p - 1);
      if Rem(n, p - 1) in Seen(n, p - 1) {
        var i := SeenIndex(n, p - 1, Rem(n, p - 1));
        assert false;
      }
    }
  }

  /** Pigeonhole: a fresh prefix is shorter than n, since its remainders
      are distinct values in [1, n - 1]. */
  lemma Pigeonhole(n: int, p: nat)
    requires n > 1 && FreshPrefix(n, p)
    ensures p <= n - 1
  {
    SeenCard(n, p);
    forall x | x in Seen(n, p)
      ensures 1 <= x < n
    {
      var i := SeenIndex(n, p, x);
    }
    BoundedSetCard(Seen(n, p), n);
  }

  /** The long division of 1/n stops at some step p < n with a fresh
      prefix before it. */
  lemma StopExists(n: int) returns (p: nat)
    requires n > 1
    ensures p < n && FreshPrefix(n, p) && Stops(n, p)
  {
    p := 0;
    while !Stops(n, p)
      invariant FreshPrefix(n, p)
      decreases n - p
    {
      Pigeonhole(n, p);
      p := p + 1;
    }
    Pigeonhole(n, p);
  }

  /** If the first remainder to reach 0 does so at step p <= n, the cycle
      length is 0. */
  lemma ZeroGivesCycleLen(n: int, p: nat)
    requires n > 1 && p <= n && Rem(n, p) == 0
    ensures CycleLen(n) == 0
  {
    ZeroStays(n, p, n);
  }

  /** After a repeat at steps j < p the remainders never reach 0. */
  lemma {:induction false} RepeatNeverZero(n: int, j: nat, p: nat, k: nat)
    requires n > 1 && FreshPrefix(n, p) && j < p && Rem(n, j) == Rem(n, p)
    ensures Rem(n, k) != 0
    decreases k
  {
    if k >= p {
      RemShift(n, j, p, k - p);
      RepeatNeverZero(n, j, p, k - (p - j));
    }
  }

  /** After a repeat at steps j < p, no shift by 0 < L' < p - j returns a
      remainder from step j on to itself. */
  lemma {:induction false} NoShorterReturn(n: int, j: nat, p: nat, k: nat, L': nat)
    requires n > 1 && FreshPrefix(n, p) && j < p && Rem(n, j) == Rem(n, p)
    requires j <= k && 0 < L' < p - j
    ensures Rem(n, k + L') != Rem(n, k)
    decreases k
  {
    if k + L' < p {
      assert k < k + L' < p;
    } else if k < p {
      var t := k + L' - p;
      RemShift(n, j, p, t);
      assert j + t < k;
    } else {
      RemShift(n, j, p, k - p);
      RemShift(n, j, p, k - p + L');
      NoShorterReturn(n, j, p, k - (p - j), L');
    }
  }

  /** FirstReturn finds the first return at or after L. */
  lemma {:induction false} FirstReturnFinds(n: int, s: nat, L: nat, R: nat)
    requires n > 1 && 1 <= L <= R <= n
    requires Rem(n, s + R) == Rem(n, s)
    requires forall k: nat :: s + L <= k < s + R ==> Rem(n, k) != Rem(n, s)
    ensures FirstReturn(n, s, L) == R
    decreases R - L
  {
    if L < R {
      FirstReturnFinds(n, s, L + 1, R);
    }
  }

  /** A repeat at steps j < p after a fresh prefix makes p - j the
      reference cycle length. */
  lemma RepeatGivesCycleLen(n: int, j: nat, p: nat)
    requires n > 1 && FreshPrefix(n, p) && j < p && Rem(n, j) == Rem(n, p)
    ensures CycleLen(n) == p - j
  {
    Pigeonhole(n, p);
    RepeatNeverZero(n, j, p, n);
    RemShift(n, j, p, n - j);
    forall k: nat | n + 1 <= k < n + (p - j)
      ensures Rem(n, k) != Rem(n, n)
    {
      NoShorterReturn(n, j, p, n, k - n);
    }
    FirstReturnFinds(n, n, 1, p - j);
  }

  /** A repeat at steps j < p makes the remainders (p - j)-periodic from
      step j on. */
  lemma RepeatIsPeriodic(n: int, j: nat, p: nat)
    requires n > 1 && j < p && Rem(n, j) == Rem(n, p)
    ensures PeriodicFrom(n, j, p - j)
  {
    forall i: nat, k: nat | j <= i <= k && k - i == p - j
      ensures Rem(n, k) == Rem(n, i)
    {
      RemShift(n, j, p, i - j);
    }
  }

  /** After a repeat at steps j < p following a fresh prefix, no period
      shorter than p - j holds from any step s on. */
  lemma NoShorterPeriod(n: int, j: nat, p: nat, s: nat, L': nat)
    requires n > 1 && FreshPrefix(n, p) && j < p && Rem(n, j) == Rem(n, p)
    requires 0 < L' < p - j
    ensures !PeriodicFrom(n, s, L')
  {
    NoShorterReturn(n, j, p, s + j, L');
  }

  /** A repeat at steps j < p after a fresh prefix makes p - j the least
      eventual period of the remainders. */
  lemma RepeatIsCycleLength(n: int, j: nat, p: nat)
    requires n > 1 && FreshPrefix(n, p) && j < p && Rem(n, j) == Rem(n, p)
    ensures IsCycleLength(n, p - j)
  {
    RepeatIsPeriodic(n, j, p);
    forall L': nat, s: nat | 0 < L' < p - j
      ensures !PeriodicFrom(n, s, L')
    {
      NoShorterPeriod(n, j, p, s, L');
    }
  }

  /** A repeat at steps j < p after a fresh prefix means the expansion
      never terminates. */
  lemma RepeatNeverTerminates(n: int, j: nat, p: nat)
    requires n > 1 && FreshPrefix(n, p) && j < p && Rem(n, j) == Rem(n, p)
    ensures !Terminates(n)
  {
    forall k: nat
      ensures Rem(n, k) != 0
    {
      RepeatNeverZero(n, j, p, k);
    }
  }

  /** What the reference cycle length means: it is 0 exactly when the
      expansion of 1/n terminates, otherwise it is the length of the
      recurring cycle, and it is always below n. */
  lemma CycleLenMeaning(n: int)
    requires n > 1
    ensures CycleLen(n) == 0 <==> Terminates(n)
    ensures CycleLen(n) > 0 ==> IsCycleLength(n, CycleLen(n))
    ensures CycleLen(n) <= n - 1
  {
    var p := StopExists(n);
    if Rem(n, p) == 0 {
      ZeroGivesCycleLen(n, p);
      assert Terminates(n);
    } else {
      var j :| 0 <= j < p && Rem(n, j) == Rem(n, p);
      RepeatGivesCycleLen(n, j, p);
      RepeatIsCycleLength(n, j, p);
      RepeatNeverTerminates(n, j, p);
    }
  }

  /** The map `seen` holds exactly the remainders of steps 0 .. p - 1, each
      with the step at which it first appeared. */
  ghost predicate SeenRecords(n: int, seen: map<int, int>, p: nat)
    requires n > 1
  {
    (forall i :: 0 <= i < p ==> Rem(n, i) in seen && seen[Rem(n, i)] == i) &&
    (forall x :: x in seen ==> 0 <= seen[x] < p && Rem(n, seen[x]) == x)
  }

  /** Recording a nonzero remainder that is not yet in `seen` keeps the
      loop's invariant one step further. */
  lemma Record(n: int, seen: map<int, int>, p: nat)
    requires n > 1 && FreshPrefix(n, p) && SeenRecords(n, seen, p)
    requires Rem(n, p) != 0 && Rem(n, p) !in seen
    ensures FreshPrefix(n, p + 1)
    ensures SeenRecords(n, seen[Rem(n, p) := p], p + 1)
    ensures |seen[Rem(n, p) := p]| == |seen| + 1
  {
  }

  /** cycleLength(n): the source throws IllegalArgumentException for
      n <= 1. Otherwise it walks the remainders, recording in `seen` the
      step at which each one first appeared, and returns 0 when a remainder
      is 0 or the distance back to the first occurrence of a repeated one.
      That is the reference cycle length. */
  method CycleLength(n: int) returns (r: Result<nat>)
    ensures n <= 1 ==> r == Err(IllegalArgument("n must be greater than 1"))
    ensures n > 1 ==> r == Ok(CycleLen(n))
  {
    if n <= 1 {
      return Err(IllegalArgument("n must be greater than 1"));
    }
    var remainder := 1;
    var seen: map<int, int> := map[];
    var position: nat := 0;
    while remainder != 0
      invariant remainder == Rem(n, position)
      invariant FreshPrefix(n, position)
      invariant SeenRecords(n, seen, position)
      invariant forall x :: x in seen ==> 1 <= x < n
      invariant |seen| == position
      decreases n - position
    {
      if remainder in seen {
        RepeatGivesCycleLen(n, seen[remainder], position);
        return Ok(position - seen[remainder]);
      }
      Record(n, seen, position);
      BoundedSetCard(seen.Keys + {remainder}, n);
      seen := seen[remainder := position];
      remainder := (remainder * 10) % n;
      position := position + 1;
    }
    Pigeonhole(n, position);
    ZeroGivesCycleLen(n, position);
    return Ok(0);
  }

  /** The result of longestRecurringCycle(limit): 0 when no d in
      [2, limit) has a nonzero cycle, otherwise the first d in [2, limit)
      whose cycle is at least as long as every other one there. */
  ghost predicate IsFirstLongest(limit: int, d: int) {
    if d == 0 then
      forall e :: 2 <= e < limit ==> CycleLen(e) == 0
    else
      2 <= d < limit && CycleLen(d) > 0 &&
      (forall e :: 2 <= e < limit ==> CycleLen(e) <= CycleLen(d)) &&
      (forall e :: 2 <= e < d ==> CycleLen(e) < CycleLen(d))
  }

  /** longestRecurringCycle(limit): scan d = 2 .. limit - 1, keeping the
      first d whose cycle length is strictly longer than the best so far. */
  method LongestRecurringCycle(limit: int) returns (maxD: int)
    ensures maxD == 0 || 2 <= maxD < limit
    ensures IsFirstLongest(limit, maxD)
    ensures limit <= 2 ==> maxD == 0
  {
    maxD := 0;
    var maxLen := 0;
    var d := 2;
    while d < limit
      invariant 2 <= d <= if limit < 2 then 2 else limit
      invariant maxD == 0 ==> maxLen == 0
      invariant maxD != 0 ==> 2 <= maxD < d && maxLen == CycleLen(maxD)
      invariant forall e :: 2 <= e < d ==> CycleLen(e) <= maxLen
      invariant maxD != 0 ==> maxLen > 0 && forall e :: 2 <= e < maxD ==> CycleLen(e) < maxLen
    {
      var res := CycleLength(d);
      var len := res.value;
      if len > maxLen {
        maxLen := len;
        maxD := d;
      }
      d := d + 1;
    }
  }

  /** The scan's contract determines its result. */
  lemma FirstLongestUnique(limit: int, d1: int, d2: int)
    requires IsFirstLongest(limit, d1) && IsFirstLongest(limit, d2)
    ensures d1 == d2
  {
  }

  /** 1/7 = 0.(142857): the remainders run 1, 3, 2, 6, 4, 5 and repeat. */
  lemma CycleLenSeven()
    ensures CycleLen(7) == 6
  {
    assert Rem(7, 1) == 3 && Rem(7, 2) == 2 && Rem(7, 3) == 6;
    assert Rem(7, 4) == 4 && Rem(7, 5) == 5 && Rem(7, 6) == 1;
    assert Rem(7, 7) == 3 && Rem(7, 8) == 2 && Rem(7, 9) == 6;
    assert Rem(7, 10) == 4 && Rem(7, 11) == 5 && Rem(7, 12) == 1;
    assert Rem(7, 13) == 3;
    assert FirstReturn(7, 7, 6) == 6;
    assert FirstReturn(7, 7, 5) == 6;
    assert FirstReturn(7, 7, 4) == 6;
    assert FirstReturn(7, 7, 3) == 6;
    assert FirstReturn(7, 7, 2) == 6;
    assert FirstReturn(7, 7, 1) == 6;
  }

  /** Cycle lengths of the other denominators below 8: 1/2, 1/4 and 1/5
      terminate, 1/3 = 0.(3) and 1/6 = 0.1(6). */
  lemma SmallCycleLengths()
    ensures CycleLen(2) == 0 && CycleLen(4) == 0 && CycleLen(5) == 0
    ensures CycleLen(3) == 1 && CycleLen(6) == 1
  {
    assert Rem(2, 1) == 0;
    ZeroGivesCycleLen(2, 1);
    assert Rem(4, 2) == 0;
    ZeroGivesCycleLen(4, 2);
    assert Rem(5, 1) == 0;
    ZeroGivesCycleLen(5, 1);
    assert Rem(3, 3) == 1 && Rem(3, 4) == 1;
    assert Rem(6, 1) == 4 && Rem(6, 6) == 4 && Rem(6, 7) == 4;
  }

  /** Below 8 the scan can only return 7. */
  lemma LongestBelowEight(d: int)
    requires IsFirstLongest(8, d)
    ensures d == 7
  {
    SmallCycleLengths();
    CycleLenSeven();
    assert IsFirstLongest(8, 7);
    FirstLongestUnique(8, d, 7);
  }
}
