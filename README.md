# problem5: least common multiple of 1..n and longest recurring decimal cycle

This project is a Dafny model of `problem5.java`. The Java class holds two
independent integer exercises, and the model proves what each computes.

- **LCM range** (`lcm_range.dfy`, module `LcmRange`).
  - `gcd` is Euclid's recursion and is modelled as the function `Gcd`.
  - `lcm` is `a * b / gcd(a, b)` and is modelled as the function `Lcm`.
  - `smallestMultiple(n)` folds `lcm` over `2..n`, starting from 1. Its
    `for` loop becomes the method `SmallestMultiple` with a `while` loop and
    its invariants.
  - Divisibility is the predicate `Divides`. Zero divides only zero, so the
    gcd contract also holds for `(0, 0)`.
  - That `lcm` is the *least* common multiple is proved with Bézout
    coefficients, which follow the same recursion as `Gcd`.
- **Cycle length** (`recurring_cycle.dfy`, module `RecurringCycle`).
  - `cycleLength(n)` simulates the long division of 1 by n. Its `HashMap`
    from each remainder to the step where it first appeared becomes a
    `map<int, int>`, and its `while` loop becomes the method `CycleLength`.
  - The `IllegalArgumentException` for `n <= 1` becomes the error value
    `Err(IllegalArgument(...))` of a `Result`.
  - The method is proved equal to a reference definition `CycleLen`, which
    does not use the map. After n steps the division has either ended or
    entered its cycle. So the cycle length is 0 if the remainder at step n
    is 0. Otherwise it is the number of steps that remainder takes to come
    back.
  - Lemmas give `CycleLen` its meaning. It is 0 exactly when the expansion
    terminates. Otherwise it is the least eventual period of the remainder
    sequence, and it is always below n.
  - `longestRecurringCycle(limit)` is the method `LongestRecurringCycle`, an
    argmax scan. Its contract says the first denominator to reach the
    maximum wins, because the source compares with a strict `>`.

The final `return 0` of `cycleLength` (line 42) is the loop's normal exit
when the remainder becomes 0, for example for n = 2 or n = 4;
`ZeroGivesCycleLen` is that path.

## Model

| member | source | states |
|---|---|---|
| `LcmRange.Gcd` | lab1/clojure_lab1/java/problem5.java:4-9 | gcd(a, b) divides both a and b, and every common divisor of a and b divides it; the recursion terminates because b decreases |
| `LcmRange.EuclidStep` | lab1/clojure_lab1/java/problem5.java:8 | for b > 0 the step from (a, b) to (b, a % b) keeps exactly the same common divisors |
| `LcmRange.GcdIsGreatest` | lab1/clojure_lab1/java/problem5.java:4-9 | for operands not both 0, gcd is positive and no common divisor is larger |
| `LcmRange.GcdUnique` | lab1/clojure_lab1/java/problem5.java:4-9 | any number that divides a and b and is divided by all their common divisors equals gcd(a, b) |
| `LcmRange.Lcm` | lab1/clojure_lab1/java/problem5.java:11-13 | for operands not both 0: lcm * gcd == a * b (the division is exact), both a and b divide lcm, and lcm is positive for positive operands |
| `LcmRange.LcmIsLeast` | lab1/clojure_lab1/java/problem5.java:11-13 | lcm(a, b) divides every common multiple of a and b |
| `LcmRange.SmallestMultiple` | lab1/clojure_lab1/java/problem5.java:15-21 | the result is positive and every k in 1..n divides it; it divides every other common multiple of 1..n, so it is the least positive one; it is 1 when n <= 1 |
| `LcmRange.SmallestMultipleOfTen` | lab1/clojure_lab1/java/problem5.java:15-21 | for n = 10 the only value meeting smallestMultiple's contract is 2520 |
| `LcmRange.SmallestMultipleOfTwenty` | lab1/clojure_lab1/java/problem5.java:62 | for n = 20, the call in main, the only value meeting smallestMultiple's contract is 232792560 |
| `RecurringCycle.Rem` | lab1/clojure_lab1/java/problem5.java:38 | the remainder after any number of long-division steps lies in [0, n - 1] |
| `RecurringCycle.Pigeonhole` | lab1/clojure_lab1/java/problem5.java:33-40 | while the remainders seen so far are nonzero and pairwise distinct, fewer than n steps have been taken, so the loop ends |
| `RecurringCycle.StopExists` | lab1/clojure_lab1/java/problem5.java:33-40 | for every n > 1 the loop stops at some step p < n, at a zero remainder or a repeat |
| `RecurringCycle.Record` | lab1/clojure_lab1/java/problem5.java:37-39 | recording a new nonzero remainder keeps the loop invariant: the keys of `seen` are exactly the remainders of the earlier steps, each mapped to its step; they are distinct and nonzero; and the map's size is the position |
| `RecurringCycle.ZeroGivesCycleLen` | lab1/clojure_lab1/java/problem5.java:42 | a zero remainder at a step p <= n means the cycle length is 0 |
| `RecurringCycle.RepeatGivesCycleLen` | lab1/clojure_lab1/java/problem5.java:34-35 | a repeat of step j's remainder at step p, after distinct nonzero remainders, means the cycle length is p - j |
| `RecurringCycle.RepeatIsCycleLength` | lab1/clojure_lab1/java/problem5.java:34-35 | the value p - j returned at a repeat is the least eventual period of the remainder sequence |
| `RecurringCycle.RepeatNeverTerminates` | lab1/clojure_lab1/java/problem5.java:34-35 | after a repeat no remainder is ever 0, so the expansion does not terminate |
| `RecurringCycle.CycleLength` | lab1/clojure_lab1/java/problem5.java:24-43 | n <= 1 gives the IllegalArgument error; otherwise the result is the reference cycle length `CycleLen(n)` |
| `RecurringCycle.CycleLenMeaning` | lab1/clojure_lab1/java/problem5.java:24-43 | the cycle length is 0 exactly when some remainder is 0; otherwise it is the least eventual period of the remainders; it is at most n - 1 |
| `RecurringCycle.CycleLenSeven` | lab1/clojure_lab1/java/problem5.java:24-43 | the cycle length of 7 is 6 |
| `RecurringCycle.SmallCycleLengths` | lab1/clojure_lab1/java/problem5.java:24-43 | the cycle lengths of 2, 4 and 5 are 0; those of 3 and 6 are 1 |
| `RecurringCycle.LongestRecurringCycle` | lab1/clojure_lab1/java/problem5.java:45-58 | the result is 0 or some d in [2, limit); it is 0 exactly when every d in [2, limit) has cycle length 0, in particular when limit <= 2; otherwise no d in range has a longer cycle and every smaller d has a strictly shorter one, so the first maximum wins |
| `RecurringCycle.FirstLongestUnique` | lab1/clojure_lab1/java/problem5.java:49-55 | the first-wins argmax contract determines the scan's result |
| `RecurringCycle.LongestBelowEight` | lab1/clojure_lab1/java/problem5.java:45-58 | for limit 8 the only value meeting the scan's contract is 7 |

## Left out

- `main` (lines 60-68) only prints the two results and is not modelled.
- `LcmRange.Lcm`: uses unbounded integers. The source's `long` product `a * b` can overflow for large operands, and the model does not capture that wrap-around.
- `LcmRange.SmallestMultiple`: the accumulator is unbounded, so the `long` overflow of `result` for large n is not modelled. The `int` counter `i` is unbounded too: with n equal to `Integer.MAX_VALUE` the source's `i <= n` never becomes false because `i` wraps around, so the Java loop never ends, while the model's loop always terminates.
- `RecurringCycle.CycleLength`: `remainder * 10` is unbounded. The source's 32-bit `int` overflows when n exceeds about 2^31 / 10, and the model does not capture that.
- `LcmRange.Gcd`: the operands are natural numbers. Java's `%` keeps the sign of the dividend on negative operands, and no caller passes negative values.
- `LcmRange.Lcm`: lcm(0, 0) divides by zero in the source. A precondition excludes it.
- The `java.util.HashMap` implementation is modelled by a `map<int, int>`. Only its key-to-step contents matter.
- The value 983 that main prints for `longestRecurringCycle(1000)` is not proved. Evaluating `CycleLen` for every denominator below 1000 is beyond what the verifier can evaluate cheaply.
