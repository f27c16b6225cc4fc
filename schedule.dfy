/**
 The two periodic corrections of the chain: the halving reward schedule and
 the difficulty controller. Mining times are integer milliseconds and rewards
 are exact reals.
 */
module Schedule {

  function Pow2(k: nat): (p: nat)
    ensures p >= 1
  {
    if k == 0 then 1 else 2 * Pow2(k - 1)
  }

  /** The reward in force once the tip has the given index: `initial / 2 ** (index // interval)`. */
  function RewardAt(initial: real, index: nat, interval: int): real
    requires interval > 0
  {
    initial / Pow2(index / interval) as real
  }

  /** The reward never becomes negative or grows, and stays positive when the initial reward is. */
  lemma RewardBounds(initial: real, index: nat, interval: int)
    requires interval > 0
    ensures initial > 0.0 ==> 0.0 < RewardAt(initial, index, interval) <= initial
    ensures initial == 0.0 ==> RewardAt(initial, index, interval) == 0.0
  {
    var p := Pow2(index / interval) as real;
    if initial > 0.0 {
      assert initial / p * p == initial;
    }
  }

  lemma MulAtLeast(x: int, m: int)
    requires x >= 1 && m > 0
    ensures x * m >= m
  {
  }

  lemma DivModUnique(a: int, m: int, q: int, r: int)
    requires m > 0 && 0 <= r < m && a == q * m + r
    ensures a / m == q && a % m == r
  {
    var q', r' := a / m, a % m;
    assert q' * m + r' == q * m + r;
    assert (q' - q) * m == r - r';
    if q' > q {
      MulAtLeast(q' - q, m);
    } else if q' < q {
      MulAtLeast(q - q', m);
    }
  }

  /** Stepping the tip index back by one stays in the same period unless the index starts a period. */
  lemma DivModPrevious(k: int, m: int)
    requires k >= 1 && m > 0 && k % m != 0
    ensures (k - 1) / m == k / m && (k - 1) % m == k % m - 1
  {
    DivModUnique(k - 1, m, k / m, k % m - 1);
  }

  /** The index before one that starts a period is the last of the previous period. */
  lemma DivModPeriodEnd(k: int, m: int)
    requires k >= 1 && m > 0 && k % m == 0
    ensures (k - 1) % m == m - 1
  {
    var q := k / m;
    assert k == q * m;
    assert k - 1 == (q - 1) * m + (m - 1);
    DivModUnique(k - 1, m, q - 1, m - 1);
  }

  /**
   The bookkeeping a chain whose tip has index `tip` keeps: one mining time per
   block since the last difficulty correction, and the scheduled reward.
   */
  ghost predicate Scheduled(tip: nat, timeCount: nat, reward: real, initial: real,
                            correctionInterval: int, halvingInterval: int)
  {
    && correctionInterval > 0
    && halvingInterval > 0
    && timeCount == tip % correctionInterval
    && reward == RewardAt(initial, tip, halvingInterval)
  }

  /**
   Appending one block keeps the bookkeeping: the times are reset exactly when
   the new index starts a correction period, at which point there are exactly
   `correctionInterval` of them, and the reward is recomputed exactly when the
   new index starts a halving period.
   */
  lemma ScheduledStep(tip: nat, timeCount: nat, reward: real, initial: real,
                      correctionInterval: int, halvingInterval: int)
    requires Scheduled(tip, timeCount, reward, initial, correctionInterval, halvingInterval)
    ensures var k := tip + 1;
      && (k % correctionInterval == 0 ==> timeCount + 1 == correctionInterval)
      && Scheduled(k, if k % correctionInterval == 0 then 0 else timeCount + 1,
                   if k % halvingInterval == 0 then RewardAt(initial, k, halvingInterval) else reward,
                   initial, correctionInterval, halvingInterval)
  {
    var k := tip + 1;
    if k % correctionInterval == 0 {
      DivModPeriodEnd(k, correctionInterval);
    } else {
      DivModPrevious(k, correctionInterval);
    }
    if k % halvingInterval != 0 {
      RewardConstantInPeriod(initial, k, halvingInterval);
    }
  }

  /** One full halving interval later the reward is exactly half. */
  lemma RewardHalves(initial: real, index: nat, interval: int)
    requires interval > 0
    ensures RewardAt(initial, index + interval, interval) == RewardAt(initial, index, interval) / 2.0
  {
    DivModUnique(index + interval, interval, index / interval + 1, index % interval);
    var p := Pow2(index / interval) as real;
    assert Pow2((index + interval) / interval) as real == 2.0 * p;
  }

  /** Within one halving interval the reward does not change. */
  lemma RewardConstantInPeriod(initial: real, index: nat, interval: int)
    requires interval > 0 && index >= 1 && index % interval != 0
    ensures RewardAt(initial, index, interval) == RewardAt(initial, index - 1, interval)
  {
    DivModPrevious(index, interval);
  }

  /** With initial reward 50 and halving interval 10: 50 up to index 9, 25 at index 10, 12.5 at 20. */
  lemma RewardExamples()
    ensures RewardAt(50.0, 9, 10) == 50.0
    ensures RewardAt(50.0, 10, 10) == 25.0
    ensures RewardAt(50.0, 20, 10) == 12.5
  {
    RewardHalves(50.0, 0, 10);
    RewardHalves(50.0, 10, 10);
  }

  /** `sum(times)`; the sum of non-negative times is non-negative. */
  function Sum(s: seq<int>): (r: int)
    ensures (forall i :: 0 <= i < |s| ==> s[i] >= 0) ==> r >= 0
  {
    if s == [] then 0 else Sum(s[..|s| - 1]) + s[|s| - 1]
  }

  /**
   Python's `round` of the exact quotient a / b: the nearest integer, and the
   even one of the two when a / b lies exactly half-way between them.
   */
  function RoundDiv(a: int, b: int): (r: int)
    requires b > 0
    ensures b * (2 * r - 1) <= 2 * a <= b * (2 * r + 1)
    ensures (2 * a == b * (2 * r - 1) || 2 * a == b * (2 * r + 1)) ==> r % 2 == 0
  {
    var q, m := a / b, a % b;
    var r := if 2 * m > b then q + 1 else if 2 * m < b then q else if q % 2 == 0 then q else q + 1;
    RoundDivBounds(a, b, q, m, r);
    r
  }

  lemma RoundDivBounds(a: int, b: int, q: int, m: int, r: int)
    requires b > 0 && 0 <= m < b && a == b * q + m
    requires r == q || r == q + 1
    requires r == q + 1 <==> 2 * m > b || (2 * m == b && q % 2 != 0)
    ensures b * (2 * r - 1) <= 2 * a <= b * (2 * r + 1)
    ensures (2 * a == b * (2 * r - 1) || 2 * a == b * (2 * r + 1)) ==> r % 2 == 0
  {
    var bq := b * q;
    assert b * (2 * q - 1) == 2 * bq - b;
    assert b * (2 * q + 1) == 2 * bq + b;
    assert b * (2 * q + 3) == 2 * bq + 3 * b;
  }

  /** Ties go to the even neighbour, as Python's `round` does: 2.5 -> 2, 3.5 -> 4, -2.5 -> -2. */
  lemma RoundHalfToEven()
    ensures RoundDiv(5, 2) == 2 && RoundDiv(7, 2) == 4 && RoundDiv(-5, 2) == -2
  {
  }

  lemma MulLess(x: int, y: int, n: int)
    requires n > 0 && x * n < y * n
    ensures x < y
  {
  }

  /** A mean more than one unit above the threshold a / 5 still rounds above the rounded threshold. */
  lemma RoundedAbove(s: int, n: int, a: int)
    requires n > 0 && 5 * s > (a + 5) * n
    ensures RoundDiv(s, n) > RoundDiv(a, 5)
  {
    var m, u := RoundDiv(s, n), RoundDiv(a, 5);
    assert 2 * s <= n * (2 * m + 1);
    assert (2 * a + 10) * n < (10 * m + 5) * n;
    MulLess(2 * a + 10, 10 * m + 5, n);
  }

  /** A mean more than one unit below the threshold a / 5 still rounds below the rounded threshold. */
  lemma RoundedBelow(s: int, n: int, a: int)
    requires n > 0 && 5 * s < (a - 5) * n
    ensures RoundDiv(s, n) < RoundDiv(a, 5)
  {
    var m, u := RoundDiv(s, n), RoundDiv(a, 5);
    assert n * (2 * m - 1) <= 2 * s;
    assert (10 * m - 5) * n < (2 * a - 10) * n;
    MulLess(10 * m - 5, 2 * a - 10, n);
  }

  /** The exact mean of s over n compared with a fraction num / den, cross-multiplied. */
  lemma CompareMean(s: int, n: int, num: int, den: int)
    requires n > 0 && den > 0
    ensures s as real / n as real > num as real / den as real <==> den * s > num * n
    ensures s as real / n as real < num as real / den as real <==> den * s < num * n
  {
    var mean, bound := s as real / n as real, num as real / den as real;
    assert mean * n as real == s as real;
    assert bound * den as real == num as real;
    var k := (n * den) as real;
    assert (mean > bound) <==> mean * k > bound * k;
    assert (mean < bound) <==> mean * k < bound * k;
    assert mean * k == (den * s) as real;
    assert bound * k == (num * n) as real;
  }

  /**
   The difficulty controller on integer milliseconds. As in the source, the
   mean mining time and the bounds 1.2 and 0.8 times the target are each
   rounded to three decimals of a second, that is to whole milliseconds,
   before they are compared.
   */
  function NewDifficulty(difficulty: int, times: seq<int>, target: int): (r: int)
    requires |times| > 0
    ensures difficulty - 1 <= r <= difficulty + 1
  {
    var mean := RoundDiv(Sum(times), |times|);
    var up, down := RoundDiv(6 * target, 5), RoundDiv(4 * target, 5);
    if mean > up then difficulty - 1
    else if mean < down then difficulty + 1
    else difficulty
  }

  /**
   The controller in terms of the exact mean mining time: one less when the
   mean exceeds 1.2 times the target by more than a millisecond, one more when
   it is more than a millisecond below 0.8 times the target, unchanged when it
   is more than a millisecond inside both bounds. Within a millisecond of a
   bound the verdict depends on the rounding.
   */
  lemma NewDifficultyFollowsMean(difficulty: int, times: seq<int>, target: int)
    requires |times| > 0
    ensures var mean, t := Sum(times) as real / |times| as real, target as real;
      && (mean > 1.2 * t + 1.0 ==> NewDifficulty(difficulty, times, target) == difficulty - 1)
      && (target >= 0 && mean < 0.8 * t - 1.0 ==> NewDifficulty(difficulty, times, target) == difficulty + 1)
      && (0.8 * t + 1.0 < mean < 1.2 * t - 1.0 ==> NewDifficulty(difficulty, times, target) == difficulty)
  {
    SlowPeriod(difficulty, times, target);
    FastPeriod(difficulty, times, target);
    OnTargetPeriod(difficulty, times, target);
  }

  lemma SlowPeriod(difficulty: int, times: seq<int>, target: int)
    requires |times| > 0
    ensures Sum(times) as real / |times| as real > 1.2 * target as real + 1.0 ==>
              NewDifficulty(difficulty, times, target) == difficulty - 1
  {
    var s, n := Sum(times), |times|;
    CompareMean(s, n, 6 * target + 5, 5);
    assert (6 * target + 5) as real / 5.0 == 1.2 * target as real + 1.0;
    if 5 * s > (6 * target + 5) * n {
      RoundedAbove(s, n, 6 * target);
    }
  }

  lemma FastPeriod(difficulty: int, times: seq<int>, target: int)
    requires |times| > 0
    ensures target >= 0 && Sum(times) as real / |times| as real < 0.8 * target as real - 1.0 ==>
              NewDifficulty(difficulty, times, target) == difficulty + 1
  {
    var s, n := Sum(times), |times|;
    CompareMean(s, n, 4 * target - 5, 5);
    assert (4 * target - 5) as real / 5.0 == 0.8 * target as real - 1.0;
    if target >= 0 && 5 * s < (4 * target - 5) * n {
      var tn := target * n;
      assert tn >= 0;
      assert (6 * target - 5) * n == (4 * target - 5) * n + 2 * tn;
      RoundedBelow(s, n, 4 * target);
      RoundedBelow(s, n, 6 * target);
    }
  }

  lemma OnTargetPeriod(difficulty: int, times: seq<int>, target: int)
    requires |times| > 0
    ensures 0.8 * target as real + 1.0 < Sum(times) as real / |times| as real < 1.2 * target as real - 1.0 ==>
              NewDifficulty(difficulty, times, target) == difficulty
  {
    var s, n := Sum(times), |times|;
    CompareMean(s, n, 4 * target + 5, 5);
    CompareMean(s, n, 6 * target - 5, 5);
    assert (4 * target + 5) as real / 5.0 == 0.8 * target as real + 1.0;
    assert (6 * target - 5) as real / 5.0 == 1.2 * target as real - 1.0;
    if (4 * target + 5) * n < 5 * s < (6 * target - 5) * n {
      RoundedBelow(s, n, 6 * target);
      RoundedAbove(s, n, 4 * target);
    }
  }

  /** Target 2 s: a mean of 3 s lowers difficulty by one, 1 s raises it by one, 2 s keeps it. */
  lemma DifficultyExamples(d: int)
    ensures NewDifficulty(d, [3000, 3000], 2000) == d - 1
    ensures NewDifficulty(d, [1000, 1000], 2000) == d + 1
    ensures NewDifficulty(d, [2500, 1500], 2000) == d
  {
    assert Sum([3000, 3000]) == 6000;
    assert Sum([1000, 1000]) == 2000;
    assert Sum([2500, 1500]) == 4000;
  }

  /**
   The rounding decides near a bound: times of 2.4, 2.4 and 2.401 s have mean
   2.40033 s, which rounds to the upper bound 2.4 s, so the difficulty stays.
   */
  lemma RoundedMeanAtBound(d: int)
    ensures NewDifficulty(d, [2400, 2400, 2401], 2000) == d
  {
    assert [2400, 2400, 2401][..2] == [2400, 2400];
    assert Sum([2400, 2400]) == 4800;
    assert Sum([2400, 2400, 2401]) == 7201;
  }

  /** The controller has no floor: from difficulty 0 one slow period makes it negative. */
  lemma DifficultyCanGoNegative()
    ensures NewDifficulty(0, [3000], 2000) == -1
  {
    assert Sum([3000]) == 3000;
  }
}
