/** Proof-of-work difficulty: clamping, windowed retargeting and the difficulty a chain expects next. */
module Difficulty {
  import opened Models

  const ADJUSTMENT_WINDOW: nat := 2016
  const TARGET_INTERVAL_SECONDS: int := 30
  const TARGET_TIMESPAN: int := ADJUSTMENT_WINDOW * TARGET_INTERVAL_SECONDS
  const INITIAL_DIFFICULTY: nat := 1
  const MAX_DIFFICULTY: nat := 64
  const TWO32: int := 0x1_0000_0000
  const TWO63: int := 0x8000_0000_0000_0000
  const TWO64: int := 0x1_0000_0000_0000_0000

  function Clamp(diff: nat): (r: nat)
    ensures INITIAL_DIFFICULTY <= r <= MAX_DIFFICULTY
  {
    if diff == 0 then INITIAL_DIFFICULTY
    else if diff > MAX_DIFFICULTY then MAX_DIFFICULTY
    else diff
  }

  predicate HashMeets(hash: string, difficulty: nat) {
    var d := Clamp(difficulty);
    |hash| >= d && forall i :: 0 <= i < d ==> hash[i] == '0'
  }

  /** Two's-complement wrap-around of a 64-bit signed result. */
  function WrapInt64(x: int): int {
    (x + TWO63) % TWO64 - TWO63
  }

  function ClampTime(elapsed: int): int {
    var low := if elapsed < TARGET_TIMESPAN / 4 then TARGET_TIMESPAN / 4 else elapsed;
    var high := if low > TARGET_TIMESPAN * 4 then TARGET_TIMESPAN * 4 else low;
    if high <= 0 then 1 else high
  }

  /** The 64-bit numerator of the rounded division, with its wrap-around. */
  function Numerator(difficulty: nat, time: int): nat
    requires time > 0
  {
    (difficulty * TARGET_TIMESPAN % TWO64 + time / 2) % TWO64
  }

  function CalculateNewDifficulty(last: Option<Block>, first: Option<Block>): nat {
    if last.None? || first.None? then INITIAL_DIFFICULTY
    else
      var time := ClampTime(WrapInt64(last.value.timestamp - first.value.timestamp));
      Clamp(Quotient(Numerator(Clamp(last.value.difficulty), time), time) % TWO32)
  }

  function ExpectedDifficulty(chain: seq<Block>): (r: nat)
    ensures INITIAL_DIFFICULTY <= r <= MAX_DIFFICULTY
  {
    if chain == [] then INITIAL_DIFFICULTY
    else
      var last := chain[|chain| - 1];
      if (last.index + 1) % ADJUSTMENT_WINDOW != 0 || |chain| < ADJUSTMENT_WINDOW then Clamp(last.difficulty)
      else CalculateNewDifficulty(Some(last), Some(chain[|chain| - ADJUSTMENT_WINDOW]))
  }

  /** How many zeros a hash begins with. */
  function LeadingZeros(hash: string): nat {
    if hash == "" || hash[0] != '0' then 0 else 1 + LeadingZeros(hash[1..])
  }

  lemma {:induction false} ZerosExactly(hash: string, d: nat)
    ensures LeadingZeros(hash) >= d <==> |hash| >= d && forall i :: 0 <= i < d ==> hash[i] == '0'
  {
    if d > 0 && hash != "" && hash[0] == '0' {
      ZerosExactly(hash[1..], d - 1);
      assert forall i :: 0 < i < |hash| ==> hash[i] == hash[1..][i - 1];
    }
  }

  /** A hash meets a difficulty from 1 to 64 if and only if it begins with that many zeros, so a hash that
      meets one meets every lower one. */
  lemma HashMeetsExactly(hash: string, difficulty: nat)
    ensures 1 <= difficulty <= 64 ==> (HashMeets(hash, difficulty) <==> LeadingZeros(hash) >= difficulty)
    ensures difficulty == 0 ==> (HashMeets(hash, difficulty) <==> LeadingZeros(hash) >= 1)
    ensures difficulty > 64 ==> (HashMeets(hash, difficulty) <==> LeadingZeros(hash) >= 64)
  {
    ZerosExactly(hash, Clamp(difficulty));
  }

  // ---- Retargeting as arithmetic ----

  /** `q` is n / a rounded to the nearest integer, halves upwards. */
  predicate NearestHalfUp(q: int, n: int, a: int) {
    2 * n - a < 2 * q * a <= 2 * n + a
  }

  predicate Fits64(x: int) {
    -TWO63 <= x < TWO63
  }

  /** What retargeting should compute: the nearest integer to d*T/a, for the elapsed time `a`
      limited to [T/4, 4T], then clamped. */
  function Retarget(d: nat, elapsed: int): nat {
    var a := ClampTime(elapsed);
    Clamp(Quotient(d * TARGET_TIMESPAN + a / 2, a))
  }

  function Quotient(n: nat, a: int): (q: nat)
    requires a > 0
    ensures q * a <= n < q * a + a
  {
    n / a
  }

  lemma MulMonotone(x: int, y: int, a: int)
    requires x <= y && a >= 0
    ensures x * a <= y * a
  {}

  /** A quotient is determined by its bounds. */
  lemma QuotientBetween(q: int, n: int, a: int, low: int, high: int)
    requires a > 0 && q * a <= n < q * a + a
    requires low * a <= n < high * a
    ensures low <= q < high
  {
    if q < low {
      MulMonotone(q + 1, low, a);
    }
    if q >= high { MulMonotone(high, q, a); }
  }

  lemma QuotientMonotone(n: nat, m: nat, a: int)
    requires a > 0 && n <= m
    ensures Quotient(n, a) <= Quotient(m, a)
  {
    var q, p := Quotient(n, a), Quotient(m, a);
    if p < q {
      MulMonotone(p + 1, q, a);
    }
  }

  lemma RoundedDivision(n: nat, a: int)
    requires a > 0
    ensures NearestHalfUp(Quotient(n + a / 2, a), n, a)
  {
    var q := Quotient(n + a / 2, a);
    assert 2 * q * a == 2 * (q * a);
  }

  lemma NearestIsUnique(q: int, p: int, n: int, a: int)
    requires a > 0 && NearestHalfUp(q, n, a) && NearestHalfUp(p, n, a)
    ensures q == p
  {
    assert 2 * q * a == 2 * (q * a) && 2 * p * a == 2 * (p * a);
    if q < p {
      MulMonotone(q + 1, p, a);
    }
    if p < q {
      MulMonotone(p + 1, q, a);
    }
  }

  lemma RoundingBounds(n: nat, a: int)
    requires a > 0
    ensures 2 * (Quotient(n + a / 2, a) * a) <= 2 * n + a
    ensures 2 * n < 2 * (Quotient(n + a / 2, a) * a) + a
  {}

  lemma Distribute(p: int, b: int)
    ensures (p + 1) * b == p * b + b
  {}

  /** Dividing by more, with the matching rounding term, gives no more. */
  lemma QuotientAntitone(n: nat, a: int, b: int)
    requires 0 < a <= b
    ensures Quotient(n + b / 2, b) <= Quotient(n + a / 2, a)
  {
    var q, p := Quotient(n + b / 2, b), Quotient(n + a / 2, a);
    RoundingBounds(n, a);
    RoundingBounds(n, b);
    if q > p {
      // 2n >= 2qb - b >= 2pb + b >= 2pa + a > 2n
      MulMonotone(p + 1, q, b);
      Distribute(p, b);
      assert a * p <= b * p by { MulMonotone(a, b, p); }
    }
  }

  lemma NumeratorFits(d: nat, a: int)
    requires 1 <= d <= MAX_DIFFICULTY && TARGET_TIMESPAN / 4 <= a <= 4 * TARGET_TIMESPAN
    ensures Numerator(d, a) == d * TARGET_TIMESPAN + a / 2 < TWO63
  {}

  lemma AtMostFourfold(d: nat, a: int, q: int)
    requires TARGET_TIMESPAN / 4 <= a && q * a <= d * TARGET_TIMESPAN + a / 2
    ensures q <= 4 * d
  {
    MulMonotone(15120, a, 4 * d);
    if q > 4 * d { MulMonotone(4 * d + 1, q, a); }
  }

  lemma AtLeastAQuarter(d: nat, a: int, q: int)
    requires 0 < a <= 4 * TARGET_TIMESPAN && q * a + a > d * TARGET_TIMESPAN + a / 2
    ensures 4 * q >= d - 1
  {
    MulMonotone(a, 4 * TARGET_TIMESPAN, d);
    if 4 * q < d - 1 { MulMonotone(4 * q, d - 2, a); }
  }

  lemma WrapFits(x: int)
    requires Fits64(x)
    ensures WrapInt64(x) == x
  {}

  lemma QuotientFits(d: nat, a: int)
    requires 1 <= d <= MAX_DIFFICULTY && TARGET_TIMESPAN / 4 <= a
    ensures Quotient(d * TARGET_TIMESPAN + a / 2, a) < TWO32
  {
    AtMostFourfold(d, a, Quotient(d * TARGET_TIMESPAN + a / 2, a));
  }

  /** The elapsed seconds count as they are from a quarter of 60,480 to four times it, and as the limit beyond. */
  lemma ClampedTime(elapsed: int)
    ensures 15120 <= elapsed <= 241920 ==> ClampTime(elapsed) == elapsed
    ensures elapsed < 15120 ==> ClampTime(elapsed) == 15120
    ensures elapsed > 241920 ==> ClampTime(elapsed) == 241920
  {}

  /** When the timestamp difference fits 64 bits, no step of the machine arithmetic wraps, and the
      result is the clamped nearest integer to d * 60480 / a, for the elapsed seconds `a` limited to
      15,120..241,920. */
  lemma MachineRetarget(last: Block, first: Block)
    requires Fits64(last.timestamp - first.timestamp)
    ensures var elapsed := last.timestamp - first.timestamp;
            var a := if elapsed < 15120 then 15120 else if elapsed > 241920 then 241920 else elapsed;
            exists q: nat ::
              && NearestHalfUp(q, Clamp(last.difficulty) * 60480, a)
              && CalculateNewDifficulty(Some(last), Some(first)) == if q < 1 then 1 else if q > 64 then 64 else q
    ensures var d, elapsed := Clamp(last.difficulty), last.timestamp - first.timestamp;
            var a := ClampTime(elapsed);
            && TARGET_TIMESPAN / 4 <= a <= 4 * TARGET_TIMESPAN
            && Numerator(d, a) == d * TARGET_TIMESPAN + a / 2 < TWO63
            && Quotient(Numerator(d, a), a) < TWO32
            && CalculateNewDifficulty(Some(last), Some(first)) == Retarget(d, elapsed)
            && NearestHalfUp(Quotient(Numerator(d, a), a), d * TARGET_TIMESPAN, a)
            && Retarget(d, elapsed) == Clamp(Quotient(Numerator(d, a), a))
  {
    var d, elapsed := Clamp(last.difficulty), last.timestamp - first.timestamp;
    var a := ClampTime(elapsed);
    WrapFits(elapsed);
    ClampedTime(elapsed);
    NumeratorFits(d, a);
    QuotientFits(d, a);
    RoundedDivision(d * TARGET_TIMESPAN, a);
    var q := Quotient(Numerator(d, a), a);
    SmallMod(q);
    assert NearestHalfUp(q, d * 60480, a);
  }

  lemma SmallMod(q: nat)
    requires q < TWO32
    ensures q % TWO32 == q
  {}

  /** Slower windows never raise the difficulty; higher old difficulties never lower it. */
  lemma RetargetMonotone(d: nat, e: nat, t: int, u: int)
    requires d <= e && t <= u
    ensures Retarget(d, u) <= Retarget(d, t)
    ensures Retarget(d, t) <= Retarget(e, t)
  {
    QuotientAntitone(d * TARGET_TIMESPAN, ClampTime(t), ClampTime(u));
    var a := ClampTime(t);
    QuotientMonotone(d * TARGET_TIMESPAN + a / 2, e * TARGET_TIMESPAN + a / 2, a);
  }

  /** A window exactly on target keeps the difficulty; any window changes it at most fourfold
      upwards and not below (d-1)/4. */
  lemma RetargetDamped(d: nat, t: int)
    requires 1 <= d <= MAX_DIFFICULTY
    ensures Retarget(d, TARGET_TIMESPAN) == d
    ensures d - 1 <= 4 * Retarget(d, t) <= 16 * d
  {
    var onTarget := d * TARGET_TIMESPAN + TARGET_TIMESPAN / 2;
    QuotientBetween(Quotient(onTarget, TARGET_TIMESPAN), onTarget, TARGET_TIMESPAN, d, d + 1);
    var a := ClampTime(t);
    var q := Quotient(d * TARGET_TIMESPAN + a / 2, a);
    AtMostFourfold(d, a, q);
    AtLeastAQuarter(d, a, q);
  }

  /** The slowest window there can be. */
  lemma SlowestWindow(d: nat)
    requires 1 <= d <= MAX_DIFFICULTY
    ensures Retarget(d, 4 * TARGET_TIMESPAN) == if d == 1 then 1 else (d + 2) / 4
  {
    var a := 4 * TARGET_TIMESPAN;
    assert ClampTime(a) == a;
    var n := d * TARGET_TIMESPAN + a / 2;
    QuotientBetween(Quotient(n, a), n, a, (d + 2) / 4, (d + 2) / 4 + 1);
  }

  /** A window of at most a quarter of the target raises the difficulty fourfold, up to 64; one of at least
      four times the target lowers it to the nearest quarter, down to 1. */
  lemma ExtremeWindows(d: nat, t: int)
    requires 1 <= d <= MAX_DIFFICULTY
    ensures t <= 15120 ==> Retarget(d, t) == if 4 * d > 64 then 64 else 4 * d
    ensures t >= 241920 ==> Retarget(d, t) == if d == 1 then 1 else (d + 2) / 4
  {
    ClampedTime(t);
    SlowestWindow(d);
    ClampedTime(4 * TARGET_TIMESPAN);
    if t <= 15120 {
      var n := d * TARGET_TIMESPAN + 15120 / 2;
      assert 15120 * (4 * d) == d * TARGET_TIMESPAN;
      QuotientBetween(Quotient(n, 15120), n, 15120, 4 * d, 4 * d + 1);
    }
  }

  /** The documented limit, never below a quarter, is broken by rounding: it holds for every window
      exactly when the old difficulty is 1 or not one more than a multiple of 4. */
  lemma QuarterKeptExactly(d: nat)
    requires 1 <= d <= MAX_DIFFICULTY
    ensures (forall t :: 4 * Retarget(d, t) >= d) <==> d == 1 || d % 4 != 1
  {
    SlowestWindow(d);
    var slowest := Retarget(d, 4 * TARGET_TIMESPAN);
    forall t ensures Retarget(d, t) >= slowest {
      if t <= 4 * TARGET_TIMESPAN {
        RetargetMonotone(d, d, t, 4 * TARGET_TIMESPAN);
      } else {
        assert ClampTime(t) == ClampTime(4 * TARGET_TIMESPAN);
      }
    }
    assert 4 * slowest >= d <==> d == 1 || d % 4 != 1;
  }

  // ---- Windows ----

  /** Each block carries the difficulty its predecessors call for. */
  ghost predicate FollowsSchedule(chain: seq<Block>) {
    forall i :: 0 < i < |chain| ==> Clamp(chain[i].difficulty) == ExpectedDifficulty(chain[..i])
  }

  ghost predicate Positioned(chain: seq<Block>) {
    forall i :: 0 <= i < |chain| ==> chain[i].index == i
  }

  lemma FullWindow(i: nat)
    requires 0 < i && i % ADJUSTMENT_WINDOW == 0
    ensures i >= ADJUSTMENT_WINDOW
  {}

  lemma ExpectedWithin(p: seq<Block>)
    requires p != [] && p[|p| - 1].index == |p| - 1
    ensures |p| % ADJUSTMENT_WINDOW != 0 ==> ExpectedDifficulty(p) == Clamp(p[|p| - 1].difficulty)
    ensures |p| % ADJUSTMENT_WINDOW == 0 ==>
              |p| >= ADJUSTMENT_WINDOW &&
              ExpectedDifficulty(p) == CalculateNewDifficulty(Some(p[|p| - 1]), Some(p[|p| - ADJUSTMENT_WINDOW]))
  {
    if |p| % ADJUSTMENT_WINDOW == 0 { FullWindow(|p|); }
  }

  lemma ScheduleAt(chain: seq<Block>, i: nat)
    requires FollowsSchedule(chain) && Positioned(chain) && 0 < i < |chain|
    ensures i % ADJUSTMENT_WINDOW != 0 ==> Clamp(chain[i].difficulty) == Clamp(chain[i - 1].difficulty)
    ensures i % ADJUSTMENT_WINDOW == 0 ==>
              i >= ADJUSTMENT_WINDOW &&
              Clamp(chain[i].difficulty)
                  == CalculateNewDifficulty(Some(chain[i - 1]), Some(chain[i - ADJUSTMENT_WINDOW]))
  {
    var p, d := chain[..i], Clamp(chain[i].difficulty);
    assert d == ExpectedDifficulty(p);
    var last := p[|p| - 1];
    assert last == chain[i - 1] && last.index == i - 1;
    ExpectedWithin(p);
    if i % ADJUSTMENT_WINDOW == 0 {
      FullWindow(i);
      var first := p[i - ADJUSTMENT_WINDOW];
      assert first == chain[i - ADJUSTMENT_WINDOW];
      assert d == CalculateNewDifficulty(Some(last), Some(first));
    } else {
      assert d == Clamp(last.difficulty);
    }
  }

  lemma ModStep(i: nat)
    requires i % ADJUSTMENT_WINDOW != 0
    ensures i > 0 && (i - 1) % ADJUSTMENT_WINDOW == i % ADJUSTMENT_WINDOW - 1
  {}

  /** The difficulty changes at multiples of 2016 only. */
  ghost predicate StepsAtWindows(chain: seq<Block>) {
    forall i :: 0 < i < |chain| && i % ADJUSTMENT_WINDOW != 0 ==>
          Clamp(chain[i].difficulty) == Clamp(chain[i - 1].difficulty)
  }

  lemma ScheduleSteps(chain: seq<Block>)
    requires FollowsSchedule(chain) && Positioned(chain)
    ensures StepsAtWindows(chain)
  {
    forall i | 0 < i < |chain| && i % ADJUSTMENT_WINDOW != 0
      ensures Clamp(chain[i].difficulty) == Clamp(chain[i - 1].difficulty)
    {
      ScheduleAt(chain, i);
    }
  }

  /** Inside one window the clamped difficulty is that of the window's first block. */
  lemma {:induction false} WindowStart(chain: seq<Block>, i: nat)
    requires StepsAtWindows(chain) && i < |chain|
    ensures Clamp(chain[i].difficulty) == Clamp(chain[i - i % ADJUSTMENT_WINDOW].difficulty)
    decreases i
  {
    if i % ADJUSTMENT_WINDOW != 0 {
      ModStep(i);
      WindowStart(chain, i - 1);
    }
  }

  lemma SameWindow(i: nat, j: nat)
    requires i / ADJUSTMENT_WINDOW == j / ADJUSTMENT_WINDOW
    ensures i - i % ADJUSTMENT_WINDOW == j - j % ADJUSTMENT_WINDOW
  {}

  /** The difficulty is constant inside each window of 2016 blocks. */
  lemma OnePerWindow(chain: seq<Block>, i: nat, j: nat)
    requires StepsAtWindows(chain) && i < |chain| && j < |chain| && i / ADJUSTMENT_WINDOW == j / ADJUSTMENT_WINDOW
    ensures Clamp(chain[i].difficulty) == Clamp(chain[j].difficulty)
  {
    WindowStart(chain, i);
    WindowStart(chain, j);
    SameWindow(i, j);
  }

  /** The difficulty is constant inside each window of 2016 blocks, and at a later window's first
      block it is the retarget of the window before. */
  lemma WindowedDifficulty(chain: seq<Block>, i: nat, j: nat)
    requires FollowsSchedule(chain) && Positioned(chain) && i < |chain| && j < |chain|
    ensures i / ADJUSTMENT_WINDOW == j / ADJUSTMENT_WINDOW ==>
              Clamp(chain[i].difficulty) == Clamp(chain[j].difficulty)
    ensures 0 < i && i % ADJUSTMENT_WINDOW == 0 ==>
              Clamp(chain[i].difficulty)
                  == CalculateNewDifficulty(Some(chain[i - 1]), Some(chain[i - ADJUSTMENT_WINDOW]))
  {
    ScheduleSteps(chain);
    if i / ADJUSTMENT_WINDOW == j / ADJUSTMENT_WINDOW { OnePerWindow(chain, i, j); }
    if 0 < i { ScheduleAt(chain, i); }
  }
}
