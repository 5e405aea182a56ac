/** The reconnect delay of the feed runner. */
module Backoff {
  import opened Collections

  const U64_MAX: nat := 0xFFFF_FFFF_FFFF_FFFF

  datatype RunnerConfig = RunnerConfig(
    reconnectDelaySecs: nat,
    maxReconnectDelaySecs: nat,
    maxReconnectAttempts: nat)

  const DEFAULT_RUNNER := RunnerConfig(5, 30, 5)
  const SUPERVISED_RUNNER := DEFAULT_RUNNER.(maxReconnectAttempts := 3)

  function SaturatingMul(a: nat, b: nat): nat {
    Min(a * b, U64_MAX)
  }

  function Pow2(n: nat): (p: nat)
    ensures p >= 1
  {
    if n == 0 then 1 else 2 * Pow2(n - 1)
  }

  /** The delay before the session that runs as attempt `attempts`. */
  function ReconnectDelay(config: RunnerConfig, attempts: nat): nat
    requires attempts > 0
  {
    var exp := Min(attempts - 1, 63);
    Min(SaturatingMul(config.reconnectDelaySecs, Pow2(Min(exp, 4))), config.maxReconnectDelaySecs)
  }

  /** The sum of the delays before attempts 1 to `n`. */
  function TotalDelay(config: RunnerConfig, n: nat): nat {
    if n == 0 then 0 else TotalDelay(config, n - 1) + ReconnectDelay(config, n)
  }

  /** How many of the first `n` delays are plain doublings of the base, below the cap. */
  function Uncapped(config: RunnerConfig, n: nat): nat {
    if n == 0 then 0
    else if n <= 5 && config.reconnectDelaySecs * Pow2(n - 1) <= config.maxReconnectDelaySecs then n
    else Uncapped(config, n - 1)
  }

  /** The saturating product never shows: the cap already fits in 64 bits. */
  lemma DelayDoublesUpToCap(config: RunnerConfig, k: nat)
    requires k > 0 && config.maxReconnectDelaySecs <= U64_MAX
    ensures ReconnectDelay(config, k) ==
      Min(config.reconnectDelaySecs * Pow2(Min(k - 1, 4)), config.maxReconnectDelaySecs)
  {
    var e := if k - 1 <= 4 then k - 1 else 4;
    assert Min(Min(k - 1, 63), 4) == e;
  }

  lemma {:induction false} Pow2Grows(m: nat, n: nat)
    requires m <= n
    ensures Pow2(m) <= Pow2(n)
  {
    if m == n {
    } else {
      Pow2Grows(m, n - 1);
    }
  }

  lemma ScaleGrows(base: nat, m: nat, n: nat)
    requires m <= n
    ensures base * m <= base * n
  {
  }

  lemma DelayNeverShrinks(config: RunnerConfig, j: nat, k: nat)
    requires 0 < j <= k
    ensures ReconnectDelay(config, j) <= ReconnectDelay(config, k) <= config.maxReconnectDelaySecs
  {
    var ej, ek := Min(Min(j - 1, 63), 4), Min(Min(k - 1, 63), 4);
    Pow2Grows(ej, ek);
    ScaleGrows(config.reconnectDelaySecs, Pow2(ej), Pow2(ek));
  }

  lemma GeometricStep(base: nat, p: int)
    ensures base * (2 * p - 1) == base * (p - 1) + base * p
  {
  }

  lemma TailStep(n: int, u: int, tail: nat)
    ensures (n - u) * tail == (n - 1 - u) * tail + tail
  {
  }

  function ClosedForm(config: RunnerConfig, u: nat, n: nat): int {
    config.reconnectDelaySecs * (Pow2(u) - 1) + (n - u) * TailDelay(config)
  }

  function TailDelay(config: RunnerConfig): nat {
    Min(config.reconnectDelaySecs * 16, config.maxReconnectDelaySecs)
  }

  /** Past the doublings every delay is the same. */
  lemma DelayOfTail(config: RunnerConfig, k: nat)
    requires k > 0 && config.maxReconnectDelaySecs <= U64_MAX
    requires k > 5 || config.reconnectDelaySecs * Pow2(k - 1) > config.maxReconnectDelaySecs
    ensures ReconnectDelay(config, k) == TailDelay(config)
  {
    DelayDoublesUpToCap(config, k);
    assert Pow2(4) == 16;
    if k <= 5 {
      Pow2Grows(k - 1, 4);
      ScaleGrows(config.reconnectDelaySecs, Pow2(k - 1), Pow2(4));
    }
  }

  /** A block of `n` delays: a geometric sum while uncapped, then a constant tail. */
  lemma {:induction false} TotalDelayClosedForm(config: RunnerConfig, n: nat)
    requires config.maxReconnectDelaySecs <= U64_MAX
    ensures Uncapped(config, n) <= Min(n, 5)
    ensures TotalDelay(config, n) == ClosedForm(config, Uncapped(config, n), n)
  {
    if n > 0 {
      TotalDelayClosedForm(config, n - 1);
      if n <= 5 && config.reconnectDelaySecs * Pow2(n - 1) <= config.maxReconnectDelaySecs {
        UncappedAll(config, n - 1);
        DelayDoublesUpToCap(config, n);
        GeometricStep(config.reconnectDelaySecs, Pow2(n - 1));
      } else {
        DelayOfTail(config, n);
        TailStep(n, Uncapped(config, n - 1), TailDelay(config));
      }
    } else {
      assert ClosedForm(config, 0, 0) == 0;
    }
  }

  /** If attempt `n + 1` is still below the cap, so were all before it. */
  lemma {:induction false} UncappedAll(config: RunnerConfig, n: nat)
    requires n < 5 && config.reconnectDelaySecs * Pow2(n) <= config.maxReconnectDelaySecs
    ensures Uncapped(config, n) == n
  {
    if n > 0 {
      ScaleGrows(config.reconnectDelaySecs, Pow2(n - 1), Pow2(n));
    }
  }

  /** The documented worst cases: 95 s for the bare runner, 35 s under the supervisor. */
  lemma DefaultBlocks()
    ensures TotalDelay(DEFAULT_RUNNER, DEFAULT_RUNNER.maxReconnectAttempts) == 95
    ensures TotalDelay(SUPERVISED_RUNNER, SUPERVISED_RUNNER.maxReconnectAttempts) == 35
  {
    TotalDelayClosedForm(DEFAULT_RUNNER, 5);
    TotalDelayClosedForm(SUPERVISED_RUNNER, 3);
    assert Pow2(2) == 4 && Pow2(3) == 8;
    assert Uncapped(SUPERVISED_RUNNER, 3) == 3;
    assert Uncapped(DEFAULT_RUNNER, 4) == 3;
  }
}
