/** arm_pid_q15: an incremental PID controller in fixed point. */
module PidController {
  import opened Basics
  import opened FixedPoint

  /** Controller gains; the kernel works with their combinations A0, A1, A2. */
  datatype Gains = Gains(kp: int, ki: int, kd: int) {
    function A0(): int { kp + ki + kd }
    function A1(): int { -kp - 2 * kd }
    function A2(): int { kd }

    predicate Fit() {
      IsQ15(A0()) && IsQ15(A1()) && IsQ15(A2())
    }
  }

  /** The last two inputs and the last output. */
  datatype History = History(x1: int, x2: int, y1: int) {
    predicate Fits() {
      IsQ15(x1) && IsQ15(x2) && IsQ15(y1)
    }
  }

  const AT_REST := History(0, 0, 0)

  predicate AllQ15(xs: seq<int>) {
    forall i :: 0 <= i < |xs| ==> IsQ15(xs[i])
  }

  /** What the controller adds up before it truncates and saturates. */
  function Accumulated(g: Gains, h: History, x: int): int {
    g.A0() * x + g.A1() * h.x1 + g.A2() * h.x2 + h.y1 * TWO15
  }

  function Output(g: Gains, h: History, x: int): int {
    Clamp(Shr(Accumulated(g, h, x), TWO15), -TWO15, TWO15 - 1)
  }

  function Saturates(g: Gains, h: History, x: int): bool {
    !IsQ15(Shr(Accumulated(g, h, x), TWO15))
  }

  function After(g: Gains, h: History, x: int): History {
    History(x, h.x1, Output(g, h, x))
  }

  /** The controller after a run of samples. */
  function RunOf(g: Gains, xs: seq<int>): History
    decreases |xs|
  {
    if xs == [] then AT_REST else After(g, RunOf(g, xs[..|xs| - 1]), xs[|xs| - 1])
  }

  predicate NeverSaturates(g: Gains, xs: seq<int>)
    decreases |xs|
  {
    xs == [] ||
    (NeverSaturates(g, xs[..|xs| - 1]) && !Saturates(g, RunOf(g, xs[..|xs| - 1]), xs[|xs| - 1]))
  }

  function Sum(xs: seq<int>): int
    decreases |xs|
  {
    if xs == [] then 0 else Sum(xs[..|xs| - 1]) + xs[|xs| - 1]
  }

  /** The sample `back` steps before the end, 0 before the start. */
  function Recent(xs: seq<int>, back: nat): int {
    if back < |xs| then xs[|xs| - 1 - back] else 0
  }

  /** The positional form: Kp x[n] + Ki (x[1] + ... + x[n]) + Kd (x[n] - x[n-1]), in units of 2^-15 LSB. */
  function Positional(g: Gains, xs: seq<int>): int {
    g.kp * Recent(xs, 0) + g.ki * Sum(xs) + g.kd * (Recent(xs, 0) - Recent(xs, 1))
  }

  lemma {:induction false} RunInputs(g: Gains, xs: seq<int>)
    ensures RunOf(g, xs).x1 == Recent(xs, 0) && RunOf(g, xs).x2 == Recent(xs, 1)
    decreases |xs|
  {
    if xs != [] {
      RunInputs(g, xs[..|xs| - 1]);
    }
  }

  /** Each sample changes the positional form by exactly what the incremental form adds. */
  lemma {:induction false} Increment(g: Gains, xs: seq<int>)
    requires xs != []
    ensures var front := xs[..|xs| - 1];
            Positional(g, xs) - Positional(g, front)
            == g.A0() * Recent(xs, 0) + g.A1() * Recent(xs, 1) + g.A2() * Recent(xs, 2)
  {
    var front, x := xs[..|xs| - 1], xs[|xs| - 1];
    assert Recent(front, 0) == Recent(xs, 1) && Recent(front, 1) == Recent(xs, 2) && Recent(xs, 0) == x;
    var p, q := Recent(xs, 1), Recent(xs, 2);
    assert g.ki * Sum(xs) == g.ki * Sum(front) + g.ki * x;
    assert g.kd * (x - p) - g.kd * (p - q) == g.kd * x - 2 * (g.kd * p) + g.kd * q;
    assert g.A0() * x == g.kp * x + g.ki * x + g.kd * x;
    assert g.A1() * p == -(g.kp * p) - 2 * (g.kd * p);
  }

  /** Without saturation the controller follows the positional form from below: after n samples it is
      less than n LSB behind, and never ahead. */
  lemma {:induction false} FollowsPositional(g: Gains, xs: seq<int>)
    requires NeverSaturates(g, xs)
    ensures 0 <= Positional(g, xs) - TWO15 * RunOf(g, xs).y1 <= |xs| * (TWO15 - 1)
    decreases |xs|
  {
    if xs != [] {
      var front, x := xs[..|xs| - 1], xs[|xs| - 1];
      var h := RunOf(g, front);
      FollowsPositional(g, front);
      Increment(g, xs);
      RunInputs(g, front);
      assert h.x1 == Recent(xs, 1) && h.x2 == Recent(xs, 2);
      var acc := Accumulated(g, h, x);
      assert acc == Positional(g, xs) - Positional(g, front) + TWO15 * h.y1;
      assert acc == TWO15 * (acc / TWO15) + acc % TWO15;
    }
  }

  /** Every step of every run, saturating or not: the new output is the old one plus the change of the
      positional form, rounded down, or the end of the q15 range beyond which that lies. */
  lemma {:induction false} EveryStep(g: Gains, xs: seq<int>)
    requires xs != []
    ensures var front := xs[..|xs| - 1];
            var exact := Positional(g, xs) - Positional(g, front) + 0x8000 * RunOf(g, front).y1;
            var y := RunOf(g, xs).y1;
            if exact >= 0x4000_0000 then y == 0x7FFF
            else if exact < -0x4000_0000 then y == -0x8000
            else 0 <= exact - 0x8000 * y < 0x8000
  {
    hide Positional;
    var front, x := xs[..|xs| - 1], xs[|xs| - 1];
    var h := RunOf(g, front);
    Increment(g, xs);
    RunInputs(g, front);
    assert h.x1 == Recent(xs, 1) && h.x2 == Recent(xs, 2);
    var acc := Accumulated(g, h, x);
    assert acc == Positional(g, xs) - Positional(g, front) + TWO15 * h.y1;
    assert acc == TWO15 * (acc / TWO15) + acc % TWO15;
  }

  /** No product leaves 32 bits, no sum 64 bits, and the shifted sum fits the saturation's 32 bits. */
  lemma {:induction false} NothingOverflows(g: Gains, h: History, x: int)
    requires g.Fit() && h.Fits() && IsQ15(x)
    ensures IsQ31(g.A0() * x) && IsQ31(g.A1() * h.x1) && IsQ31(g.A2() * h.x2) && IsQ31(h.y1 * TWO15)
    ensures IsQ63(Accumulated(g, h, x)) && IsQ31(Shr(Accumulated(g, h, x), TWO15))
    ensures After(g, h, x).Fits()
  {
    ProductWithin(g.A0(), x, TWO15, TWO15);
    ProductWithin(g.A1(), h.x1, TWO15, TWO15);
    ProductWithin(g.A2(), h.x2, TWO15, TWO15);
  }

  /** In every run of samples, saturating or not, the controller's history fits. */
  lemma {:induction false} RunsFit(g: Gains, xs: seq<int>)
    requires g.Fit() && AllQ15(xs)
    ensures RunOf(g, xs).Fits()
    decreases |xs|
  {
    if xs != [] {
      RunsFit(g, xs[..|xs| - 1]);
      NothingOverflows(g, RunOf(g, xs[..|xs| - 1]), xs[|xs| - 1]);
    }
  }

  /** arm_pid_instance_q15 */
  class Controller {
    const gains: Gains
    const state: array<int>
    /** The samples processed since the state was cleared. */
    ghost var samples: seq<int>

    ghost predicate Valid()
      reads this, state
    {
      && gains.Fit() && state.Length == 3 && AllQ15(samples)
      && History(state[0], state[1], state[2]) == RunOf(gains, samples)
    }

    constructor (gains: Gains)
      requires gains.Fit()
      ensures Valid() && fresh(state) && samples == [] && this.gains == gains
    {
      this.gains := gains;
      state := new int[3](_ => 0);
      samples := [];
    }

    /** arm_pid_q15 */
    method Process(input: int) returns (out: int)
      requires Valid() && IsQ15(input)
      modifies this, state
      ensures Valid() && samples == old(samples) + [input] && IsQ15(out)
      ensures out == RunOf(gains, samples).y1
    {
      ghost var h := RunOf(gains, samples);
      RunsFit(gains, samples);
      NothingOverflows(gains, h, input);
      var acc := gains.A0() * input;
      acc := acc + gains.A1() * state[0];
      acc := acc + gains.A2() * state[1];
      acc := acc + state[2] * TWO15;
      assert acc == Accumulated(gains, h, input);
      out := SignedSaturate(Shr(acc, TWO15), 16);
      assert out == Output(gains, h, input) by {
        PowerValues();
      }
      state[1] := state[0];
      state[0] := input;
      state[2] := out;
      samples := samples + [input];
      assert samples[..|samples| - 1] == old(samples);
    }
  }
}
