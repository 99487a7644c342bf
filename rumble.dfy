/** The rumble countdown: an unsigned 32-bit remaining duration in milliseconds,
    zero meaning "not rumbling". */
module Rumble {

  const Modulus: int := 0x1_0000_0000

  type uint32 = x: int | 0 <= x < Modulus

  /** Unsigned 32-bit subtraction, wrapping around below zero. */
  function Sub32(a: uint32, b: uint32): (r: uint32)
    ensures b <= a ==> r == a - b
    ensures a < b ==> r == a - b + Modulus
  {
    (a - b) % Modulus
  }

  /** The test `val && val <= curRumbling` on `val = curRumbling - dMsec`:
      the wrap-around check detects exactly the ticks shorter than what remains. */
  function KeepsRunning(r: uint32, d: uint32): (b: bool)
    ensures b <==> d < r
  {
    var v := Sub32(r, d);
    v != 0 && v <= r
  }

  /** The counter after a tick, and whether "test stopped" is reported. */
  datatype Step = Step(remaining: uint32, stopped: bool)

  /** One tick of `d` milliseconds, as written. The counter never grows, and
      "test stopped" is reported only by a running counter that reaches zero. */
  function Countdown(r: uint32, d: uint32): (s: Step)
    ensures s.remaining <= r
    ensures s.stopped ==> 0 < r && s.remaining == 0
  {
    if r == 0 then Step(0, false)
    else if KeepsRunning(r, d) then Step(Sub32(r, d), false)
    else Step(0, true)
  }

  /** What a tick does: nothing while idle; count down while the tick is
      shorter than what remains; otherwise stop at zero and report it once. */
  lemma CountdownSpec(r: uint32, d: uint32)
    ensures r == 0 ==> Countdown(r, d) == Step(0, false)
    ensures 0 < r && d < r ==> Countdown(r, d) == Step(r - d, false)
    ensures 0 < r && r <= d ==> Countdown(r, d) == Step(0, true)
    ensures d == 0 ==> Countdown(r, d).remaining == r
  {
  }

  function Sum(ds: seq<uint32>): int
  {
    if ds == [] then 0 else ds[0] + Sum(ds[1..])
  }

  /** The counter after a series of ticks, and how many times "test stopped" was reported. */
  function RunTicks(r: uint32, ds: seq<uint32>): (uint32, nat)
  {
    if ds == [] then (r, 0)
    else
      var c := Countdown(r, ds[0]);
      var rest := RunTicks(c.remaining, ds[1..]);
      (rest.0, rest.1 + (if c.stopped then 1 else 0))
  }

  /** A rumble of length r stays on while the ticks add up to less than r, and
      once they reach r it is off and "test stopped" has been reported exactly once. */
  lemma {:induction false} RunTicksSpec(r: uint32, ds: seq<uint32>)
    ensures Sum(ds) < r ==> RunTicks(r, ds) == (r - Sum(ds), 0)
    ensures r <= Sum(ds) ==> RunTicks(r, ds) == (0, if r > 0 then 1 else 0)
  {
    if ds != [] {
      CountdownSpec(r, ds[0]);
      var c := Countdown(r, ds[0]);
      RunTicksSpec(c.remaining, ds[1..]);
      if c.remaining == 0 {
        IdleTicks(ds[1..]);
      }
    }
  }

  /** Ticks while idle change nothing and report nothing. */
  lemma {:induction false} IdleTicks(ds: seq<uint32>)
    ensures RunTicks(0, ds) == (0, 0)
  {
    if ds != [] {
      IdleTicks(ds[1..]);
    }
  }
}
