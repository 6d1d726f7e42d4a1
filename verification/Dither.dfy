/**
 audio_linear_dither for 16-bit output of samples with 28 fraction bits: dither, clip, quantize,
 and feed the error back into the samples that follow.
 */
module Dither {

  newtype int32 = x: int | -0x8000_0000 <= x < 0x8000_0000

  const ONE: int32 := 0x1000_0000
  /** A quantum of the output, 13 bits. */
  const QUANTUM: int32 := 8192
  const U32 := 0x1_0000_0000

  function Prng(state: nat): (r: nat)
    ensures r < U32
  {
    (state * 0x0019660d + 0x3c6ef35f) % U32
  }

  /** Division by two as C rounds it, towards zero. */
  function Half(e: int): int
  {
    if e < 0 then -(-e / 2) else e / 2
  }

  function Clip(x: int): int
  {
    if x > ONE as int - 1 then ONE as int - 1 else if x < -(ONE as int) then -(ONE as int) else x
  }

  /** The largest multiple of the quantum not above x. */
  function Quantized(x: int): int
  {
    x - x % QUANTUM as int
  }

  /** Errors of the last sample and, halved, of the two before; the random state. */
  datatype Shaping = Shaping(e0: int, e1: int, e2: int, random: nat)
  {
    /** What every call keeps. */
    predicate Stable()
    {
      -12287 <= e0 <= 12286 && -6143 <= e1 <= 6143 && -6143 <= e2 <= 6143 && random < U32
    }

    function Shaped(x: int): int
    {
      x + e0 - e1 + e2
    }

    /** Difference of two 13-bit random numbers. */
    function Noise(): (n: int)
      ensures -8191 <= n <= 8191
    {
      Prng(random) % QUANTUM as int - random % QUANTUM as int
    }

    /** The quantized value of a sample. */
    function Output(x: int): int
    {
      Quantized(Clip(Shaped(x) + 4096 + Noise()))
    }

    /** Only a sample beyond the clipped output's side is itself clipped. */
    function Kept(x: int): int
    {
      var s, o := Shaped(x), Shaped(x) + 4096 + Noise();
      if o > ONE as int - 1 || o < -(ONE as int) then Clip(s) else s
    }

    function Next(x: int): Shaping
    {
      Shaping(Kept(x) - Output(x), Half(e0), e1, Prng(random))
    }
  }

  /** Within an octave above full scale, the errors stay bounded and the output is a signed 16-bit number of quanta. */
  lemma StepStable(d: Shaping, x: int)
    requires d.Stable() && -0x4000_0000 <= x <= 0x4000_0000
    ensures d.Next(x).Stable()
    ensures d.Output(x) % QUANTUM as int == 0 && -32768 <= d.Output(x) / QUANTUM as int <= 32767
  {
  }

  /** The random numbers of a run are all different until they repeat: the generator can be run backwards. */
  lemma PrngBackwards(state: nat)
    requires state < 0x1_0000_0000
    ensures Prng(state) == (state * 1664525 + 1013904223) % 0x1_0000_0000
    ensures (Prng(state) + 0x1_0000_0000 - 1013904223) * 4276115653 % 0x1_0000_0000 == state
  {
    var t := state * 1664525 + 1013904223;
    var q := t / 0x1_0000_0000;
    assert Prng(state) == t - q * 0x1_0000_0000;
    assert 1664525 * 4276115653 == 1657219 * 0x1_0000_0000 + 1;
    assert (Prng(state) + 0x1_0000_0000 - 1013904223) * 4276115653
           == state + (state * 1657219 + (1 - q) * 4276115653) * 0x1_0000_0000;
    WholeTurns(state, state * 1657219 + (1 - q) * 4276115653);
  }

  lemma WholeTurns(x: nat, k: int)
    requires x < 0x1_0000_0000
    ensures (x + k * 0x1_0000_0000) % 0x1_0000_0000 == x
  {
  }

  /** One sample in numbers: noise shaping, rounding, dither, clipping, and what is kept of the error. */
  lemma OneSample(d: Shaping, x: int)
    ensures var shaped := x + d.e0 - d.e1 + d.e2;
            var dithered := shaped + 4096 + Prng(d.random) % 8192 - d.random % 8192;
            var clipped := if dithered > 268435455 then 268435455 else if dithered < -268435456 then -268435456 else dithered;
            var kept := if dithered > 268435455 && shaped > 268435455 then 268435455
                        else if dithered < -268435456 && shaped < -268435456 then -268435456 else shaped;
            d.Output(x) == clipped - clipped % 8192 &&
            d.Next(x) == Shaping(kept - (clipped - clipped % 8192),
                                 if d.e0 >= 0 then d.e0 / 2 else -(-d.e0 / 2), d.e1, Prng(d.random))
  {
    var shaped := x + d.e0 - d.e1 + d.e2;
    assert d.Shaped(x) == shaped;
    assert d.Noise() == Prng(d.random) % 8192 - d.random % 8192;
  }

  class AudioDither {
    const error: array<int32>
    var random: nat

    constructor ()
      ensures Valid() && State() == Shaping(0, 0, 0, 0) && fresh(error)
    {
      error := new int32[3](_ => 0);
      random := 0;
    }

    ghost function State(): Shaping
      requires error.Length == 3
      reads this, error
    {
      Shaping(error[0] as int, error[1] as int, error[2] as int, random)
    }

    ghost predicate Valid()
      reads this, error
    {
      error.Length == 3 && State().Stable()
    }

    /** One sample; all sums are 32-bit, and none overflows. */
    method Linear(x: int32) returns (r: int32)
      requires Valid() && -0x4000_0000 <= x <= 0x4000_0000
      modifies this, error
      ensures Valid() && State() == old(State()).Next(x as int)
      ensures -32768 <= r <= 32767 && r as int * 8192 == old(State()).Output(x as int)
    {
      StepStable(State(), x as int);
      var sample := x + (error[0] - error[1] + error[2]);
      error[2] := error[1];
      error[1] := if error[0] < 0 then -(-error[0] / 2) else error[0] / 2;
      var output := sample + 4096;
      var next := Prng(random);
      output := output + ((next % QUANTUM as int) as int32 - (random % QUANTUM as int) as int32);
      random := next;
      if output > ONE - 1 {
        output := ONE - 1;
        if sample > ONE - 1 {
          sample := ONE - 1;
        }
      } else if output < -ONE {
        output := -ONE;
        if sample < -ONE {
          sample := -ONE;
        }
      }
      output := output - output % QUANTUM;
      error[0] := sample - output;
      r := output / QUANTUM;
    }
  }

  // ---------------------------------------------------------------- whole runs

  predicate InRange(xs: seq<int>)
  {
    forall k :: 0 <= k < |xs| ==> -0x4000_0000 <= xs[k] <= 0x4000_0000
  }

  function Run(d: Shaping, xs: seq<int>): Shaping
    decreases |xs|
  {
    if xs == [] then d else Run(d.Next(xs[0]), xs[1..])
  }

  function Outputs(d: Shaping, xs: seq<int>): seq<int>
    decreases |xs|
  {
    if xs == [] then [] else [d.Output(xs[0])] + Outputs(d.Next(xs[0]), xs[1..])
  }

  /** What clipping takes from the samples of a run. */
  function Lost(d: Shaping, xs: seq<int>): int
    decreases |xs|
  {
    if xs == [] then 0 else d.Shaped(xs[0]) - d.Kept(xs[0]) + Lost(d.Next(xs[0]), xs[1..])
  }

  function Sum(xs: seq<int>): int
    decreases |xs|
  {
    if xs == [] then 0 else xs[0] + Sum(xs[1..])
  }

  lemma {:induction false} RunStable(d: Shaping, xs: seq<int>)
    requires d.Stable() && InRange(xs)
    ensures Run(d, xs).Stable()
    decreases |xs|
  {
    if xs != [] {
      StepStable(d, xs[0]);
      RunStable(d.Next(xs[0]), xs[1..]);
    }
  }

  /** The fed-back errors cancel: all that separates the sums of output and input is what was clipped and the errors still held. */
  lemma {:induction false} ErrorsCancel(d: Shaping, xs: seq<int>)
    ensures Sum(Outputs(d, xs)) == Sum(xs) - Lost(d, xs) + d.e0 + d.e2 - Run(d, xs).e0 - Run(d, xs).e2
    decreases |xs|
  {
    if xs != [] {
      ErrorsCancel(d.Next(xs[0]), xs[1..]);
      assert Outputs(d, xs)[1..] == Outputs(d.Next(xs[0]), xs[1..]);
    }
  }

  /** Samples that keep clear of full scale by the largest shaping lose nothing. */
  lemma {:induction false} QuietLosesNothing(d: Shaping, xs: seq<int>)
    requires d.Stable() && forall k :: 0 <= k < |xs| ==> -(ONE as int) + 24573 <= xs[k] <= ONE as int - 24573
    ensures Lost(d, xs) == 0
    decreases |xs|
  {
    if xs != [] {
      StepStable(d, xs[0]);
      QuietLosesNothing(d.Next(xs[0]), xs[1..]);
    }
  }

  /**
   Over a run of any length the output, with what was clipped, keeps within two and a quarter quanta
   of the input: rounding and noise leave no drift.
   */
  lemma NoDrift(random: nat, xs: seq<int>)
    requires random < U32 && InRange(xs)
    ensures -18430 <= Sum(Outputs(Shaping(0, 0, 0, random), xs)) + Lost(Shaping(0, 0, 0, random), xs) - Sum(xs) <= 18430
  {
    RunStable(Shaping(0, 0, 0, random), xs);
    ErrorsCancel(Shaping(0, 0, 0, random), xs);
  }
}
