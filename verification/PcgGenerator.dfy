/** The engine object: a state and an increment updated in place, over the functions of the other PCG modules. */
module PcgGenerator {
  import opened Bits
  import opened PcgEngine
  import opened PcgDistance
  import opened PcgPeriod
  import PcgMixing
  import PcgOutput

  /** default_multiplier of the five word types. */
  function DefaultMultiplier(bits: nat): nat
    requires bits in {8, 16, 32, 64, 128}
  {
    if bits == 8 then 141
    else if bits == 16 then 12829
    else if bits == 32 then 747796405
    else if bits == 64 then 6364136223846793005
    else 2549297995355413924 * 0x1_0000_0000_0000_0000 + 4865540595714422341
  }

  /** default_increment of the five word types. */
  function DefaultIncrement(bits: nat): nat
    requires bits in {8, 16, 32, 64, 128}
  {
    if bits == 8 then 77
    else if bits == 16 then 47989
    else if bits == 32 then 2891336453
    else if bits == 64 then 1442695040888963407
    else 6364136223846793005 * 0x1_0000_0000_0000_0000 + 1442695040888963407
  }

  /** The constants fit their word and are of the right residues. */
  lemma DefaultsAreGood(bits: nat)
    requires bits in {8, 16, 32, 64, 128}
    ensures DefaultMultiplier(bits) < Pow2(bits) && DefaultIncrement(bits) < Pow2(bits)
    ensures GoodCoefficients(true, DefaultMultiplier(bits), 0)
    ensures GoodCoefficients(false, DefaultMultiplier(bits), DefaultIncrement(bits))
  {
    DefaultsFit(bits);
  }

  lemma DefaultsFit(bits: nat)
    requires bits in {8, 16, 32, 64, 128}
    ensures DefaultMultiplier(bits) < Pow2(bits) && DefaultIncrement(bits) < Pow2(bits)
  {
    PcgOutput.WordSizes();
  }

  lemma GoodReachesAll(bits: nat, mult: nat, plus: nat)
    requires bits >= 2 && GoodCoefficients(false, mult, plus)
    ensures AllReachable(bits, Lcg(bits, mult, plus))
  {
    FullPeriodCondition(bits, mult, plus);
  }

  /** So the default generator of every word size goes through all states. */
  lemma DefaultsReachAll(bits: nat)
    requires bits in {8, 16, 32, 64, 128}
    ensures AllReachable(bits, Lcg(bits, DefaultMultiplier(bits), DefaultIncrement(bits)))
  {
    DefaultsAreGood(bits);
    GoodReachesAll(bits, DefaultMultiplier(bits), DefaultIncrement(bits));
  }

  /** The increment of a stream: its number, doubled, with the lowest bit set. */
  function StreamIncrement(bits: nat, stream: nat): nat {
    Or((2 * stream) % Pow2(bits), 1)
  }

  lemma OrOne(x: nat)
    ensures Or(x, 1) == 2 * (x / 2) + 1
  {
    OrHalf(x, 1);
    OrZero(x / 2);
  }

  lemma OrThree(x: nat)
    ensures Or(x, 3) == 4 * (x / 4) + 3
  {
    assert Or(x, 3) == 2 * Or(x / 2, 1) + 1 by { OrHalf(x, 3); }
    OrOne(x / 2);
    Quarter(x, x / 2, x / 4);
  }

  lemma Quarter(x: nat, half: nat, quarter: nat)
    requires half == x / 2 && quarter == x / 4
    ensures half / 2 == quarter
  {
  }

  /** Setting the low two bits gives a state of a multiplicative generator. */
  lemma SeedState(bits: nat, seed: nat, state: nat)
    requires bits >= 2 && seed < Pow2(bits) && state == Or(seed, 3)
    ensures GoodState(bits, true, state) && state % 4 == 3 && state / 4 == seed / 4
  {
    OrThree(seed);
    assert Pow2(bits) == 4 * Pow2(bits - 2);
  }

  /** Every stream has an odd increment that fits the word. */
  lemma StreamIncrementIsOdd(bits: nat, stream: nat)
    requires bits >= 1
    ensures StreamIncrement(bits, stream) % 2 == 1 && StreamIncrement(bits, stream) < Pow2(bits)
  {
    OrOne((2 * stream) % Pow2(bits));
    HalfMod(2 * stream, Pow2(bits - 1));
  }

  /** stream(): the number of the stream, read off its increment. */
  function StreamNumber(inc: nat): nat {
    Shr(inc, 1)
  }

  /** It is the number the stream was made with, but for its topmost bit; */
  lemma StreamNumberOfIncrement(bits: nat, stream: nat)
    requires bits >= 1
    ensures StreamNumber(StreamIncrement(bits, stream)) == stream % Pow2(bits - 1)
    ensures StreamIncrement(bits, stream) == 2 * (stream % Pow2(bits - 1)) + 1
  {
    var doubled := (2 * stream) % Pow2(bits);
    OrOne(doubled);
    HalfMod(2 * stream, Pow2(bits - 1));
    assert Shr(2 * (doubled / 2) + 1, 1) == doubled / 2;
  }

  /** so two numbers give the same stream exactly if they differ in that bit only. */
  lemma StreamsDiffer(bits: nat, stream: nat, other: nat)
    requires bits >= 1
    ensures StreamIncrement(bits, stream) == StreamIncrement(bits, other)
            <==> stream % Pow2(bits - 1) == other % Pow2(bits - 1)
  {
    StreamNumberOfIncrement(bits, stream);
    StreamNumberOfIncrement(bits, other);
  }

  /** One step of the generator of each word size, on the default stream. */
  lemma DefaultStep(bits: nat, x: nat)
    requires bits in {8, 16, 32, 64, 128}
    ensures Bump(bits, DefaultMultiplier(bits), DefaultIncrement(bits), x)
            == if bits == 8 then (141 * x + 77) % 0x100
               else if bits == 16 then (12829 * x + 47989) % 0x1_0000
               else if bits == 32 then (747796405 * x + 2891336453) % 0x1_0000_0000
               else if bits == 64 then (6364136223846793005 * x + 1442695040888963407) % 0x1_0000_0000_0000_0000
               else (47026247687942121848144207491837523525 * x + 117397592171526113268558934119004209487)
                    % 0x1_0000_0000_0000_0000_0000_0000_0000_0000
  {
    PcgOutput.WordSizes();
  }

  class Engine {
    const bits: nat
    const mcg: bool
    const outputPrevious: bool
    var inc: nat
    var state: nat

    ghost predicate Valid()
      reads this
    {
      && bits in {8, 16, 32, 64, 128}
      && inc < Pow2(bits)
      && GoodCoefficients(mcg, DefaultMultiplier(bits), inc)
      && GoodState(bits, mcg, state)
      && (mcg ==> state % 4 == 3)
    }

    /** A generator on the stream chosen by its increment. */
    constructor Stream(b: nat, previous: bool, seed: nat, specificSeq: nat)
      requires b in {8, 16, 32, 64, 128}
      ensures Valid() && bits == b && !mcg && outputPrevious == previous
      ensures inc == StreamIncrement(b, specificSeq) == 2 * (specificSeq % Pow2(b - 1)) + 1
      ensures state == Bump(b, DefaultMultiplier(b), inc, (seed + inc) % Pow2(b))
    {
      StreamIncrementIsOdd(b, specificSeq);
      StreamNumberOfIncrement(b, specificSeq);
      DefaultsAreGood(b);
      bits, mcg, outputPrevious := b, false, previous;
      var increment := StreamIncrement(b, specificSeq);
      inc := increment;
      state := Bump(b, DefaultMultiplier(b), increment, (seed + increment) % Pow2(b));
    }

    /** A generator on the default stream. */
    constructor Default(b: nat, previous: bool, seed: nat)
      requires b in {8, 16, 32, 64, 128}
      ensures Valid() && bits == b && !mcg && outputPrevious == previous && inc == DefaultIncrement(b)
      ensures state == Bump(b, DefaultMultiplier(b), inc, (seed + inc) % Pow2(b))
    {
      DefaultsAreGood(b);
      bits, mcg, outputPrevious := b, false, previous;
      inc := DefaultIncrement(b);
      state := Bump(b, DefaultMultiplier(b), DefaultIncrement(b), (seed + DefaultIncrement(b)) % Pow2(b));
    }

    /** A multiplicative generator: no increment, and the low two bits of the state are set. */
    constructor Multiplicative(b: nat, previous: bool, seed: nat)
      requires b in {8, 16, 32, 64, 128} && seed < Pow2(b)
      ensures Valid() && bits == b && mcg && outputPrevious == previous && inc == 0
      ensures state == Or(seed, 3) && state % 4 == 3 && state / 4 == seed / 4
    {
      DefaultsAreGood(b);
      SeedState(b, seed, Or(seed, 3));
      bits, mcg, outputPrevious := b, true, previous;
      inc := 0;
      state := Or(seed, 3);
    }

    method Advance(delta: nat)
      requires Valid() && delta < Pow2(bits)
      modifies this`state
      ensures Valid() && state == Iterate(bits, DefaultMultiplier(bits), inc, old(state), delta)
    {
      DefaultsAreGood(bits);
      KeepsClass(bits, mcg, DefaultMultiplier(bits), inc, state, delta);
      state := PcgEngine.Advance(bits, state, delta, DefaultMultiplier(bits), inc);
    }

    method Backstep(delta: nat)
      requires Valid() && delta < Pow2(bits)
      modifies this`state
      ensures Valid() && state == Iterate(bits, DefaultMultiplier(bits), inc, old(state), Negated(bits, delta))
      ensures Iterate(bits, DefaultMultiplier(bits), inc, state, delta) == old(state)
    {
      StepBack(bits, mcg, DefaultMultiplier(bits), inc, state, delta);
      Advance(Negated(bits, delta));
    }

    /** operator(): the output of the state before or after the step, from which that state can be found again. */
    method Next() returns (r: nat)
      requires Valid()
      modifies this`state
      ensures Valid() && state == Bump(bits, DefaultMultiplier(bits), inc, old(state))
      ensures var source := if outputPrevious then old(state) else state;
              && r == PcgOutput.Output(source, bits, PcgOutput.McgConstants(bits).multiplier)
              && PcgMixing.Mixed(bits, source, r)
              && PcgOutput.Unoutput(r, bits, PcgOutput.McgConstants(bits).unmultiplier) == source
    {
      var oldState := state;
      KeepsClass(bits, mcg, DefaultMultiplier(bits), inc, state, 1);
      state := Bump(bits, DefaultMultiplier(bits), inc, state);
      var source := if outputPrevious then oldState else state;
      PcgOutput.OutputIsInvertible(source, bits);
      PcgMixing.OutputIsMixed(bits, source);
      r := PcgOutput.Output(source, bits, PcgOutput.McgConstants(bits).multiplier);
    }

    /** lhs - rhs on engines: how far this one has to go to reach the given state. */
    method DistanceTo(newstate: nat) returns (d: nat)
      requires Valid() && GoodState(bits, mcg, newstate) && (mcg ==> newstate % 4 == 3)
      ensures Iterate(bits, DefaultMultiplier(bits), inc, state, d) == newstate
      ensures d < Pow2(bits - FixedBits(mcg))
    {
      DefaultsAreGood(bits);
      d := Distance(bits, mcg, DefaultMultiplier(bits), inc, state, newstate, Pow2(bits) - 1);
    }
  }

  lemma StepBack(bits: nat, mcg: bool, mult: nat, plus: nat, x: nat, delta: nat)
    requires GoodCoefficients(mcg, mult, plus) && x < Pow2(bits) && delta < Pow2(bits)
    ensures Negated(bits, delta) < Pow2(bits)
    ensures Iterate(bits, mult, plus, Iterate(bits, mult, plus, x, Negated(bits, delta)), delta) == x
  {
    assert mult % 2 == 1;
    BackstepUndoesAdvance(bits, mult, plus, x, delta);
  }

  /** The low two bits of a multiplicative generator never change. */
  lemma {:induction false} KeepsClass(bits: nat, mcg: bool, mult: nat, plus: nat, x: nat, n: nat)
    requires bits >= 2 && GoodCoefficients(mcg, mult, plus) && GoodState(bits, mcg, x) && (mcg ==> x % 4 == 3)
    ensures GoodState(bits, mcg, Iterate(bits, mult, plus, x, n))
    ensures mcg ==> Iterate(bits, mult, plus, x, n) % 4 == 3
    decreases n
  {
    if n > 0 {
      BumpKeepsClass(bits, mcg, mult, plus, x);
      KeepsClass(bits, mcg, mult, plus, Bump(bits, mult, plus, x), n - 1);
    }
  }

  lemma BumpKeepsClass(bits: nat, mcg: bool, mult: nat, plus: nat, x: nat)
    requires bits >= 2 && GoodCoefficients(mcg, mult, plus) && GoodState(bits, mcg, x) && (mcg ==> x % 4 == 3)
    ensures GoodState(bits, mcg, Bump(bits, mult, plus, x)) && (mcg ==> Bump(bits, mult, plus, x) % 4 == 3)
  {
    if mcg { McgKeepsThree(bits, mult, x); }
  }

  lemma McgKeepsThree(bits: nat, mult: nat, x: nat)
    requires bits >= 2 && mult % 8 == 5 && x % 4 == 3
    ensures Bump(bits, mult, 0, x) % 4 == 3
  {
    BumpResidue(bits, mult, 0, x, 2);
    assert Pow2(2) == 4;
    assert 3 * mult + 0 == 4 * (6 * (mult / 8) + 3) + 3;
  }
}
