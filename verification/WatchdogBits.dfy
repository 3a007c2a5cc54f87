/** Naming the set bits of a 32-bit internal-error mask. */
module WatchdogBits {

  const POSITIONS := 32
  const NAMED_POSITIONS := 30

  function Pow2(n: nat): (p: nat)
    ensures p >= 1
  {
    if n == 0 then 1 else 2 * Pow2(n - 1)
  }

  predicate IsSet(mask: nat, position: nat) {
    if position == 0 then mask % 2 == 1 else IsSet(mask / 2, position - 1)
  }

  /** The mask whose set bits are these. */
  function Mask(positions: seq<nat>): nat {
    if positions == [] then 0 else Mask(positions[..|positions| - 1]) + Pow2(positions[|positions| - 1])
  }

  ghost predicate Ascending(positions: seq<nat>, low: nat, high: nat) {
    && (forall i | 0 <= i < |positions| :: low <= positions[i] < high)
    && (forall i, j | 0 <= i < j < |positions| :: positions[i] < positions[j])
  }

  lemma Snoc(positions: seq<nat>, low: nat, high: nat, p: nat)
    requires Ascending(positions, low, high) && low <= high <= p
    ensures Mask(positions + [p]) == Mask(positions) + Pow2(p)
    ensures Ascending(positions + [p], low, p + 1)
  {
    assert (positions + [p])[..|positions|] == positions;
  }

  lemma Wider(positions: seq<nat>, low: nat, high: nat, wider: nat)
    requires Ascending(positions, low, high) && high <= wider
    ensures Ascending(positions, low, wider)
  {
  }

  /** The lowest `n` bits of a mask. */
  function Low(mask: nat, n: nat): nat {
    if n == 0 then 0 else mask % 2 + 2 * Low(mask / 2, n - 1)
  }

  lemma {:induction false} NextBit(mask: nat, n: nat)
    ensures Low(mask, n + 1) == Low(mask, n) + if IsSet(mask, n) then Pow2(n) else 0
  {
    if n > 0 {
      NextBit(mask / 2, n - 1);
    }
  }

  lemma {:induction false} AllBits(mask: nat, n: nat)
    requires mask < Pow2(n)
    ensures Low(mask, n) == mask
  {
    if n > 0 {
      AllBits(mask / 2, n - 1);
    }
  }

  lemma Word32()
    ensures Pow2(32) == 0x1_0000_0000
  {
    assert Pow2(8) == 256;
    assert Pow2(16) == 0x1_0000;
    assert Pow2(24) == 0x100_0000;
  }

  /**
    * Every set bit is listed once and in order, named or not, and nothing else is: the listed bits make up the
    * mask again.
    */
  method NamedBits(mask: nat) returns (named: seq<nat>, unnamed: seq<nat>)
    requires mask < 0x1_0000_0000
    ensures Ascending(named, 0, 30) && Ascending(unnamed, 30, 32)
    ensures Mask(named) + Mask(unnamed) == mask
  {
    hide Pow2, IsSet, Mask, Ascending, Low;
    named, unnamed := [], [];
    NoBits(mask);
    var position: nat := 0;
    while position < POSITIONS
      invariant position <= POSITIONS
      invariant Ascending(named, 0, if position < NAMED_POSITIONS then position else NAMED_POSITIONS)
      invariant Ascending(unnamed, NAMED_POSITIONS, if position < NAMED_POSITIONS then NAMED_POSITIONS else position)
      invariant Mask(named) + Mask(unnamed) == Low(mask, position)
    {
      NextBit(mask, position);
      if position < NAMED_POSITIONS {
        Wider(named, 0, position, position + 1);
      } else {
        Wider(unnamed, NAMED_POSITIONS, position, position + 1);
      }
      if IsSet(mask, position) {
        if position < NAMED_POSITIONS {
          Snoc(named, 0, position, position);
          named := named + [position];
        } else {
          Snoc(unnamed, NAMED_POSITIONS, position, position);
          unnamed := unnamed + [position];
        }
      }
      position := position + 1;
    }
    Word32();
    AllBits(mask, POSITIONS);
  }

  lemma NoBits(mask: nat)
    ensures Mask([]) == 0 && Low(mask, 0) == 0
    ensures Ascending([], 0, 0) && Ascending([], NAMED_POSITIONS, NAMED_POSITIONS)
  {
  }
}
