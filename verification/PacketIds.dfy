/**
 Packet ids: a ten-bit counter in the low bits, random bits above it.  Whatever the
 random draws, any 1024 consecutive ids are pairwise distinct.
 */
module PacketIds {

  const ID_RANGE: nat := 0x1_0000_0000
  const COUNTER_RANGE: nat := 0x400

  // The masks of the source keep a number's low bits: 32 of them, then 10.
  function Low32(n: nat): nat {
    n % ID_RANGE
  }

  function Low10(n: nat): nat {
    n % COUNTER_RANGE
  }

  // Masking to 32 bits first does not disturb the low ten.
  lemma LowOfLow(n: nat)
    ensures Low10(Low32(n)) == Low10(n)
  {
    var q, r := n / ID_RANGE, n % ID_RANGE;
    assert n == (q * 0x40_0000) * COUNTER_RANGE + r;
    ModShift(q * 0x40_0000, r);
  }

  lemma ModShift(q: nat, r: nat)
    ensures (q * COUNTER_RANGE + r) % COUNTER_RANGE == r % COUNTER_RANGE
  {
    var k := r / COUNTER_RANGE;
    assert q * COUNTER_RANGE + r == (q + k) * COUNTER_RANGE + r % COUNTER_RANGE;
  }

  // An id taken apart: counter below, random draw above.
  lemma IdParts(current: nat, random: nat)
    requires random < 4194304
    ensures var id := Low10(Low32(current + 1)) + Low32(random * COUNTER_RANGE);
            id < 4294967296 && id % 1024 == (current + 1) % 1024 && id / 1024 == random
  {
    LowOfLow(current + 1);
    assert Low32(random * COUNTER_RANGE) == random * COUNTER_RANGE;
    ModShift(random, Low10(current + 1));
  }

  class Generator {
    var currentPacketId: nat
    ghost var history: seq<nat>  // the starting value, then every id generated

    ghost predicate Valid()
      reads this
    {
      && history != [] && currentPacketId == history[|history| - 1]
      && (forall i :: 0 <= i < |history| ==> history[i] < ID_RANGE)
      && Counting(history)
    }

    constructor (start: nat)
      requires start < ID_RANGE
      ensures Valid() && history == [start]
    {
      currentPacketId, history := start, [start];
    }

    /** `random` is the draw for the upper 22 bits. */
    method GeneratePacketId(random: nat) returns (id: nat)
      requires Valid() && random < 4194304
      modifies this
      ensures Valid() && history == old(history) + [id]
      ensures id % 1024 == (old(currentPacketId) + 1) % 1024 && id / 1024 == random
    {
      IdParts(currentPacketId, random);
      hide Low10, Low32;
      var next := Low10(Low32(currentPacketId + 1));
      var randomPart := Low32(random * COUNTER_RANGE);
      currentPacketId := next + randomPart;  // the two parts share no bit
      history := history + [currentPacketId];
      return currentPacketId;
    }
  }

  // The low bits of consecutive ids count up.
  ghost predicate Counting(ids: seq<nat>) {
    forall i :: 0 <= i < |ids| - 1 ==> Low10(ids[i + 1]) == Low10(ids[i] + 1)
  }

  lemma {:induction false} CounterAfter(ids: seq<nat>, i: nat, k: nat)
    requires Counting(ids) && i + k < |ids|
    ensures Low10(ids[i + k]) == Low10(ids[i] + k)
  {
    if k > 0 {
      CounterAfter(ids, i, k - 1);
      assert Low10(ids[i + k - 1 + 1]) == Low10(ids[i + k - 1] + 1);
      NextLow(ids[i + k - 1]);
      NextLow(ids[i] + (k - 1));
      hide Low10;
    }
  }

  lemma NextLow(n: nat)
    ensures Low10(n + 1) == Low10(Low10(n) + 1)
  {
    assert n + 1 == n / COUNTER_RANGE * COUNTER_RANGE + (Low10(n) + 1);
    ModShift(n / COUNTER_RANGE, Low10(n) + 1);
  }

  /** Fewer than 1024 steps apart, no two ids are equal. */
  lemma WindowDistinct(ids: seq<nat>, i: nat, j: nat)
    requires Counting(ids) && i < j < |ids| && j - i < COUNTER_RANGE
    ensures ids[i] != ids[j]
  {
    CounterAfter(ids, i, j - i);
    ShiftedDiffers(ids[i], j - i);
  }

  lemma ShiftedDiffers(n: nat, k: nat)
    requires 0 < k < COUNTER_RANGE
    ensures Low10(n + k) != Low10(n)
  {
    var q, r := n / COUNTER_RANGE, n % COUNTER_RANGE;
    assert n == q * COUNTER_RANGE + r;
    if r + k < COUNTER_RANGE {
      assert (n + k) % COUNTER_RANGE == r + k;
    } else {
      assert n + k == (q + 1) * COUNTER_RANGE + (r + k - COUNTER_RANGE);
      assert (n + k) % COUNTER_RANGE == r + k - COUNTER_RANGE;
    }
  }

  /** The window cannot be longer: 1024 apart, two ids are equal exactly if their random parts are. */
  lemma WindowIsTight(ids: seq<nat>, i: nat)
    requires Counting(ids) && i + COUNTER_RANGE < |ids|
    ensures ids[i + COUNTER_RANGE] == ids[i]
       <==> ids[i + COUNTER_RANGE] / COUNTER_RANGE == ids[i] / COUNTER_RANGE
  {
    var a, b := ids[i], ids[i + COUNTER_RANGE];
    CounterAfter(ids, i, COUNTER_RANGE);
    ModShift(1, a);
    ModShift(a / COUNTER_RANGE, a % COUNTER_RANGE);
    assert a == a / COUNTER_RANGE * COUNTER_RANGE + Low10(a) && b == b / COUNTER_RANGE * COUNTER_RANGE + Low10(b);
  }

  /** A burst of ids from a fresh generator: distinct over every window of 1024. */
  method Burst(start: nat, randoms: seq<nat>) returns (ids: seq<nat>)
    requires start < ID_RANGE && forall i :: 0 <= i < |randoms| ==> randoms[i] < 4194304
    ensures |ids| == |randoms| && forall i :: 0 <= i < |ids| ==> ids[i] < ID_RANGE
    ensures forall i, j :: 0 <= i < j < |ids| && j - i < COUNTER_RANGE ==> ids[i] != ids[j]
  {
    var g := new Generator(start);
    ids := [];
    for k := 0 to |randoms|
      invariant g.Valid() && g.history == [start] + ids && |ids| == k
      invariant fresh(g)
    {
      var id := g.GeneratePacketId(randoms[k]);
      ids := ids + [id];
    }
    forall i, j | 0 <= i < j < |ids| && j - i < COUNTER_RANGE ensures ids[i] != ids[j] {
      WindowDistinct(g.history, i + 1, j + 1);
    }
    assert forall i :: 0 <= i < |ids| ==> ids[i] == g.history[i + 1];
  }
}
