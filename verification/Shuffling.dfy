/**
 The swap-or-not shuffle, in two forms: following one index through all rounds (`shuffle_single`), and
 shuffling a whole slice in place by swapping around two mirrors per round, 256 positions at a time and
 split between workers (`shuffle_slice`). The fast form is proved to compute the simple one.

 The hash of the seed is a parameter: it gives every round a pivot and a window of 256 bits for every
 window index of 32 bits.
*/
module Shuffling {
  import opened Results
  import opened Sequences
  import opened Arithmetic

  const BITS_PER_HASH: nat := 256
  const MIN_CHUNKS_PER_WORKER: nat := 8
  const MIN_PARALLEL_LEN: nat := 0x1_0000

  datatype Seed = Seed(pivots: nat -> nat, bits: (nat, nat, nat) -> bool)

  function Pivot(seed: Seed, round: nat, count: nat): nat
    requires count > 0
  {
    seed.pivots(round) % count
  }

  /** A bit of `compute_source`, which truncates the window index to 32 bits. */
  function SourceBit(seed: Seed, round: nat, window: nat, bit: nat): bool {
    seed.bits(round, window % 0x1_0000_0000, bit)
  }

  function PositionBit(seed: Seed, round: nat, position: nat): bool {
    SourceBit(seed, round, position / BITS_PER_HASH, position % BITS_PER_HASH)
  }

  // --- One index ------------------------------------------------------------------------------

  /** Where a round sends an index. */
  function RoundIndex(seed: Seed, round: nat, count: nat, index: nat): nat
    requires index < count
  {
    var flip := (Pivot(seed, round, count) + count - index) % count;
    if PositionBit(seed, round, if index < flip then flip else index) then flip else index
  }

  /** A round by the hash alone: the pivot mirrors the index, and the bit of the higher of the two positions decides. */
  lemma RoundByBit(seed: Seed, round: nat, count: nat, index: nat)
    requires index < count
    ensures var pivot := seed.pivots(round) % count;
      var flip := if index <= pivot then pivot - index else pivot + count - index;
      var position := Max(index, flip);
      RoundIndex(seed, round, count, index) ==
      if seed.bits(round, position / 256 % 0x1_0000_0000, position % 256) then flip else index
  {
    FlipOf(Pivot(seed, round, count), count, index);
  }

  lemma FlipOf(pivot: nat, count: nat, index: nat)
    requires pivot < count && index < count
    ensures (pivot + count - index) % count == if index <= pivot then pivot - index else pivot + count - index
  {
  }

  /** A round is an involution on the indices. */
  lemma RoundIsInvolution(seed: Seed, round: nat, count: nat, index: nat)
    requires index < count
    ensures RoundIndex(seed, round, count, index) < count
    ensures RoundIndex(seed, round, count, RoundIndex(seed, round, count, index)) == index
  {
    hide PositionBit;
    var pivot := Pivot(seed, round, count);
    FlipOf(pivot, count, index);
    FlipOf(pivot, count, RoundIndex(seed, round, count, index));
  }

  /** Where the rounds from `round` up to `rounds` send an index. */
  function ShuffledIndex(seed: Seed, round: nat, rounds: nat, count: nat, index: nat): (shuffled: nat)
    requires index < count && round <= rounds
    ensures shuffled < count
    decreases rounds - round
  {
    if round == rounds then index
    else
      RoundIsInvolution(seed, round, count, index);
      ShuffledIndex(seed, round + 1, rounds, count, RoundIndex(seed, round, count, index))
  }

  /** Distinct indices go to distinct indices, so the shuffle is a permutation. */
  lemma {:induction false} ShuffleIsInjective(seed: Seed, round: nat, rounds: nat, count: nat, i: nat, j: nat)
    requires i < count && j < count && round <= rounds
    ensures ShuffledIndex(seed, round, rounds, count, i) == ShuffledIndex(seed, round, rounds, count, j) ==> i == j
    decreases rounds - round
  {
    if round < rounds {
      RoundIsInvolution(seed, round, count, i);
      RoundIsInvolution(seed, round, count, j);
      ShuffleIsInjective(seed, round + 1, rounds, count,
                         RoundIndex(seed, round, count, i), RoundIndex(seed, round, count, j));
    }
  }

  /** The flip as the code computes it, in saturating arithmetic. */
  function SaturatingFlip(pivot: nat, count: nat, index: nat): (r: nat)
    requires count > 0
    ensures r < count
  {
    SaturatingSub(SaturatingAdd(pivot, count), index) % count
  }

  /** Saturation always spoils the flip. */
  lemma FlipSaturates(pivot: nat, count: nat, index: nat)
    requires pivot < count <= U64_MAX && index < count
    ensures SaturatingFlip(pivot, count, index) == (pivot + count - index) % count <==> pivot + count <= U64_MAX
  {
    if pivot + count > U64_MAX {
      NearbyRemaindersDiffer(U64_MAX - index, pivot + count - index, count);
    }
  }

  lemma NearbyRemaindersDiffer(x: nat, y: nat, n: nat)
    requires x < y < x + n
    ensures x % n != y % n
  {
    DivMod(x, n);
    DivMod(y, n);
    RemaindersDiffer(x / n, y / n, n, x % n, y % n);
  }

  lemma DivMod(x: nat, n: nat)
    requires n > 0
    ensures x == x / n * n + x % n
  {
  }

  lemma RemaindersDiffer(a: nat, b: nat, n: nat, r: nat, s: nat)
    requires a * n + r < b * n + s < a * n + r + n
    ensures r != s
  {
    if a < b {
      MulMonotone(a + 1, b, n);
      MulDistributes(a, 1, n);
    } else {
      MulMonotone(b, a, n);
    }
  }

  /** Where the code sends an index in one round. */
  function SaturatingRound(seed: Seed, round: nat, count: nat, index: nat): (r: nat)
    requires index < count
    ensures r < count
  {
    var flip := SaturatingFlip(Pivot(seed, round, count), count, index);
    if PositionBit(seed, round, if index < flip then flip else index) then flip else index
  }

  /** Where the code sends an index in the rounds from `round` up to `rounds`. */
  function SaturatingIndex(seed: Seed, round: nat, rounds: nat, count: nat, index: nat): (r: nat)
    requires index < count && round <= rounds
    ensures r < count
    decreases rounds - round
  {
    if round == rounds then index
    else SaturatingIndex(seed, round + 1, rounds, count, SaturatingRound(seed, round, count, index))
  }

  /** No pivot of these rounds is so large that adding the count to it saturates. */
  ghost predicate NeverSaturates(seed: Seed, round: nat, rounds: nat, count: nat)
    requires count > 0
  {
    forall r | round <= r < rounds :: Pivot(seed, r, count) + count <= U64_MAX
  }

  /** Without saturation the code follows the shuffle. */
  lemma {:induction false} ExactWithoutSaturation(seed: Seed, round: nat, rounds: nat, count: nat, index: nat)
    requires index < count <= U64_MAX && round <= rounds && NeverSaturates(seed, round, rounds, count)
    ensures SaturatingIndex(seed, round, rounds, count, index) == ShuffledIndex(seed, round, rounds, count, index)
    decreases rounds - round
  {
    hide PositionBit, SaturatingFlip;
    if round < rounds {
      FlipSaturates(Pivot(seed, round, count), count, index);
      RoundIsInvolution(seed, round, count, index);
      ExactWithoutSaturation(seed, round + 1, rounds, count, RoundIndex(seed, round, count, index));
    }
  }

  /** Counts up to half of the `u64` range never saturate, whatever the seed. */
  lemma HalfRangeNeverSaturates(seed: Seed, rounds: nat, count: nat)
    requires 0 < count && 2 * count <= U64_MAX + 1
    ensures NeverSaturates(seed, 0, rounds, count)
  {
  }

  /** A seed whose first pivot is the last index. Only the bits of the first round are set. */
  ghost function SaturatingSeed(count: nat): (seed: Seed)
    requires count > 0
  {
    Seed(_ => count - 1, (round, _, _) => round == 0)
  }

  /** Without a set bit an index stays where it is, in the code as in the shuffle. */
  lemma {:induction false} StaysPut(seed: Seed, round: nat, rounds: nat, count: nat, index: nat)
    requires index < count && round <= rounds
    requires forall r: nat, window: nat, bit: nat | round <= r :: !seed.bits(r, window, bit)
    ensures SaturatingIndex(seed, round, rounds, count, index) == index
    ensures ShuffledIndex(seed, round, rounds, count, index) == index
    decreases rounds - round
  {
    if round < rounds {
      StaysPut(seed, round + 1, rounds, count, index);
    }
  }

  /** Beyond that the code goes wrong for some seed, at every index and for every number of rounds. */
  lemma LargeCountsSaturate(count: nat, rounds: nat, index: nat)
    requires index < count <= U64_MAX && 2 * count > U64_MAX + 1 && rounds > 0
    ensures var seed := SaturatingSeed(count);
      SaturatingIndex(seed, 0, rounds, count, index) != ShuffledIndex(seed, 0, rounds, count, index)
  {
    var seed := SaturatingSeed(count);
    ModUnique(0, count, count - 1);
    assert Pivot(seed, 0, count) == count - 1;
    FlipSaturates(count - 1, count, index);
    RoundIsInvolution(seed, 0, count, index);
    StaysPut(seed, 1, rounds, count, SaturatingRound(seed, 0, count, index));
    StaysPut(seed, 1, rounds, count, RoundIndex(seed, 0, count, index));
  }

  /** The code sends some index to the wrong place. */
  ghost predicate GoesWrong(seed: Seed, rounds: nat, count: nat) {
    exists index: nat ::
      index < count
      && SaturatingIndex(seed, 0, rounds, count, index) != ShuffledIndex(seed, 0, rounds, count, index)
  }

  /** With at least one round the code can go wrong if and only if the count is above half of the `u64` range. */
  lemma WrongExactlyForLargeCounts(rounds: nat, count: nat)
    requires 0 < count <= U64_MAX && rounds > 0
    ensures (exists seed: Seed :: GoesWrong(seed, rounds, count)) <==> 2 * count > U64_MAX + 1
  {
    if 2 * count > U64_MAX + 1 {
      LargeCountsSaturate(count, rounds, 0);
      assert GoesWrong(SaturatingSeed(count), rounds, count);
    } else {
      forall seed: Seed ensures !GoesWrong(seed, rounds, count) {
        HalfRangeNeverSaturates(seed, rounds, count);
        forall index: nat | index < count
          ensures SaturatingIndex(seed, 0, rounds, count, index) == ShuffledIndex(seed, 0, rounds, count, index)
        {
          ExactWithoutSaturation(seed, 0, rounds, count, index);
        }
      }
    }
  }

  /** The shuffle is all of its rounds, one after another: an index goes where its trail through them ends. */
  lemma {:induction false} ShuffledByRounds(seed: Seed, rounds: nat, count: nat, trail: seq<nat>)
    requires count > 0 && |trail| == rounds + 1 && trail[0] < count
    requires forall r | 0 <= r < rounds :: trail[r] < count && trail[r + 1] == RoundIndex(seed, r, count, trail[r])
    ensures trail[rounds] == ShuffledIndex(seed, 0, rounds, count, trail[0])
  {
    TrailEnds(seed, 0, rounds, count, trail);
  }

  lemma {:induction false} TrailEnds(seed: Seed, round: nat, rounds: nat, count: nat, trail: seq<nat>)
    requires round <= rounds && |trail| == rounds + 1 && trail[round] < count
    requires forall r | 0 <= r < rounds :: trail[r] < count && trail[r + 1] == RoundIndex(seed, r, count, trail[r])
    ensures trail[rounds] == ShuffledIndex(seed, round, rounds, count, trail[round])
    decreases rounds - round
  {
    hide RoundIndex;
    if round < rounds {
      RoundIsInvolution(seed, round, count, trail[round]);
      TrailEnds(seed, round + 1, rounds, count, trail);
    }
  }

  /** Every index has a trail. */
  lemma {:induction false} HasTrail(seed: Seed, rounds: nat, count: nat, index: nat) returns (trail: seq<nat>)
    requires index < count
    ensures |trail| == rounds + 1 && trail[0] == index
    ensures forall r | 0 <= r < rounds :: trail[r] < count && trail[r + 1] == RoundIndex(seed, r, count, trail[r])
    ensures trail[rounds] < count && trail[rounds] == ShuffledIndex(seed, 0, rounds, count, index)
  {
    hide RoundIndex;
    if rounds == 0 {
      trail := [index];
    } else {
      trail := HasTrail(seed, rounds - 1, count, index);
      RoundIsInvolution(seed, rounds - 1, count, trail[rounds - 1]);
      trail := trail + [RoundIndex(seed, rounds - 1, count, trail[rounds - 1])];
      ShuffledByRounds(seed, rounds, count, trail);
    }
  }

  /** Where the code sends an index in one round, by the hash alone: the flip is computed in saturating arithmetic. */
  lemma SaturatingRoundByBit(seed: Seed, round: nat, count: nat, index: nat)
    requires index < count <= U64_MAX
    ensures var pivot := seed.pivots(round) % count;
      var flip := (Min(pivot + count, U64_MAX) - index) % count;
      var position := Max(index, flip);
      SaturatingRound(seed, round, count, index) ==
      if seed.bits(round, position / 256 % 0x1_0000_0000, position % 256) then flip else index
  {
  }

  /** `shuffle_single`, for every count. The trail is where the rounds send the index, one after another: each flips it
      in saturating arithmetic, and follows the shuffle unless its pivot saturates. */
  method ShuffleSingle(index: nat, count: nat, seed: Seed, rounds: nat) returns (shuffled: nat, ghost trail: seq<nat>)
    requires index < count <= U64_MAX
    ensures |trail| == rounds + 1 && trail[0] == index && trail[rounds] == shuffled
    ensures forall r | 0 <= r < rounds :: trail[r] < count && trail[r + 1] == SaturatingRound(seed, r, count, trail[r])
    ensures NeverSaturates(seed, 0, rounds, count) ==>
      forall r | 0 <= r < rounds :: trail[r + 1] == RoundIndex(seed, r, count, trail[r])
    ensures shuffled == SaturatingIndex(seed, 0, rounds, count, index)
    ensures NeverSaturates(seed, 0, rounds, count) ==> shuffled == ShuffledIndex(seed, 0, rounds, count, index)
  {
    hide PositionBit, SaturatingFlip, NeverSaturates;
    shuffled, trail := index, [index];
    for round := 0 to rounds
      invariant shuffled < count
      invariant SaturatingIndex(seed, round, rounds, count, shuffled) == SaturatingIndex(seed, 0, rounds, count, index)
      invariant |trail| == round + 1 && trail[0] == index && trail[round] == shuffled
      invariant forall r | 0 <= r < round ::
        trail[r] < count && trail[r + 1] == SaturatingRound(seed, r, count, trail[r])
    {
      var pivot := Pivot(seed, round, count);
      var flip := SaturatingSub(SaturatingAdd(pivot, count), shuffled) % count;
      FlipIs(pivot, count, shuffled);
      var position := if shuffled < flip then flip else shuffled;
      BitOfPosition(seed, round, position / BITS_PER_HASH, position % BITS_PER_HASH, position);
      if SourceBit(seed, round, position / BITS_PER_HASH, position % 0x100) {
        shuffled := flip;
      }
      trail := trail + [shuffled];
    }
    if NeverSaturates(seed, 0, rounds, count) {
      ExactWithoutSaturation(seed, 0, rounds, count, index);
      forall r | 0 <= r < rounds ensures trail[r + 1] == RoundIndex(seed, r, count, trail[r]) {
        RoundWithoutSaturation(seed, rounds, r, count, trail[r]);
      }
    }
  }

  lemma RoundWithoutSaturation(seed: Seed, rounds: nat, round: nat, count: nat, index: nat)
    requires index < count <= U64_MAX && round < rounds && NeverSaturates(seed, 0, rounds, count)
    ensures SaturatingRound(seed, round, count, index) == RoundIndex(seed, round, count, index)
  {
    hide PositionBit, SaturatingFlip;
    FlipSaturates(Pivot(seed, round, count), count, index);
  }

  lemma FlipIs(pivot: nat, count: nat, index: nat)
    requires count > 0
    ensures SaturatingFlip(pivot, count, index) == SaturatingSub(SaturatingAdd(pivot, count), index) % count
  {
  }

  // --- Swapping around a mirror ---------------------------------------------------------------

  /** Where a mirror in the middle of `lo..hi` sends an index, by the bit at the higher position. */
  function MirrorIndex(seed: Seed, round: nat, lo: nat, hi: nat, index: nat): nat
    requires lo <= index < hi
  {
    var flip := lo + hi - 1 - index;
    if PositionBit(seed, round, if index < flip then flip else index) then flip else index
  }

  /** The number of a mirrored pair: pair `k` is the indices `lo + k` and `hi - 1 - k`. */
  function PairOf(lo: nat, hi: nat, index: nat): nat
    requires lo <= index < hi
  {
    if index - lo <= hi - 1 - index then index - lo else hi - 1 - index
  }

  /** `after` is `before` with exactly the given pairs swapped where their bit says so. */
  ghost predicate Swapped<T>(seed: Seed, round: nat, lo: nat, hi: nat, before: seq<T>, after: seq<T>, pairs: set<nat>)
  {
    && hi <= |before| == |after|
    && forall i | 0 <= i < |after| ::
         after[i] == before[if lo <= i < hi && PairOf(lo, hi, i) in pairs
                            then MirrorIndex(seed, round, lo, hi, i) else i]
  }

  lemma SwappedCompose<T>(seed: Seed, round: nat, lo: nat, hi: nat,
                          before: seq<T>, middle: seq<T>, after: seq<T>, first: set<nat>, second: set<nat>)
    requires Swapped(seed, round, lo, hi, before, middle, first)
    requires Swapped(seed, round, lo, hi, middle, after, second)
    requires first !! second
    ensures Swapped(seed, round, lo, hi, before, after, first + second)
  {
  }

  function Up(from: nat, length: nat): seq<nat> {
    seq(length, i => from + i)
  }

  function Down(from: nat, length: nat): seq<nat> {
    seq(length, i requires 0 <= i < length => from + length - 1 - i)
  }

  /** The pairs from `from` up to `to`. */
  function PairRange(from: nat, to: nat): (pairs: set<nat>)
    ensures forall k :: k in pairs <==> from <= k < to
  {
    if from >= to then {} else PairRange(from, to - 1) + {to - 1}
  }

  lemma UpAndDownCoverRange(from: nat, length: nat)
    ensures Elements(Up(from, length)) == PairRange(from, from + length) == Elements(Down(from, length))
  {
    forall k | from <= k < from + length
      ensures k in Up(from, length) && k in Down(from, length)
    {
      assert Up(from, length)[k - from] == k == Down(from, length)[length - 1 - (k - from)];
    }
  }

  /** Swapping one pair by its bit. */
  lemma SwapOnePair<T>(seed: Seed, round: nat, lo: nat, hi: nat, before: seq<T>, after: seq<T>, pair: nat, bit: bool)
    requires lo <= hi <= |before| && pair < (hi - lo) / 2
    requires bit == PositionBit(seed, round, hi - 1 - pair)
    requires after == if bit then before[lo + pair := before[hi - 1 - pair]][hi - 1 - pair := before[lo + pair]]
                      else before
    ensures Swapped(seed, round, lo, hi, before, after, {pair})
  {
    hide PositionBit;
  }

  /** The bits stand for the positions of the higher elements of the pairs. */
  ghost predicate BitsMatch(window: nat, bits: seq<nat>, hi: nat, pairs: seq<nat>) {
    |pairs| <= |bits|
    && forall t | 0 <= t < |pairs| ::
         bits[t] < BITS_PER_HASH && window * BITS_PER_HASH + bits[t] == hi - 1 - pairs[t]
  }

  lemma BitOfPosition(seed: Seed, round: nat, window: nat, bit: nat, position: nat)
    requires bit < BITS_PER_HASH && window * BITS_PER_HASH + bit == position
    ensures SourceBit(seed, round, window, bit) == PositionBit(seed, round, position)
  {
  }

  /** `swap_using_source`: walk the bits of one window and the pairs together. */
  method SwapUsingSource<T>(a: array<T>, seed: Seed, round: nat, window: nat, bits: seq<nat>,
                            lo: nat, hi: nat, pairs: seq<nat>)
    requires lo <= hi <= a.Length
    requires forall t | 0 <= t < |pairs| :: pairs[t] < (hi - lo) / 2
    requires forall s, t | 0 <= s < t < |pairs| :: pairs[s] != pairs[t]
    requires BitsMatch(window, bits, hi, pairs)
    modifies a
    ensures Swapped(seed, round, lo, hi, old(a[..]), a[..], Elements(pairs))
  {
    hide PositionBit, SourceBit, Swapped;
    ghost var before := a[..];
    SwappedNothing(seed, round, lo, hi, before);
    assert Elements(pairs[..0]) == {};
    for t := 0 to |pairs|
      invariant Swapped(seed, round, lo, hi, before, a[..], Elements(pairs[..t]))
    {
      ghost var middle := a[..];
      var low, high := lo + pairs[t], hi - 1 - pairs[t];
      var bit := SourceBit(seed, round, window, bits[t]);
      BitOfPosition(seed, round, window, bits[t], high);
      if bit {
        a[low], a[high] := a[high], a[low];
      }
      SwapOnePair(seed, round, lo, hi, middle, a[..], pairs[t], bit);
      SwappedCompose(seed, round, lo, hi, before, middle, a[..], Elements(pairs[..t]), {pairs[t]});
      assert Elements(pairs[..t]) + {pairs[t]} == Elements(pairs[..t + 1]);
    }
    assert pairs[..|pairs|] == pairs;
  }

  lemma SwappedNothing<T>(seed: Seed, round: nat, lo: nat, hi: nat, s: seq<T>)
    requires hi <= |s|
    ensures Swapped(seed, round, lo, hi, s, s, {})
  {
  }

  // --- Windows --------------------------------------------------------------------------------

  /** The pairs whose higher elements lie in the last, incomplete window. */
  lemma TrailingBitsMatch(hi: nat, trailing: nat)
    requires trailing <= hi % BITS_PER_HASH
    ensures BitsMatch(hi / BITS_PER_HASH, Down(0, hi % BITS_PER_HASH), hi, Up(0, trailing))
  {
  }

  /** The innermost pairs, whose higher elements lie in an incomplete window next to the mirror. */
  lemma LeadingBitsMatch(lo: nat, hi: nat, trailing: nat, leading: nat)
    requires lo <= hi && trailing == hi % BITS_PER_HASH <= (hi - lo) / 2
    requires leading == ((hi - lo) / 2 - trailing) % BITS_PER_HASH && leading > 0
    ensures BitsMatch((lo + (hi - lo) / 2) / BITS_PER_HASH, Down(0, BITS_PER_HASH), hi,
                      Up((hi - lo) / 2 - leading, leading))
  {
    var mirror := (hi - lo) / 2;
    var chunks := (mirror - trailing) / BITS_PER_HASH;
    var q := hi / BITS_PER_HASH;
    assert hi == q * BITS_PER_HASH + trailing;
    assert mirror == trailing + chunks * BITS_PER_HASH + leading;
    assert (q - chunks) * BITS_PER_HASH == q * BITS_PER_HASH - chunks * BITS_PER_HASH;
    assert (lo + mirror) / BITS_PER_HASH == q - chunks - 1;
  }

  /** A whole window, counted down from `offset`, which ends at a window boundary after `skipped` pairs. */
  lemma ChunkBitsMatch(hi: nat, window: nat, from: nat)
    requires hi - from == (window + 1) * BITS_PER_HASH
    ensures BitsMatch(window, Up(0, BITS_PER_HASH), hi, Down(from, BITS_PER_HASH))
  {
  }

  /** `swap_chunk_range`: `chunks` whole windows, from the pair `from` on; `offset` is where the windows of
      this range are counted down from. */
  method SwapChunkRange<T>(a: array<T>, seed: Seed, round: nat, lo: nat, hi: nat, from: nat, chunks: nat, offset: nat)
    requires lo <= hi <= a.Length && from + chunks * BITS_PER_HASH <= (hi - lo) / 2
    requires from <= hi && offset / BITS_PER_HASH * BITS_PER_HASH == hi - from
    modifies a
    ensures Swapped(seed, round, lo, hi, old(a[..]), a[..], PairRange(from, from + chunks * BITS_PER_HASH))
  {
    hide Swapped, BitsMatch, PairRange;
    ghost var before := a[..];
    SwappedNothing(seed, round, lo, hi, before);
    assert PairRange(from, from) == {};
    for c := 0 to chunks
      invariant Swapped(seed, round, lo, hi, before, a[..], PairRange(from, from + c * BITS_PER_HASH))
    {
      ghost var middle := a[..];
      var first := from + c * BITS_PER_HASH;
      var window := offset / BITS_PER_HASH - 1 - c;
      ChunkBitsMatch(hi, window, first);
      UpAndDownCoverRange(first, BITS_PER_HASH);
      SwapUsingSource(a, seed, round, window, Up(0, BITS_PER_HASH), lo, hi, Down(first, BITS_PER_HASH));
      SwappedCompose(
        seed, round, lo, hi, before, middle, a[..], PairRange(from, first), PairRange(first, first + BITS_PER_HASH));
      assert PairRange(from, first) + PairRange(first, first + BITS_PER_HASH) == PairRange(from, first + BITS_PER_HASH);
    }
  }

  /** The whole windows between the trailing and the leading pairs, split between workers. The parts are
      disjoint; they are swapped one after another here. */
  method SwapChunks<T>(a: array<T>, seed: Seed, round: nat, lo: nat, hi: nat, trailing: nat, chunks: nat, workers: nat)
    requires lo <= hi <= a.Length && trailing + chunks * BITS_PER_HASH <= (hi - lo) / 2
    requires chunks > 0 && trailing == hi % BITS_PER_HASH
    modifies a
    ensures Swapped(seed, round, lo, hi, old(a[..]), a[..], PairRange(trailing, trailing + chunks * BITS_PER_HASH))
  {
    hide Swapped, PairRange;
    var parts := Min(workers, chunks / MIN_CHUNKS_PER_WORKER);
    if parts <= 1 {
      SwapChunkRange(a, seed, round, lo, hi, trailing, chunks, hi);
      return;
    }
    var partChunks := (chunks + parts - 1) / parts;
    assert partChunks > 0;
    ghost var before := a[..];
    SwappedNothing(seed, round, lo, hi, before);
    assert PairRange(trailing, trailing) == {};
    var done := 0;
    while done < chunks
      invariant 0 <= done <= chunks
      invariant Swapped(seed, round, lo, hi, before, a[..], PairRange(trailing, trailing + done * BITS_PER_HASH))
    {
      ghost var middle := a[..];
      var part := Min(partChunks, chunks - done);
      var from, partOffset := trailing + done * BITS_PER_HASH, hi - done * BITS_PER_HASH;
      assert partOffset / BITS_PER_HASH == hi / BITS_PER_HASH - done;
      SwapChunkRange(a, seed, round, lo, hi, from, part, partOffset);
      var to := from + part * BITS_PER_HASH;
      SwappedCompose(seed, round, lo, hi, before, middle, a[..], PairRange(trailing, from), PairRange(from, to));
      assert PairRange(trailing, from) + PairRange(from, to) == PairRange(trailing, to);
      done := done + part;
    }
  }

  /** The outermost pairs, whose higher elements lie in the last, incomplete window. */
  method SwapTrailing<T>(a: array<T>, seed: Seed, round: nat, lo: nat, hi: nat, trailing: nat)
    requires lo <= hi <= a.Length && trailing <= hi % BITS_PER_HASH && trailing <= (hi - lo) / 2
    modifies a
    ensures Swapped(seed, round, lo, hi, old(a[..]), a[..], PairRange(0, trailing))
  {
    hide Swapped, PairRange, BitsMatch;
    if trailing == 0 {
      EmptyRange(0);
      SwappedNothing(seed, round, lo, hi, a[..]);
      return;
    }
    TrailingBitsMatch(hi, trailing);
    UpAndDownCoverRange(0, trailing);
    SwapUsingSource(a, seed, round, hi / BITS_PER_HASH, Down(0, hi % BITS_PER_HASH), lo, hi, Up(0, trailing));
  }

  /** The innermost pairs, whose higher elements lie in an incomplete window next to the mirror. */
  method SwapLeading<T>(a: array<T>, seed: Seed, round: nat, lo: nat, hi: nat, trailing: nat, leading: nat)
    requires lo <= hi <= a.Length && trailing <= (hi - lo) / 2
    requires leading == ((hi - lo) / 2 - trailing) % BITS_PER_HASH
    requires leading > 0 ==> trailing == hi % BITS_PER_HASH
    modifies a
    ensures Swapped(seed, round, lo, hi, old(a[..]), a[..], PairRange((hi - lo) / 2 - leading, (hi - lo) / 2))
  {
    hide Swapped, PairRange, BitsMatch;
    var mirror := (hi - lo) / 2;
    if leading == 0 {
      EmptyRange(mirror);
      SwappedNothing(seed, round, lo, hi, a[..]);
      return;
    }
    LeadingBitsMatch(lo, hi, trailing, leading);
    UpAndDownCoverRange(mirror - leading, leading);
    SwapUsingSource(a, seed, round, (lo + mirror) / BITS_PER_HASH, Down(0, BITS_PER_HASH), lo, hi,
                    Up(mirror - leading, leading));
  }

  lemma EmptyRange(at: nat)
    ensures PairRange(at, at) == {}
  {
  }

  /** The three parts are apart and make up all pairs. */
  lemma PartsOfMirror(trailing: nat, inner: nat, mirror: nat)
    requires trailing <= inner <= mirror
    ensures PairRange(0, trailing) !! PairRange(inner, mirror)
    ensures PairRange(0, trailing) + PairRange(inner, mirror) !! PairRange(trailing, inner)
    ensures PairRange(0, trailing) + PairRange(inner, mirror) + PairRange(trailing, inner) == PairRange(0, mirror)
  {
    hide PairRange;
  }

  /** `swap_around_mirror`. */
  method SwapAroundMirror<T>(a: array<T>, seed: Seed, round: nat, lo: nat, hi: nat, workers: nat)
    requires lo <= hi <= a.Length
    modifies a
    ensures Swapped(seed, round, lo, hi, old(a[..]), a[..], PairRange(0, (hi - lo) / 2))
  {
    hide Swapped, PairRange;
    var mirror := (hi - lo) / 2;
    var trailing := Min(mirror, hi % BITS_PER_HASH);
    var leading := (mirror - trailing) % BITS_PER_HASH;
    var chunks := (mirror - trailing) / BITS_PER_HASH;
    ghost var inner := mirror - leading;
    assert inner == trailing + chunks * BITS_PER_HASH;
    PartsOfMirror(trailing, inner, mirror);
    ghost var outside := PairRange(0, trailing) + PairRange(inner, mirror);

    ghost var before := a[..];
    SwapTrailing(a, seed, round, lo, hi, trailing);
    ghost var first := a[..];
    SwapLeading(a, seed, round, lo, hi, trailing, leading);
    ghost var second := a[..];
    SwappedCompose(seed, round, lo, hi, before, first, second, PairRange(0, trailing), PairRange(inner, mirror));
    if chunks == 0 {
      EmptyRange(inner);
      assert outside + {} == outside;
      return;
    }
    SwapChunks(a, seed, round, lo, hi, trailing, chunks, workers);
    SwappedCompose(seed, round, lo, hi, before, second, a[..], outside, PairRange(trailing, inner));
  }

  /** The two mirrors of a round together send every index where the round does. */
  lemma MirrorsMakeRound<T>(seed: Seed, round: nat, before: seq<T>, middle: seq<T>, after: seq<T>, midpoint: nat)
    requires 0 < |before| && midpoint == Pivot(seed, round, |before|) + 1
    requires Swapped(seed, round, 0, midpoint, before, middle, PairRange(0, midpoint / 2))
    requires Swapped(seed, round, midpoint, |before|, middle, after, PairRange(0, (|before| - midpoint) / 2))
    ensures |after| == |before|
    ensures forall i | 0 <= i < |after| ::
              RoundIndex(seed, round, |before|, i) < |before|
              && after[i] == before[RoundIndex(seed, round, |before|, i)]
  {
    hide PositionBit, PairRange, RoundIndex, Pivot;
    var count := |before|;
    forall i | 0 <= i < count
      ensures RoundIndex(seed, round, count, i) < count
      ensures after[i] == before[RoundIndex(seed, round, count, i)]
    {
      RoundIsMirror(seed, round, count, midpoint, i);
      if i < midpoint {
        assert middle[i] == before[MirrorIndex(seed, round, 0, midpoint, i)];
      } else {
        assert after[i] == middle[MirrorIndex(seed, round, midpoint, count, i)];
      }
    }
  }

  /** A round mirrors an index within the part it lies in, up to the pivot or past it. */
  lemma RoundIsMirror(seed: Seed, round: nat, count: nat, midpoint: nat, i: nat)
    requires i < count && midpoint == Pivot(seed, round, count) + 1
    ensures RoundIndex(seed, round, count, i) < count
    ensures RoundIndex(seed, round, count, i) ==
      if i < midpoint then MirrorIndex(seed, round, 0, midpoint, i) else MirrorIndex(seed, round, midpoint, count, i)
  {
    hide PositionBit;
    FlipOf(midpoint - 1, count, i);
  }

  method ShuffleRound<T>(a: array<T>, seed: Seed, round: nat, workers: nat)
    requires a.Length > 0
    modifies a
    ensures forall i | 0 <= i < a.Length ::
              RoundIndex(seed, round, a.Length, i) < a.Length
              && a[i] == old(a[..])[RoundIndex(seed, round, a.Length, i)]
  {
    hide Swapped, PairRange, RoundIndex;
    ghost var before := a[..];
    var midpoint := Pivot(seed, round, a.Length) + 1;
    SwapAroundMirror(a, seed, round, 0, midpoint, workers);
    ghost var middle := a[..];
    SwapAroundMirror(a, seed, round, midpoint, a.Length, workers);
    MirrorsMakeRound(seed, round, before, middle, a[..], midpoint);
  }

  /** `shuffle_slice`: every position receives the element at its shuffled index. `threads` is the size of
      the thread pool. */
  method ShuffleSlice<T>(a: array<T>, seed: Seed, rounds: nat, threads: nat)
    modifies a
    ensures forall i | 0 <= i < a.Length :: a[i] == old(a[..])[ShuffledIndex(seed, 0, rounds, a.Length, i)]
    ensures forall trail: seq<nat> |
      && |trail| == rounds + 1 && trail[0] < a.Length
      && (forall r | 0 <= r < rounds ::
            trail[r] < a.Length && trail[r + 1] == RoundIndex(seed, r, a.Length, trail[r])) ::
      trail[rounds] < a.Length && a[trail[0]] == old(a[..])[trail[rounds]]
    ensures multiset(a[..]) == multiset(old(a[..]))
  {
    if a.Length == 0 {
      return;
    }
    hide RoundIndex;
    var workers := if a.Length >= MIN_PARALLEL_LEN then threads else 1;
    ghost var before := a[..];
    for round := rounds downto 0
      invariant forall i | 0 <= i < a.Length :: a[i] == before[ShuffledIndex(seed, round, rounds, a.Length, i)]
    {
      ShuffleRound(a, seed, round, workers);
    }
    ShufflePermutes(seed, rounds, before, a[..]);
    forall trail: seq<nat> |
      && |trail| == rounds + 1 && trail[0] < a.Length
      && forall r | 0 <= r < rounds ::
           trail[r] < a.Length && trail[r + 1] == RoundIndex(seed, r, a.Length, trail[r])
      ensures trail[rounds] < a.Length && a[trail[0]] == before[trail[rounds]]
    {
      ShuffledByRounds(seed, rounds, a.Length, trail);
    }
  }

  /** Shuffling a slice keeps its elements: each occurs as often as before. */
  lemma ShufflePermutes<T>(seed: Seed, rounds: nat, before: seq<T>, after: seq<T>)
    requires |after| == |before|
    requires forall i | 0 <= i < |after| :: after[i] == before[ShuffledIndex(seed, 0, rounds, |before|, i)]
    ensures multiset(after) == multiset(before)
  {
    var indices := seq(|before|, i requires 0 <= i < |before| => ShuffledIndex(seed, 0, rounds, |before|, i));
    forall i, j | 0 <= i < j < |indices|
      ensures indices[i] != indices[j]
    {
      ShuffleIsInjective(seed, 0, rounds, |before|, i, j);
    }
    Permuted(before, after, indices);
  }

  /** Reading a sequence at distinct indices that number as many as its elements permutes it. */
  lemma {:induction false} Permuted<T>(before: seq<T>, after: seq<T>, indices: seq<nat>)
    requires |before| == |after| == |indices|
    requires forall i | 0 <= i < |indices| :: indices[i] < |before| && after[i] == before[indices[i]]
    requires forall i, j | 0 <= i < j < |indices| :: indices[i] != indices[j]
    ensures multiset(after) == multiset(before)
    decreases |before|
  {
    if |before| > 0 {
      var last := |before| - 1;
      var hole := indices[last];
      var shorter := before[..hole] + before[hole + 1..];
      var rest := seq(last, i requires 0 <= i < last => if indices[i] < hole then indices[i] else indices[i] - 1);
      assert after == after[..last] + [before[hole]];
      assert before == before[..hole] + [before[hole]] + before[hole + 1..];
      PermutedRest(before, after, indices, shorter, rest);
      Permuted(shorter, after[..last], rest);
    }
  }

  lemma PermutedRest<T>(before: seq<T>, after: seq<T>, indices: seq<nat>, shorter: seq<T>, rest: seq<nat>)
    requires |before| == |after| == |indices| > 0
    requires forall i | 0 <= i < |indices| :: indices[i] < |before| && after[i] == before[indices[i]]
    requires forall i, j | 0 <= i < j < |indices| :: indices[i] != indices[j]
    requires var hole := indices[|before| - 1];
             && shorter == before[..hole] + before[hole + 1..]
             && |rest| == |before| - 1
             && forall i | 0 <= i < |rest| :: rest[i] == if indices[i] < hole then indices[i] else indices[i] - 1
    ensures forall i | 0 <= i < |rest| :: rest[i] < |shorter| && after[i] == shorter[rest[i]]
    ensures forall i, j | 0 <= i < j < |rest| :: rest[i] != rest[j]
  {
  }
}
