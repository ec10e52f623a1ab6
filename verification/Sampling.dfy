/** Unbiased sampling from a stream of 64-bit words: rejection for a uniform draw, and a weighted choice on top of it. */
module Sampling {
  import opened Numbers
  import opened Products
  import opened Sums

  datatype RngError = ZeroUpperBound | EmptyDistribution | WeightOverflow

  type Word = w: int | 0 <= w <= U64_MAX

  /** Words below the threshold are accepted. */
  function Threshold(upper: int): int
    requires 0 < upper
  {
    U64_MAX - U64_MAX % upper
  }

  /** Position `k` holds the first accepted word from `start` on. */
  ghost predicate FirstAccepted(words: nat -> Word, start: nat, k: nat, upper: int)
    requires 0 < upper
  {
    start <= k && words(k) < Threshold(upper) && forall i :: start <= i < k ==> words(i) >= Threshold(upper)
  }

  ghost predicate AcceptedAhead(words: nat -> Word, start: nat, upper: int) {
    0 < upper ==> exists k :: start <= k && words(k) < Threshold(upper)
  }

  ghost predicate ValidWeights(weights: seq<int>) {
    forall i :: 0 <= i < |weights| ==> InU64(weights[i])
  }

  /** Index `i` owns the draw: its weight covers the draw after all earlier weights are taken off. */
  ghost predicate Owns(weights: seq<int>, i: int, draw: int) {
    0 <= i < |weights| && Sum(weights[..i]) <= draw < Sum(weights[..i + 1])
  }

  /** A generator over a fixed stream, drawing one word after another. */
  class DomainRng {
    const words: nat -> Word
    var position: nat

    constructor (words: nat -> Word)
      ensures this.words == words && position == 0
    {
      this.words := words;
      position := 0;
    }

    /** A uniform draw consumes words up to the first accepted one; a zero bound consumes none. */
    method SampleUniformBelow(upper: int) returns (r: Result<int, RngError>)
      requires InU64(upper) && AcceptedAhead(words, position, upper)
      modifies this`position
      ensures upper == 0 ==> r == Err(ZeroUpperBound) && position == old(position)
      ensures upper > 0 ==>
        && old(position) < position && FirstAccepted(words, old(position), position - 1, upper)
        && r == Ok(words(position - 1) % upper) && 0 <= r.value < upper
    {
      if upper == 0 {
        return Err(ZeroUpperBound);
      }
      var threshold := U64_MAX - U64_MAX % upper;
      ghost var ahead: nat :| position <= ahead && words(ahead) < Threshold(upper);
      while true
        invariant old(position) <= position <= ahead
        invariant forall i :: old(position) <= i < position ==> words(i) >= threshold
        decreases ahead - position
      {
        var candidate := words(position);
        position := position + 1;
        if candidate < threshold {
          return Ok(candidate % upper);
        }
      }
    }

    /** A weighted draw returns the owner of a uniform draw below the total; the fall-through is unreachable. */
    method SampleWeighted(weights: seq<int>) returns (r: Result<int, RngError>)
      requires ValidWeights(weights) && (Sum(weights) <= U64_MAX ==> AcceptedAhead(words, position, Sum(weights)))
      modifies this`position
      ensures Sum(weights) > U64_MAX ==> r == Err(WeightOverflow) && position == old(position)
      ensures Sum(weights) == 0 ==> r == Err(EmptyDistribution) && position == old(position)
      ensures 0 < Sum(weights) <= U64_MAX ==>
        && old(position) < position && FirstAccepted(words, old(position), position - 1, Sum(weights))
        && r.Ok? && Owns(weights, r.value, words(position - 1) % Sum(weights)) && 0 < weights[r.value]
    {
      hide Threshold, FirstAccepted;
      SumNonNegative(weights);
      SumWhole(weights);
      var total := 0;
      for i := 0 to |weights|
        invariant total == Sum(weights[..i]) && InU64(total) && position == old(position)
      {
        SumPrefix(weights, i);
        SumPrefixBound(weights, i + 1);
        if !InU64(total + weights[i]) {
          return Err(WeightOverflow);
        }
        total := total + weights[i];
      }
      if total == 0 {
        return Err(EmptyDistribution);
      }
      var draw := SampleUniformBelow(total);
      var remaining := draw.value;
      ghost var drawn := position;
      for index := 0 to |weights|
        invariant 0 <= remaining && Sum(weights[..index]) + remaining == draw.value && position == drawn
      {
        SumPrefix(weights, index);
        if remaining < weights[index] {
          return Ok(index);
        }
        remaining := remaining - weights[index];
      }
      assert false;
    }
  }

  // ---- how many words lead to each outcome

  /** The accepted words whose residue lies in `residues`. */
  ghost function AcceptedWords(upper: int, residues: set<int>): set<int>
    requires 0 < upper
  {
    set w | 0 <= w < Threshold(upper) && w % upper in residues
  }

  /** Words below `blocks * upper` whose residue lies in `residues`. */
  ghost function WordsInBlocks(upper: int, residues: set<int>, blocks: nat): set<int>
    requires 0 < upper
  {
    set w | 0 <= w < blocks * upper && w % upper in residues
  }

  ghost function Shifted(s: set<int>, offset: int): set<int> {
    set x | x in s :: x + offset
  }

  lemma SomeMember<T>(s: set<T>) returns (x: T)
    requires s != {}
    ensures x in s
  {
    x :| x in s;
  }

  lemma {:induction false} ShiftedSize(s: set<int>, offset: int)
    ensures |Shifted(s, offset)| == |s|
    decreases |s|
  {
    if s == {} {
      assert Shifted(s, offset) == {};
    } else {
      var x := SomeMember(s);
      ShiftedSize(s - {x}, offset);
      ShiftedSplit(s, x, offset);
    }
  }

  lemma ShiftedMember(s: set<int>, offset: int, z: int)
    ensures z in Shifted(s, offset) <==> z - offset in s
  {
    if z - offset in s {
      assert (z - offset) + offset == z;
    }
  }

  lemma ShiftedSplit(s: set<int>, x: int, offset: int)
    requires x in s
    ensures Shifted(s, offset) == Shifted(s - {x}, offset) + {x + offset} && x + offset !in Shifted(s - {x}, offset)
  {
    hide Shifted;
    var rest := s - {x};
    forall z
      ensures z in Shifted(s, offset) <==> z in Shifted(rest, offset) + {x + offset}
      ensures z in Shifted(rest, offset) ==> z != x + offset
    {
      ShiftedMember(s, offset, z);
      ShiftedMember(rest, offset, z);
    }
  }

  lemma ModuloBlock(w: int, upper: int, block: nat)
    requires 0 < upper
    ensures block * upper <= w < (block + 1) * upper ==> w % upper == w - block * upper
  {
    if block * upper <= w < (block + 1) * upper {
      QuotientUnique(upper, w / upper, w % upper, block, w - block * upper);
    }
  }

  lemma {:induction false} BlocksSize(upper: int, residues: set<int>, blocks: nat)
    requires 0 < upper && forall r <- residues :: 0 <= r < upper
    ensures |WordsInBlocks(upper, residues, blocks)| == blocks * |residues|
    decreases blocks
  {
    if blocks == 0 {
      assert WordsInBlocks(upper, residues, 0) == {};
    } else {
      var before, shifted := WordsInBlocks(upper, residues, blocks - 1), Shifted(residues, (blocks - 1) * upper);
      BlocksSize(upper, residues, blocks - 1);
      ShiftedSize(residues, (blocks - 1) * upper);
      LastBlock(upper, residues, blocks);
      assert |before + shifted| == |before| + |shifted|;
      MulAdd(|residues|, blocks, 1);
    }
  }

  /** The last block adds each residue once. */
  lemma LastBlock(upper: int, residues: set<int>, blocks: nat)
    requires 0 < upper && 0 < blocks && forall r <- residues :: 0 <= r < upper
    ensures var before, shifted := WordsInBlocks(upper, residues, blocks - 1), Shifted(residues, (blocks - 1) * upper);
      before !! shifted && WordsInBlocks(upper, residues, blocks) == before + shifted
  {
    var start := (blocks - 1) * upper;
    assert blocks * upper == start + upper by {
      MulAdd(upper, blocks, 1);
    }
    forall w
      ensures w in WordsInBlocks(upper, residues, blocks)
          <==> w in WordsInBlocks(upper, residues, blocks - 1) || w in Shifted(residues, start)
    {
      ModuloBlock(w, upper, blocks - 1);
      if w in WordsInBlocks(upper, residues, blocks) && start <= w {
        assert w - start in residues && w == (w - start) + start;
      }
    }
  }

  /** Every set of residues is hit by as many accepted words as its size calls for: all residues are equally likely. */
  lemma AcceptedExactly(upper: int, residues: set<int>)
    requires 0 < upper && forall r <- residues :: 0 <= r < upper
    ensures |AcceptedWords(upper, residues)| == U64_MAX / upper * |residues|
  {
    assert Threshold(upper) == U64_MAX / upper * upper;
    assert AcceptedWords(upper, residues) == WordsInBlocks(upper, residues, U64_MAX / upper);
    BlocksSize(upper, residues, U64_MAX / upper);
  }

  ghost function Interval(low: int, high: int): (s: set<int>)
    requires low <= high
    ensures forall x :: x in s <==> low <= x < high
    ensures |s| == high - low
    decreases high - low
  {
    if low == high then {} else Interval(low, high - 1) + {high - 1}
  }

  /** Each residue is hit by exactly the same number of accepted words, and at least half of all words are accepted. */
  lemma UniformDraw(upper: int, residue: int)
    requires 0 <= residue < upper <= U64_MAX
    ensures |AcceptedWords(upper, {residue})| == U64_MAX / upper
    ensures 2 * Threshold(upper) >= U64_MAX + 1
  {
    hide Threshold;
    AcceptedExactly(upper, {residue});
    HalfAccepted(upper);
  }

  lemma HalfAccepted(upper: int)
    requires 0 < upper <= U64_MAX
    ensures 2 * Threshold(upper) >= U64_MAX + 1
  {
    var q, m := U64_MAX / upper, U64_MAX % upper;
    assert U64_MAX == upper * q + m && 0 <= m < upper;
    if q < 1 {
      MulOrder(q, 0, upper);
    }
    MulOrder(1, q, upper);
  }

  /** The draws an index owns. */
  ghost function DrawsOf(weights: seq<int>, i: int): set<int> {
    set d | 0 <= d < Sum(weights) && Owns(weights, i, d)
  }

  /** Every draw below the total has exactly one owner, and each index owns exactly its weight of them; an index of zero
      weight owns none. */
  lemma WeightedDraws(weights: seq<int>, i: int)
    requires ValidWeights(weights) && 0 <= i < |weights|
    ensures |DrawsOf(weights, i)| == weights[i]
    ensures forall d <- DrawsOf(weights, i) :: 0 <= d < Sum(weights)
  {
    SumPrefix(weights, i);
    SumPrefixBound(weights, i);
    SumPrefixBound(weights, i + 1);
    assert DrawsOf(weights, i) == Interval(Sum(weights[..i]), Sum(weights[..i + 1]));
  }

  lemma {:induction false} OwnerExists(weights: seq<int>, draw: int, k: nat) returns (i: int)
    requires ValidWeights(weights) && k <= |weights| && 0 <= draw < Sum(weights[..k])
    ensures Owns(weights, i, draw) && i < k
  {
    SumPrefix(weights, k - 1);
    if draw < Sum(weights[..k - 1]) {
      i := OwnerExists(weights, draw, k - 1);
    } else {
      i := k - 1;
    }
  }

  lemma OneOwner(weights: seq<int>, draw: int, i: int, j: int)
    requires ValidWeights(weights) && Owns(weights, i, draw) && Owns(weights, j, draw)
    ensures i == j
  {
    if i < j {
      assert weights[..j][..i + 1] == weights[..i + 1];
      SumPrefixBound(weights[..j], i + 1);
    } else if j < i {
      assert weights[..i][..j + 1] == weights[..j + 1];
      SumPrefixBound(weights[..i], j + 1);
    }
  }

  /** Over the accepted words a weighted choice returns each index in exact proportion to its weight. */
  lemma WeightedDraw(weights: seq<int>, i: int)
    requires ValidWeights(weights) && 0 <= i < |weights| && 0 < Sum(weights) <= U64_MAX
    ensures |AcceptedWords(Sum(weights), DrawsOf(weights, i))| == U64_MAX / Sum(weights) * weights[i]
  {
    WeightedDraws(weights, i);
    AcceptedExactly(Sum(weights), DrawsOf(weights, i));
  }
}
