/**
 * Fork choice over chains of batched-extrinsic headers: three rules that compare two chains
 * (length, accumulated work, number of even hashes), each with a left-to-right reduction
 * that keeps the earliest best candidate, and the proof-of-work miner.
 */
module ForkChoice {
  import opened Prelude
  import opened BatchedExtrinsics

  const THRESHOLD: u64 := U64_MAX / 100

  // ---------------------------------------------------------------------------
  // The earliest candidate of maximal score

  /** `b` has the greatest score, and every candidate before it scores strictly less. */
  predicate IsEarliestMax(scores: seq<int>, b: int) {
    && 0 <= b < |scores|
    && (forall j | 0 <= j < |scores| :: scores[j] <= scores[b])
    && (forall j | 0 <= j < b :: scores[j] < scores[b])
  }

  /** The incumbent after a left-to-right pass that replaces it only on a strictly greater score. */
  function BestIndex(scores: seq<int>): (b: nat)
    requires |scores| > 0
    ensures IsEarliestMax(scores, b)
    decreases |scores|
  {
    if |scores| == 1 then 0
    else
      var b := BestIndex(scores[..|scores| - 1]);
      if scores[|scores| - 1] > scores[b] then |scores| - 1 else b
  }

  lemma EarliestMaxIsUnique(scores: seq<int>, a: int, b: int)
    requires IsEarliestMax(scores, a) && IsEarliestMax(scores, b)
    ensures a == b
  {
    assert scores[a] <= scores[b] && scores[b] <= scores[a];
  }

  /** `BestIndex` of a prefix one longer: the reduction step. */
  lemma BestIndexStep(scores: seq<int>, i: nat)
    requires 0 < i < |scores|
    ensures var b := BestIndex(scores[..i]);
      BestIndex(scores[..i + 1]) == if scores[i] > scores[b] then i else b
  {
    assert scores[..i + 1][..i] == scores[..i];
  }

  // ---------------------------------------------------------------------------
  // Longest chain rule

  /** `first_chain_is_better` of the longest chain rule: ties go to the first chain. */
  predicate LongestFirstChainIsBetter(chain1: seq<Header>, chain2: seq<Header>): (r: bool)
    ensures r <==> |chain1| >= |chain2|
    ensures |chain1| == |chain2| ==> r
  {
    !(|chain1| < |chain2|)
  }

  function Lengths(candidates: seq<seq<Header>>): (s: seq<int>)
    ensures |s| == |candidates| && forall i | 0 <= i < |s| :: s[i] == |candidates[i]|
  {
    seq(|candidates|, i requires 0 <= i < |candidates| => |candidates[i]|)
  }

  /** `LongestChainRule::best_chain`: the earliest candidate of maximal length; `unwrap` demands a candidate. */
  method LongestBestChain(candidates: seq<seq<Header>>) returns (best: seq<Header>)
    requires |candidates| > 0
    ensures best == candidates[BestIndex(Lengths(candidates))]
  {
    var scores := Lengths(candidates);
    best := candidates[0];
    ghost var b := 0;
    assert scores[..1] == [scores[0]];
    var i := 1;
    while i < |candidates|
      invariant 1 <= i <= |candidates|
      invariant b == BestIndex(scores[..i]) && best == candidates[b]
    {
      BestIndexStep(scores, i);
      var nextChain := candidates[i];
      if |nextChain| > |best| {
        best := nextChain;
        b := i;
      }
      i := i + 1;
    }
    assert scores[..i] == scores;
  }

  /** On two candidates the reduction picks the first exactly when the comparison prefers it. */
  lemma LongestPair(a: seq<Header>, b: seq<Header>)
    ensures [a, b][BestIndex(Lengths([a, b]))] == if LongestFirstChainIsBetter(a, b) then a else b
  {
    var s := Lengths([a, b]);
    assert s == [|a|, |b|];
    assert s[..1] == [|a|];
  }

  /** The chosen candidate is at least as good as every candidate, and better than every earlier one. */
  lemma LongestBestIsBetterThanAll(candidates: seq<seq<Header>>)
    requires |candidates| > 0
    ensures var best := candidates[BestIndex(Lengths(candidates))];
      forall j | 0 <= j < |candidates| :: LongestFirstChainIsBetter(best, candidates[j])
    ensures var b := BestIndex(Lengths(candidates));
      forall j | 0 <= j < b :: !LongestFirstChainIsBetter(candidates[j], candidates[b])
  {
  }

  // ---------------------------------------------------------------------------
  // Heaviest chain rule, as written

  /** One header's work as the source computes it: `THRESHOLD as i64 - hash as i64`. */
  function WorkTerm(hashValue: u64): int {
    THRESHOLD - AsI64(hashValue)
  }

  /** The subtraction panics on i64 overflow, which happens for hashes just above `2^63`. */
  predicate TermFits(hashValue: u64) {
    WorkTerm(hashValue) <= I64_MAX
  }

  predicate WorkFits(hash: Header -> u64, chain: seq<Header>) {
    forall i | 0 <= i < |chain| :: TermFits(hash(chain[i]))
  }

  /** `get_work`: a left fold, from 0, of saturating i64 additions of the work terms. */
  function Work(hash: Header -> u64, chain: seq<Header>): i64
    requires WorkFits(hash, chain)
  {
    if chain == [] then 0
    else SaturatingAddI64(Work(hash, chain[..|chain| - 1]), WorkTerm(hash(chain[|chain| - 1])))
  }

  method GetWork(hash: Header -> u64, chain: seq<Header>) returns (work: i64)
    requires WorkFits(hash, chain)
    ensures work == Work(hash, chain)
  {
    work := 0;
    for i := 0 to |chain|
      invariant work == Work(hash, chain[..i])
    {
      assert chain[..i + 1][..i] == chain[..i];
      work := SaturatingAddI64(work, THRESHOLD - AsI64(hash(chain[i])));
    }
    assert chain[..|chain|] == chain;
  }

  /** `first_chain_is_better` of the heaviest chain rule: ties go to the first chain. */
  predicate HeaviestFirstChainIsBetter(hash: Header -> u64, chain1: seq<Header>, chain2: seq<Header>): (r: bool)
    requires WorkFits(hash, chain1) && WorkFits(hash, chain2)
    ensures r <==> Work(hash, chain1) >= Work(hash, chain2)
    ensures Work(hash, chain1) == Work(hash, chain2) ==> r
  {
    !(Work(hash, chain1) < Work(hash, chain2))
  }

  predicate AllWorkFits(hash: Header -> u64, candidates: seq<seq<Header>>) {
    forall i | 0 <= i < |candidates| :: WorkFits(hash, candidates[i])
  }

  function Works(hash: Header -> u64, candidates: seq<seq<Header>>): (s: seq<int>)
    requires AllWorkFits(hash, candidates)
    ensures |s| == |candidates| && forall i | 0 <= i < |s| :: s[i] == Work(hash, candidates[i])
  {
    seq(|candidates|, i requires 0 <= i < |candidates| && WorkFits(hash, candidates[i]) => Work(hash, candidates[i]))
  }

  /** `HeaviestChainRule::best_chain`: the earliest candidate of maximal work. */
  method HeaviestBestChain(hash: Header -> u64, candidates: seq<seq<Header>>) returns (best: seq<Header>)
    requires |candidates| > 0 && AllWorkFits(hash, candidates)
    ensures best == candidates[BestIndex(Works(hash, candidates))]
  {
    var scores := Works(hash, candidates);
    best := candidates[0];
    ghost var b := 0;
    assert scores[..1] == [scores[0]];
    var i := 1;
    while i < |candidates|
      invariant 1 <= i <= |candidates|
      invariant b == BestIndex(scores[..i]) && best == candidates[b]
    {
      BestIndexStep(scores, i);
      var nextChain := candidates[i];
      var nextWork := GetWork(hash, nextChain);
      var bestWork := GetWork(hash, best);
      if nextWork > bestWork {
        best := nextChain;
        b := i;
      }
      i := i + 1;
    }
    assert scores[..i] == scores;
  }

  lemma HeaviestPair(hash: Header -> u64, a: seq<Header>, b: seq<Header>)
    requires WorkFits(hash, a) && WorkFits(hash, b)
    ensures AllWorkFits(hash, [a, b])
    ensures [a, b][BestIndex(Works(hash, [a, b]))] == if HeaviestFirstChainIsBetter(hash, a, b) then a else b
  {
    var s := Works(hash, [a, b]);
    assert s == [Work(hash, a), Work(hash, b)];
    assert s[..1] == [Work(hash, a)];
  }

  lemma HeaviestBestIsBetterThanAll(hash: Header -> u64, candidates: seq<seq<Header>>)
    requires |candidates| > 0 && AllWorkFits(hash, candidates)
    ensures var best := candidates[BestIndex(Works(hash, candidates))];
      forall j | 0 <= j < |candidates| :: HeaviestFirstChainIsBetter(hash, best, candidates[j])
    ensures var b := BestIndex(Works(hash, candidates));
      forall j | 0 <= j < b :: !HeaviestFirstChainIsBetter(hash, candidates[j], candidates[b])
  {
  }

  // ---------------------------------------------------------------------------
  // The work term, as intended: a lower hash is more work

  /**
   * The cast reads hashes of `2^63` and above as negative numbers, so the highest hash
   * scores more work than the lowest.
   */
  lemma AsWrittenHighHashOutweighsLowHash(hash: Header -> u64, low: Header, high: Header)
    requires hash(low) == 0 && hash(high) == U64_MAX
    ensures WorkFits(hash, [low]) && WorkFits(hash, [high])
    ensures Work(hash, [high]) > Work(hash, [low])
    ensures !HeaviestFirstChainIsBetter(hash, [low], [high])
  {
    assert [low][..0] == [] && [high][..0] == [];
  }

  /** `THRESHOLD - hash` computed without the cast, clamped to the i64 range. */
  function IntendedWorkTerm(hashValue: u64): (t: i64)
    ensures hashValue <= THRESHOLD ==> 0 <= t
  {
    if THRESHOLD - hashValue < I64_MIN then I64_MIN else THRESHOLD - hashValue
  }

  function IntendedWork(hash: Header -> u64, chain: seq<Header>): i64 {
    if chain == [] then 0
    else SaturatingAddI64(IntendedWork(hash, chain[..|chain| - 1]), IntendedWorkTerm(hash(chain[|chain| - 1])))
  }

  predicate IntendedHeaviestFirstChainIsBetter(hash: Header -> u64, chain1: seq<Header>, chain2: seq<Header>) {
    !(IntendedWork(hash, chain1) < IntendedWork(hash, chain2))
  }

  /** A lower hash never scores less work. */
  lemma IntendedWorkTermIsAntitone(h1: u64, h2: u64)
    requires h1 <= h2
    ensures IntendedWorkTerm(h1) >= IntendedWorkTerm(h2)
  {
  }

  /** A chain whose headers hash no higher, position by position, carries at least as much work. */
  lemma {:induction false} IntendedLowerHashesWeighMore(hash: Header -> u64, chain1: seq<Header>, chain2: seq<Header>)
    requires |chain1| == |chain2|
    requires forall i | 0 <= i < |chain1| :: hash(chain1[i]) <= hash(chain2[i])
    ensures IntendedWork(hash, chain1) >= IntendedWork(hash, chain2)
    ensures IntendedHeaviestFirstChainIsBetter(hash, chain1, chain2)
    decreases |chain1|
  {
    if chain1 != [] {
      var n := |chain1| - 1;
      IntendedLowerHashesWeighMore(hash, chain1[..n], chain2[..n]);
      IntendedWorkTermIsAntitone(hash(chain1[n]), hash(chain2[n]));
    }
  }

  /** With the intended term, the lowest hash is preferred over the highest. */
  lemma IntendedLowHashOutweighsHighHash(hash: Header -> u64, low: Header, high: Header)
    requires hash(low) == 0 && hash(high) == U64_MAX
    ensures IntendedWork(hash, [low]) > IntendedWork(hash, [high])
    ensures IntendedHeaviestFirstChainIsBetter(hash, [low], [high])
  {
    assert [low][..0] == [] && [high][..0] == [];
  }

  // ---------------------------------------------------------------------------
  // Most blocks with an even hash

  /** The number of headers whose hash is even. */
  function CountEven(hash: Header -> u64, chain: seq<Header>): (n: nat)
    ensures n <= |chain|
  {
    if chain == [] then 0
    else CountEven(hash, chain[..|chain| - 1]) + (if hash(chain[|chain| - 1]) % 2 == 0 then 1 else 0)
  }

  method CountEvenHashes(hash: Header -> u64, chain: seq<Header>) returns (count: nat)
    ensures count == CountEven(hash, chain)
  {
    count := 0;
    for i := 0 to |chain|
      invariant count == CountEven(hash, chain[..i])
    {
      assert chain[..i + 1][..i] == chain[..i];
      if hash(chain[i]) % 2 == 0 {
        count := count + 1;
      }
    }
    assert chain[..|chain|] == chain;
  }

  /** Counting splits over concatenation. */
  lemma {:induction false} CountEvenAppend(hash: Header -> u64, xs: seq<Header>, ys: seq<Header>)
    ensures CountEven(hash, xs + ys) == CountEven(hash, xs) + CountEven(hash, ys)
    decreases |ys|
  {
    if ys == [] {
      assert xs + ys == xs;
    } else {
      var n := |ys| - 1;
      assert (xs + ys)[..|xs + ys| - 1] == xs + ys[..n];
      CountEvenAppend(hash, xs, ys[..n]);
    }
  }

  /** All headers even gives the full length; none even gives 0. */
  lemma {:induction false} CountEvenExtremes(hash: Header -> u64, chain: seq<Header>)
    ensures CountEven(hash, chain) == |chain| <==> forall i | 0 <= i < |chain| :: hash(chain[i]) % 2 == 0
    ensures CountEven(hash, chain) == 0 <==> forall i | 0 <= i < |chain| :: hash(chain[i]) % 2 != 0
    decreases |chain|
  {
    if chain != [] {
      var init := chain[..|chain| - 1];
      CountEvenExtremes(hash, init);
      assert forall i | 0 <= i < |init| :: init[i] == chain[i];
    }
  }

  /** `first_chain_is_better` of the even-hash rule: ties go to the first chain. */
  predicate EvenFirstChainIsBetter(hash: Header -> u64, chain1: seq<Header>, chain2: seq<Header>): (r: bool)
    ensures r <==> CountEven(hash, chain1) >= CountEven(hash, chain2)
    ensures CountEven(hash, chain1) == CountEven(hash, chain2) ==> r
  {
    !(CountEven(hash, chain1) < CountEven(hash, chain2))
  }

  function EvenCounts(hash: Header -> u64, candidates: seq<seq<Header>>): (s: seq<int>)
    ensures |s| == |candidates| && forall i | 0 <= i < |s| :: s[i] == CountEven(hash, candidates[i])
  {
    seq(|candidates|, i requires 0 <= i < |candidates| => CountEven(hash, candidates[i]))
  }

  /** `MostBlocksWithEvenHash::best_chain`: the earliest candidate with the most even hashes. */
  method EvenBestChain(hash: Header -> u64, candidates: seq<seq<Header>>) returns (best: seq<Header>)
    requires |candidates| > 0
    ensures best == candidates[BestIndex(EvenCounts(hash, candidates))]
  {
    var scores := EvenCounts(hash, candidates);
    best := candidates[0];
    ghost var b := 0;
    assert scores[..1] == [scores[0]];
    var i := 1;
    while i < |candidates|
      invariant 1 <= i <= |candidates|
      invariant b == BestIndex(scores[..i]) && best == candidates[b]
    {
      BestIndexStep(scores, i);
      var nextChain := candidates[i];
      var bestCount := CountEvenHashes(hash, best);
      var nextCount := CountEvenHashes(hash, nextChain);
      if bestCount < nextCount {
        best := nextChain;
        b := i;
      }
      i := i + 1;
    }
    assert scores[..i] == scores;
  }

  lemma EvenPair(hash: Header -> u64, a: seq<Header>, b: seq<Header>)
    ensures [a, b][BestIndex(EvenCounts(hash, [a, b]))] == if EvenFirstChainIsBetter(hash, a, b) then a else b
  {
    var s := EvenCounts(hash, [a, b]);
    assert s == [CountEven(hash, a), CountEven(hash, b)];
    assert s[..1] == [CountEven(hash, a)];
  }

  lemma EvenBestIsBetterThanAll(hash: Header -> u64, candidates: seq<seq<Header>>)
    requires |candidates| > 0
    ensures var best := candidates[BestIndex(EvenCounts(hash, candidates))];
      forall j | 0 <= j < |candidates| :: EvenFirstChainIsBetter(hash, best, candidates[j])
    ensures var b := BestIndex(EvenCounts(hash, candidates));
      forall j | 0 <= j < b :: !EvenFirstChainIsBetter(hash, candidates[j], candidates[b])
  {
  }

  // ---------------------------------------------------------------------------
  // Mining

  predicate MinesBelow(hash: Header -> u64, header: Header, threshold: u64, nonce: u64) {
    hash(header.(consensusDigest := nonce)) < threshold
  }

  /**
   * `mine_consensus_digest`: try the nonces in order on a copy of the header and set the
   * caller's digest to the first that brings the hash below `threshold`.
   */
  method MineConsensusDigest(hash: Header -> u64, header: Header, threshold: u64, nonces: seq<u32>)
    returns (found: bool, mined: Header)
    ensures found <==> exists k | 0 <= k < |nonces| :: MinesBelow(hash, header, threshold, nonces[k])
    ensures found ==> exists k | 0 <= k < |nonces| ::
      && mined == header.(consensusDigest := nonces[k])
      && forall j | 0 <= j < k :: !MinesBelow(hash, header, threshold, nonces[j])
    ensures found ==> hash(mined) < threshold && mined.consensusDigest < U32_LIMIT
    ensures !found ==> mined == header
  {
    var validHeader := header;
    mined := header;
    var i := 0;
    while i < |nonces|
      invariant 0 <= i <= |nonces|
      invariant forall j | 0 <= j < i :: !MinesBelow(hash, header, threshold, nonces[j])
      invariant validHeader.(consensusDigest := header.consensusDigest) == header
    {
      var nonce := nonces[i];
      validHeader := validHeader.(consensusDigest := nonce);
      assert validHeader == header.(consensusDigest := nonce);
      if hash(validHeader) < threshold {
        mined := header.(consensusDigest := nonce);
        return true, mined;
      }
      i := i + 1;
    }
    return false, header;
  }

  /** `mine_extra_hard`: mine the block's header; the body is untouched. */
  method MineExtraHard(hash: Header -> u64, block: Block, threshold: u64, nonces: seq<u32>)
    returns (found: bool, mined: Block)
    ensures mined.body == block.body
    ensures found <==> exists k | 0 <= k < |nonces| :: MinesBelow(hash, block.header, threshold, nonces[k])
    ensures found ==> hash(mined.header) < threshold && mined.header.consensusDigest < U32_LIMIT
    ensures found ==> mined.header == block.header.(consensusDigest := mined.header.consensusDigest)
    ensures !found ==> mined == block
  {
    var header;
    found, header := MineConsensusDigest(hash, block.header, threshold, nonces);
    mined := block.(header := header);
  }
}
