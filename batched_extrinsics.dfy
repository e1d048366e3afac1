/**
 * Headers that commit to a batch of extrinsics by a root and carry the state directly.
 * A child verifies against its parent when the heights link, the parent hash matches and
 * the state is the parent's.
 */
module BatchedExtrinsics {
  import opened Prelude

  datatype Header = Header(parent: u64, height: u64, extrinsicsRoot: u64, state: u64, consensusDigest: u64)

  /** A header and its batch of extrinsics. */
  datatype Block = Block(header: Header, body: seq<u64>)

  function Genesis(): Header {
    Header(0, 0, 0, 0, 0)
  }

  /** A child committing to `extrinsicsRoot` and claiming `state`; the digest starts at 0. */
  function Child(hash: Header -> u64, h: Header, extrinsicsRoot: u64, state: u64): (c: Header)
    requires h.height < U64_MAX
    ensures c.parent == hash(h) && c.height == h.height + 1
    ensures c.extrinsicsRoot == extrinsicsRoot && c.state == state && c.consensusDigest == 0
  {
    Header(hash(h), h.height + 1, extrinsicsRoot, state, 0)
  }

  /** `Header::verify_child`: an early `false` on a height mismatch, then the hash and state checks. */
  predicate VerifyChild(hash: Header -> u64, parent: Header, child: Header): (r: bool)
    ensures r <==> && child.height == Min(parent.height + 1, U64_MAX)
                   && child.parent == hash(parent)
                   && child.state == parent.state
  {
    if SaturatingAdd(parent.height, 1) != child.height then false
    else hash(parent) == child.parent && parent.state == child.state
  }

  /** Every header of `chain` passes `VerifyChild` against its predecessor, `anchor` first. */
  predicate ValidSubChain(hash: Header -> u64, anchor: Header, chain: seq<Header>) {
    forall i | 0 <= i < |chain| :: VerifyChild(hash, Before(anchor, chain, i), chain[i])
  }

  /** `Header::verify_sub_chain`: the running predecessor, its height, and an accumulated flag. */
  method VerifySubChain(hash: Header -> u64, anchor: Header, chain: seq<Header>) returns (verified: bool)
    ensures verified <==> ValidSubChain(hash, anchor, chain)
  {
    var prevHeader := anchor;
    var prevHeaderHeight := anchor.height;
    var isVerified := true;
    var i := 0;
    while i < |chain|
      invariant 0 <= i <= |chain|
      invariant prevHeader == Before(anchor, chain, i) && prevHeaderHeight == prevHeader.height
      invariant forall k | 0 <= k < i :: chain[k].height == SaturatingAdd(Before(anchor, chain, k).height, 1)
      invariant isVerified <==> forall k | 0 <= k < i :: VerifyChild(hash, Before(anchor, chain, k), chain[k])
    {
      var header := chain[i];
      if SaturatingAdd(prevHeaderHeight, 1) != header.height {
        assert !VerifyChild(hash, Before(anchor, chain, i), chain[i]);
        return false;
      }
      assert VerifyChild(hash, Before(anchor, chain, i), header) <==>
        hash(prevHeader) == header.parent && prevHeader.state == header.state;
      isVerified := isVerified && hash(prevHeader) == header.parent && prevHeader.state == header.state;
      assert Before(anchor, chain, i + 1) == header;
      prevHeader := header;
      prevHeaderHeight := header.height;
      i := i + 1;
    }
    verified := isVerified;
  }

  /** A header made by `child` verifies against its parent exactly when it claims the parent's state. */
  lemma ChildVerifiesIffSameState(hash: Header -> u64, h: Header, extrinsicsRoot: u64, state: u64)
    requires h.height < U64_MAX
    ensures VerifyChild(hash, h, Child(hash, h, extrinsicsRoot, state)) <==> state == h.state
  {
  }

  /** The empty chain verifies from any header. */
  lemma EmptyChainVerifies(hash: Header -> u64, anchor: Header)
    ensures ValidSubChain(hash, anchor, [])
  {
  }

  /** All headers of a verified chain carry the anchor's state. */
  lemma {:induction false} VerifiedChainKeepsState(hash: Header -> u64, anchor: Header, chain: seq<Header>)
    requires ValidSubChain(hash, anchor, chain)
    ensures forall i | 0 <= i < |chain| :: chain[i].state == anchor.state
    decreases |chain|
  {
    if chain != [] {
      var init := chain[..|chain| - 1];
      assert ValidSubChain(hash, anchor, init) by {
        forall i | 0 <= i < |init|
          ensures VerifyChild(hash, Before(anchor, init, i), init[i])
        {
          assert Before(anchor, init, i) == Before(anchor, chain, i);
        }
      }
      VerifiedChainKeepsState(hash, anchor, init);
      assert VerifyChild(hash, Before(anchor, chain, |init|), chain[|init|]);
    }
  }
}
