/**
 * Headers that commit to the state by a state root, and blocks whose bodies are executed
 * against a pre-state that the caller supplies. The state is a sum and a product of all
 * extrinsics. The three hashes of the source (of a header, a state and a body) are parameters.
 */
module RichState {
  import opened Prelude

  datatype State = State(sum: u64, product: u64)

  datatype Header = Header(parent: u64, height: u64, extrinsicsRoot: u64, stateRoot: u64, consensusDigest: u64)

  datatype Block = Block(header: Header, body: seq<u64>)

  /**
   * The hash function at each type it is applied to: headers, states, `Vec<u64>` bodies, and
   * the `Vec<i32>` that an untyped integer vector literal becomes.
   */
  datatype Hashers = Hashers(header: Header -> u64, state: State -> u64, body: seq<u64> -> u64,
                             i32List: seq<int> -> u64)

  // ---------------------------------------------------------------------------
  // Headers

  function GenesisHeader(genesisStateRoot: u64): Header {
    Header(0, 0, 0, genesisStateRoot, 0)
  }

  /** `Header::verify_child`: parent hash and saturating height successor. */
  predicate VerifyChild(hash: Header -> u64, parent: Header, child: Header): (r: bool)
    ensures r <==> child.parent == hash(parent) && child.height == Min(parent.height + 1, U64_MAX)
    ensures r && parent.height < U64_MAX ==> child.height == parent.height + 1
  {
    hash(parent) == child.parent && SaturatingAdd(parent.height, 1) == child.height
  }

  function ChildHeader(hash: Header -> u64, h: Header, extrinsicsRoot: u64, stateRoot: u64): (c: Header)
    requires h.height < U64_MAX
    ensures VerifyChild(hash, h, c)
    ensures c.extrinsicsRoot == extrinsicsRoot && c.stateRoot == stateRoot && c.consensusDigest == 0
  {
    Header(hash(h), h.height + 1, extrinsicsRoot, stateRoot, 0)
  }

  predicate ValidSubChain(hash: Header -> u64, anchor: Header, chain: seq<Header>) {
    forall i | 0 <= i < |chain| :: VerifyChild(hash, Before(anchor, chain, i), chain[i])
  }

  /** `Header::verify_sub_chain`: the conjunction of `verify_child` over consecutive pairs, no early exit. */
  method VerifySubChain(hash: Header -> u64, anchor: Header, chain: seq<Header>) returns (verified: bool)
    ensures verified <==> ValidSubChain(hash, anchor, chain)
  {
    var parentHeader := anchor;
    var isVerified := true;
    for i := 0 to |chain|
      invariant parentHeader == Before(anchor, chain, i)
      invariant isVerified <==> forall k | 0 <= k < i :: VerifyChild(hash, Before(anchor, chain, k), chain[k])
    {
      var childHeader := chain[i];
      isVerified := isVerified && VerifyChild(hash, parentHeader, childHeader);
      parentHeader := childHeader;
    }
    verified := isVerified;
  }

  // ---------------------------------------------------------------------------
  // Execution

  /** Executing `extrinsics` from `pre` never overflows: every running sum and product fits in a `u64`. */
  predicate Fits(pre: State, extrinsics: seq<u64>)
    decreases |extrinsics|
  {
    && pre.sum + Sum(extrinsics) <= U64_MAX
    && pre.product * Product(extrinsics) <= U64_MAX
    && (extrinsics != [] ==> Fits(pre, extrinsics[..|extrinsics| - 1]))
  }

  lemma {:induction false} FitsPrefix(pre: State, extrinsics: seq<u64>, k: nat)
    requires Fits(pre, extrinsics) && k <= |extrinsics|
    ensures Fits(pre, extrinsics[..k])
    decreases |extrinsics|
  {
    if k == |extrinsics| {
      assert extrinsics[..k] == extrinsics;
    } else {
      var init := extrinsics[..|extrinsics| - 1];
      assert init[..k] == extrinsics[..k];
      FitsPrefix(pre, init, k);
    }
  }

  /** The post-state: every extrinsic is added to the sum and multiplied into the product. */
  function Execute(pre: State, extrinsics: seq<u64>): State
    requires Fits(pre, extrinsics)
  {
    State(pre.sum + Sum(extrinsics), pre.product * Product(extrinsics))
  }

  /**
   * `Block::execute_extrinsics`: add and multiply each extrinsic into the state in turn.
   * The result is what the source leaves in `pre_state` and returns a clone of.
   */
  method ExecuteExtrinsics(preState: State, extrinsics: seq<u64>) returns (post: State)
    requires Fits(preState, extrinsics)
    ensures post.sum == preState.sum + Sum(extrinsics)
    ensures post.product == preState.product * Product(extrinsics)
    ensures post == Execute(preState, extrinsics)
  {
    post := preState;
    for i := 0 to |extrinsics|
      invariant post.sum == preState.sum + Sum(extrinsics[..i])
      invariant post.product == preState.product * Product(extrinsics[..i])
    {
      ExecuteStep(preState, extrinsics, i);
      post := State(post.sum + extrinsics[i], post.product * extrinsics[i]);
    }
    assert extrinsics[..|extrinsics|] == extrinsics;
  }

  /** One more extrinsic: the running sum and product of the prefix grow by it, and still fit. */
  lemma ExecuteStep(pre: State, extrinsics: seq<u64>, i: nat)
    requires i < |extrinsics| && Fits(pre, extrinsics)
    ensures pre.sum + Sum(extrinsics[..i + 1]) == pre.sum + Sum(extrinsics[..i]) + extrinsics[i] <= U64_MAX
    ensures pre.product * Product(extrinsics[..i + 1]) == pre.product * Product(extrinsics[..i]) * extrinsics[i] <= U64_MAX
  {
    var prefix, x := extrinsics[..i + 1], extrinsics[i];
    assert prefix[..|prefix| - 1] == extrinsics[..i] && prefix[|prefix| - 1] == x;
    FitsPrefix(pre, extrinsics, i + 1);
    var p := Product(extrinsics[..i]);
    assert Product(prefix) == p * x;
    MulAssociates(pre.product, p, x);
  }

  lemma MulAssociates(a: int, b: int, c: int)
    ensures a * (b * c) == a * b * c
  {
  }

  /** Executing nothing leaves the state as it was. */
  lemma ExecuteEmpty(pre: State)
    ensures Fits(pre, []) && Execute(pre, []) == pre
  {
  }

  /** Execution composes: running `xs + ys` is running `ys` from the state after `xs`. */
  lemma {:induction false} ExecuteAppend(pre: State, xs: seq<u64>, ys: seq<u64>)
    requires Fits(pre, xs + ys)
    ensures Fits(pre, xs) && Fits(Execute(pre, xs), ys)
    ensures Execute(pre, xs + ys) == Execute(Execute(pre, xs), ys)
    decreases |ys|
  {
    FitsPrefix(pre, xs + ys, |xs|);
    assert (xs + ys)[..|xs|] == xs;
    SumProductAppend(xs, ys);
    assert pre.product * (Product(xs) * Product(ys)) == pre.product * Product(xs) * Product(ys);
    if ys != [] {
      var n := |ys| - 1;
      FitsPrefix(pre, xs + ys, |xs| + n);
      assert (xs + ys)[..|xs| + n] == xs + ys[..n];
      ExecuteAppend(pre, xs, ys[..n]);
    }
  }

  lemma {:induction false} SumProductAppend(xs: seq<nat>, ys: seq<nat>)
    ensures Sum(xs + ys) == Sum(xs) + Sum(ys) && Product(xs + ys) == Product(xs) * Product(ys)
    decreases |ys|
  {
    if ys == [] {
      assert xs + ys == xs;
    } else {
      var n := |ys| - 1;
      assert (xs + ys)[..|xs + ys| - 1] == xs + ys[..n];
      SumProductAppend(xs, ys[..n]);
      assert Product(xs) * Product(ys[..n]) * ys[n] == Product(xs) * (Product(ys[..n]) * ys[n]);
    }
  }

  // ---------------------------------------------------------------------------
  // Blocks

  /**
   * `Block::genesis`: the header commits to the hash of the genesis state and the body is
   * empty, so the block passes the state check against its own genesis state.
   */
  function GenesisBlock(hs: Hashers, genesisState: State): (b: Block)
    ensures b.header.height == 0 && b.body == []
    ensures StateRootMatchesFromPre(hs, genesisState, b)
  {
    ExecuteEmpty(genesisState);
    Block(GenesisHeader(hs.state(genesisState)), [])
  }

  /**
   * `Block::child`: the header commits to the hash of the extrinsics and of the state after
   * executing them on a copy of `preState`.
   */
  function ChildBlock(hs: Hashers, parent: Block, preState: State, extrinsics: seq<u64>): (b: Block)
    requires parent.header.height < U64_MAX && Fits(preState, extrinsics)
    ensures VerifyChild(hs.header, parent.header, b.header)
    ensures b.header.extrinsicsRoot == hs.body(b.body) && b.body == extrinsics
    ensures b.header.stateRoot == hs.state(Execute(preState, extrinsics))
  {
    Block(ChildHeader(hs.header, parent.header, hs.body(extrinsics), hs.state(Execute(preState, extrinsics))), extrinsics)
  }

  /** The executions `Block::verify_sub_chain` performs are overflow-free: one per predecessor block, each from `pre`. */
  predicate PredecessorsFit(pre: State, anchor: Block, chain: seq<Block>) {
    forall i | 0 <= i < |chain| :: Fits(pre, Before(anchor, chain, i).body)
  }

  /** The state check on a predecessor block as the source makes it: its body executed from `pre`. */
  predicate StateRootMatchesFromPre(hs: Hashers, pre: State, b: Block) {
    Fits(pre, b.body) && hs.state(Execute(pre, b.body)) == b.header.stateRoot
  }

  /** The header link and the extrinsics root of one block of the chain. */
  predicate BlockLinks(hs: Hashers, prev: Block, curr: Block) {
    VerifyChild(hs.header, prev.header, curr.header) && hs.body(curr.body) == curr.header.extrinsicsRoot
  }

  /** The first `n` predecessors pass the state check. */
  predicate StatesMatchUpTo(hs: Hashers, pre: State, anchor: Block, chain: seq<Block>, n: nat)
    requires n <= |chain|
  {
    forall k | 0 <= k < n :: StateRootMatchesFromPre(hs, pre, Before(anchor, chain, k))
  }

  /** The first `n` blocks link to their predecessors and their bodies. */
  predicate LinksUpTo(hs: Hashers, anchor: Block, chain: seq<Block>, n: nat)
    requires n <= |chain|
  {
    forall k | 0 <= k < n :: BlockLinks(hs, Before(anchor, chain, k), chain[k])
  }

  /**
   * What `Block::verify_sub_chain` accepts, as written: every predecessor's body executed from
   * the same `pre` matches its state root, and every block links to its predecessor and to
   * its own body. The last block's state root is not looked at.
   */
  predicate AsWrittenValidBlockChain(hs: Hashers, pre: State, anchor: Block, chain: seq<Block>) {
    StatesMatchUpTo(hs, pre, anchor, chain, |chain|) && LinksUpTo(hs, anchor, chain, |chain|)
  }

  /** `Block::verify_sub_chain`: an early `false` on a bad state root, otherwise an accumulated flag. */
  method VerifyBlockSubChain(hs: Hashers, anchor: Block, pre: State, chain: seq<Block>) returns (verified: bool)
    requires PredecessorsFit(pre, anchor, chain)
    ensures verified <==> AsWrittenValidBlockChain(hs, pre, anchor, chain)
  {
    var prevBlock := anchor;
    var isVerified := true;
    var i := 0;
    while i < |chain|
      invariant 0 <= i <= |chain|
      invariant prevBlock == Before(anchor, chain, i)
      invariant StatesMatchUpTo(hs, pre, anchor, chain, i)
      invariant isVerified <==> LinksUpTo(hs, anchor, chain, i)
    {
      var currBlock := chain[i];
      var post := ExecuteExtrinsics(pre, prevBlock.body);
      if hs.state(post) != prevBlock.header.stateRoot {
        assert !StateRootMatchesFromPre(hs, pre, Before(anchor, chain, i));
        return false;
      }
      isVerified := isVerified && BlockLinks(hs, prevBlock, currBlock);
      assert Before(anchor, chain, i + 1) == currBlock;
      prevBlock := currBlock;
      i := i + 1;
    }
    verified := isVerified;
  }

  /**
   * `build_invalid_child_block_with_valid_header`: the header's extrinsics root is the hash of
   * the literal `vec![1, 2, 3, 4, 5]`, which Rust types as a `Vec<i32>` since nothing fixes its
   * element type; its state root is that of `[1, 2, 3, 4, 5]` executed as `u64` extrinsics. The
   * header passes `verify_child`; the body is `[1, 2, 3]`.
   */
  function BuildInvalidChildBlockWithValidHeader(hs: Hashers, parent: Header, preState: State): (b: Block)
    requires parent.height < U64_MAX && Fits(preState, [1, 2, 3, 4, 5])
    ensures VerifyChild(hs.header, parent, b.header) && b.body == [1, 2, 3]
    ensures b.header.extrinsicsRoot == hs.i32List([1, 2, 3, 4, 5])
    ensures b.header.stateRoot == hs.state(Execute(preState, [1, 2, 3, 4, 5]))
  {
    var state := Execute(preState, [1, 2, 3, 4, 5]);
    Block(ChildHeader(hs.header, parent, hs.i32List([1, 2, 3, 4, 5]), hs.state(state)), [1, 2, 3])
  }

  /**
   * Whenever the `u64` body `[1, 2, 3]` and the `i32` literal `[1, 2, 3, 4, 5]` hash apart, the
   * block with a valid header fails block verification.
   */
  lemma InvalidChildBlockRejected(hs: Hashers, genesisState: State)
    requires Fits(genesisState, [1, 2, 3, 4, 5])
    requires hs.body([1, 2, 3]) != hs.i32List([1, 2, 3, 4, 5])
    ensures var g := GenesisBlock(hs, genesisState);
      var b := BuildInvalidChildBlockWithValidHeader(hs, g.header, genesisState);
      && VerifyChild(hs.header, g.header, b.header)
      && PredecessorsFit(genesisState, g, [b])
      && !AsWrittenValidBlockChain(hs, genesisState, g, [b])
  {
    ExecuteEmpty(genesisState);
    var g := GenesisBlock(hs, genesisState);
    var b := BuildInvalidChildBlockWithValidHeader(hs, g.header, genesisState);
    assert !BlockLinks(hs, Before(g, [b], 0), [b][0]);
  }

  /** A genesis block verifies with its own genesis state and a child built from it. */
  lemma GenesisAndChildVerify(hs: Hashers, genesisState: State, extrinsics: seq<u64>)
    requires Fits(genesisState, extrinsics)
    ensures var g := GenesisBlock(hs, genesisState);
      var b := ChildBlock(hs, g, genesisState, extrinsics);
      PredecessorsFit(genesisState, g, [b]) && AsWrittenValidBlockChain(hs, genesisState, g, [b])
  {
    ExecuteEmpty(genesisState);
    var g := GenesisBlock(hs, genesisState);
    var b := ChildBlock(hs, g, genesisState, extrinsics);
    assert Before(g, [b], 0) == g;
  }

  // ---------------------------------------------------------------------------
  // Block verification, as intended: thread the state and check every root

  /** The last state root is accepted whatever it is. */
  lemma AsWrittenAcceptsTamperedLastStateRoot(hs: Hashers, genesisState: State, extrinsics: seq<u64>, root: u64)
    requires Fits(genesisState, extrinsics)
    ensures var g := GenesisBlock(hs, genesisState);
      var b := ChildBlock(hs, g, genesisState, extrinsics);
      var tampered := b.(header := b.header.(stateRoot := root));
      PredecessorsFit(genesisState, g, [tampered]) && AsWrittenValidBlockChain(hs, genesisState, g, [tampered])
  {
    ExecuteEmpty(genesisState);
    var g := GenesisBlock(hs, genesisState);
    var b := ChildBlock(hs, g, genesisState, extrinsics);
    var tampered := b.(header := b.header.(stateRoot := root));
    assert Before(g, [tampered], 0) == g;
  }

  /**
   * A chain is valid from `anchor` and the state before it: the anchor's body executed from
   * `pre` gives its state root, and the rest is valid from the post-state, each block linking
   * to its predecessor and to its own body.
   */
  predicate IntendedVerifySubChain(hs: Hashers, pre: State, anchor: Block, chain: seq<Block>)
    decreases |chain|
  {
    && Fits(pre, anchor.body)
    && hs.state(Execute(pre, anchor.body)) == anchor.header.stateRoot
    && (chain != [] ==>
         && BlockLinks(hs, anchor, chain[0])
         && IntendedVerifySubChain(hs, Execute(pre, anchor.body), chain[0], chain[1..]))
  }

  /** Each block of `chain` was made by `Block::child` from its predecessor and that predecessor's post-state. */
  predicate BuiltByChild(hs: Hashers, pre: State, anchor: Block, chain: seq<Block>)
    decreases |chain|
  {
    chain != [] ==>
      && Fits(pre, anchor.body)
      && anchor.header.height < U64_MAX
      && Fits(Execute(pre, anchor.body), chain[0].body)
      && chain[0] == ChildBlock(hs, anchor, Execute(pre, anchor.body), chain[0].body)
      && BuiltByChild(hs, Execute(pre, anchor.body), chain[0], chain[1..])
  }

  /** Every chain that `Block::child` builds on a valid anchor passes the intended verification. */
  lemma {:induction false} IntendedAcceptsChildChains(hs: Hashers, pre: State, anchor: Block, chain: seq<Block>)
    requires Fits(pre, anchor.body) && hs.state(Execute(pre, anchor.body)) == anchor.header.stateRoot
    requires BuiltByChild(hs, pre, anchor, chain)
    ensures IntendedVerifySubChain(hs, pre, anchor, chain)
    decreases |chain|
  {
    if chain != [] {
      IntendedAcceptsChildChains(hs, Execute(pre, anchor.body), chain[0], chain[1..]);
    }
  }

  /** The intended verification rejects a last block whose state root is not its post-state's hash. */
  lemma IntendedRejectsTamperedLastStateRoot(hs: Hashers, genesisState: State, extrinsics: seq<u64>, root: u64)
    requires Fits(genesisState, extrinsics)
    requires root != hs.state(Execute(genesisState, extrinsics))
    ensures var g := GenesisBlock(hs, genesisState);
      var b := ChildBlock(hs, g, genesisState, extrinsics);
      !IntendedVerifySubChain(hs, genesisState, g, [b.(header := b.header.(stateRoot := root))])
  {
    ExecuteEmpty(genesisState);
  }

  /**
   * The source re-executes every predecessor from the same `pre`, so the third block of an
   * honest chain built by `child` from genesis is checked against the wrong state: the chain
   * passes the intended verification and fails the source's, whenever the state reached by
   * the second body from `pre` and from the first block's post-state hash apart.
   */
  lemma AsWrittenRejectsHonestChain(hs: Hashers, pre: State, b1: Block, b2: Block, b3: Block)
    requires BuiltByChild(hs, pre, GenesisBlock(hs, pre), [b1, b2, b3])
    requires Fits(pre, b1.body) && Fits(pre, b2.body) && Fits(Execute(pre, b1.body), b2.body)
    requires hs.state(Execute(pre, b2.body)) != hs.state(Execute(Execute(pre, b1.body), b2.body))
    ensures IntendedVerifySubChain(hs, pre, GenesisBlock(hs, pre), [b1, b2, b3])
    ensures PredecessorsFit(pre, GenesisBlock(hs, pre), [b1, b2, b3])
    ensures !AsWrittenValidBlockChain(hs, pre, GenesisBlock(hs, pre), [b1, b2, b3])
  {
    ExecuteEmpty(pre);
    var g := GenesisBlock(hs, pre);
    var chain := [b1, b2, b3];
    IntendedAcceptsChildChains(hs, pre, g, chain);
    assert chain[1..] == [b2, b3] && chain[1..][1..] == [b3];
    assert b2 == ChildBlock(hs, b1, Execute(pre, b1.body), b2.body);
    assert Before(g, chain, 2) == b2;
    assert !StateRootMatchesFromPre(hs, pre, b2);
  }
}
