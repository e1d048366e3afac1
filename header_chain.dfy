/**
 * The simplest chain: headers linked by the parent's hash and consecutive heights.
 * The header hash is a parameter; nothing is assumed about it.
 */
module HeaderChain {
  import opened Prelude

  datatype Header = Header(parent: u64, height: u64)

  function Genesis(): Header {
    Header(0, 0)
  }

  /** A new child of `h`; the source's `height + 1` panics at `u64::MAX`. */
  function Child(hash: Header -> u64, h: Header): (c: Header)
    requires h.height < U64_MAX
    ensures Links(hash, h, c)
    ensures c.height == h.height + 1
  {
    Header(hash(h), h.height + 1)
  }

  /** One step of the verifier: the height is the predecessor's saturating successor and the parent is its hash. */
  predicate Links(hash: Header -> u64, prev: Header, next: Header) {
    next.height == SaturatingAdd(prev.height, 1) && next.parent == hash(prev)
  }

  /** Every header of `chain` links to the one before it, `anchor` being the first predecessor. */
  predicate ValidSubChain(hash: Header -> u64, anchor: Header, chain: seq<Header>) {
    forall i | 0 <= i < |chain| :: Links(hash, Before(anchor, chain, i), chain[i])
  }

  /** `Header::verify_sub_chain`: walk the chain keeping the running hash and height. */
  method VerifySubChain(hash: Header -> u64, anchor: Header, chain: seq<Header>) returns (verified: bool)
    ensures verified <==> ValidSubChain(hash, anchor, chain)
  {
    var currHash := hash(anchor);
    var currHeight := anchor.height;
    var isVerified := true;
    var i := 0;
    while i < |chain|
      invariant 0 <= i <= |chain|
      invariant currHash == hash(Before(anchor, chain, i)) && currHeight == Before(anchor, chain, i).height
      invariant forall k | 0 <= k < i :: chain[k].height == SaturatingAdd(Before(anchor, chain, k).height, 1)
      invariant isVerified <==> forall k | 0 <= k < i :: chain[k].parent == hash(Before(anchor, chain, k))
    {
      var header := chain[i];
      if SaturatingAdd(currHeight, 1) != header.height {
        assert !Links(hash, Before(anchor, chain, i), chain[i]);
        return false;
      }
      assert Before(anchor, chain, i + 1) == header;
      isVerified := isVerified && currHash == header.parent;
      currHash := hash(header);
      currHeight := header.height;
      i := i + 1;
    }
    verified := isVerified;
  }

  /** The header `i` generations below `h`. */
  function Descendant(hash: Header -> u64, h: Header, i: nat): (d: Header)
    requires h.height + i <= U64_MAX
    ensures d.height == h.height + i
  {
    if i == 0 then h else Child(hash, Descendant(hash, h, i - 1))
  }

  /** `h` followed by its descendants, `n` headers in all, built by repeated `child()`. */
  function ChildChain(hash: Header -> u64, h: Header, n: nat): (c: seq<Header>)
    requires h.height + n <= U64_MAX
    ensures |c| == n
    ensures forall i | 0 <= i < n :: c[i] == Descendant(hash, h, i)
  {
    if n == 0 then [] else ChildChain(hash, h, n - 1) + [Descendant(hash, h, n - 1)]
  }

  /** A chain built by repeated `child()` verifies from its first header. */
  lemma ChildChainVerifies(hash: Header -> u64, h: Header, n: nat)
    requires 0 < n && h.height + n <= U64_MAX
    ensures var c := ChildChain(hash, h, n); c[0] == h && ValidSubChain(hash, c[0], c[1..])
  {
    var c := ChildChain(hash, h, n);
    forall i | 0 <= i < |c[1..]|
      ensures Links(hash, Before(c[0], c[1..], i), c[1..][i])
    {
      assert c[1..][i] == Descendant(hash, h, i + 1) == Child(hash, Descendant(hash, h, i));
    }
  }

  /** `build_valid_chain_length_5`: genesis and its next four descendants, which verify. */
  method BuildValidChainLength5(hash: Header -> u64) returns (chain: seq<Header>)
    ensures chain == ChildChain(hash, Genesis(), 5)
    ensures |chain| == 5 && chain[0] == Genesis()
    ensures ValidSubChain(hash, chain[0], chain[1..])
  {
    var prevBlock := Genesis();
    chain := [];
    for i := 0 to 5
      invariant chain == ChildChain(hash, Genesis(), i)
      invariant prevBlock == Descendant(hash, Genesis(), i)
    {
      var nextBlock := Child(hash, prevBlock);
      chain := chain + [prevBlock];
      prevBlock := nextBlock;
    }
    ChildChainVerifies(hash, Genesis(), 5);
  }

  /** `build_an_invalid_chain`: genesis, its child, and genesis's child again, which does not verify. */
  function BuildAnInvalidChain(hash: Header -> u64): (chain: seq<Header>)
    ensures |chain| == 3 && chain[0] == Genesis()
    ensures !ValidSubChain(hash, chain[0], chain[1..])
  {
    var g := Genesis();
    var b1 := Child(hash, g);
    var b2Prime := Child(hash, g);
    assert !Links(hash, Before(g, [b1, b2Prime], 1), [b1, b2Prime][1]);
    [g, b1, b2Prime]
  }

  /** The empty chain verifies from any header. */
  lemma EmptyChainVerifies(hash: Header -> u64, anchor: Header)
    ensures ValidSubChain(hash, anchor, [])
  {
  }

  /** A header whose parent or height does not follow its predecessor makes the whole chain fail. */
  lemma TamperedHeaderRejected(hash: Header -> u64, anchor: Header, chain: seq<Header>, i: nat)
    requires i < |chain|
    requires chain[i].parent != hash(Before(anchor, chain, i)) || chain[i].height != SaturatingAdd(Before(anchor, chain, i).height, 1)
    ensures !ValidSubChain(hash, anchor, chain)
  {
  }

  /** Verification splits at any point: the second part is verified from the last header of the first. */
  lemma ValidSubChainSplit(hash: Header -> u64, anchor: Header, xs: seq<Header>, ys: seq<Header>)
    ensures ValidSubChain(hash, anchor, xs + ys) <==>
      ValidSubChain(hash, anchor, xs) && ValidSubChain(hash, Before(anchor, xs, |xs|), ys)
  {
    var c := xs + ys;
    if ValidSubChain(hash, anchor, xs) && ValidSubChain(hash, Before(anchor, xs, |xs|), ys) {
      forall i | 0 <= i < |c|
        ensures Links(hash, Before(anchor, c, i), c[i])
      {
        if i >= |xs| {
          assert c[i] == ys[i - |xs|];
          assert Before(anchor, c, i) == Before(Before(anchor, xs, |xs|), ys, i - |xs|);
        } else {
          assert Before(anchor, c, i) == Before(anchor, xs, i);
        }
      }
    }
    if ValidSubChain(hash, anchor, c) {
      forall i | 0 <= i < |xs|
        ensures Links(hash, Before(anchor, xs, i), xs[i])
      {
        assert c[i] == xs[i] && Before(anchor, c, i) == Before(anchor, xs, i);
      }
      forall i | 0 <= i < |ys|
        ensures Links(hash, Before(Before(anchor, xs, |xs|), ys, i), ys[i])
      {
        assert c[|xs| + i] == ys[i];
        assert Before(anchor, c, |xs| + i) == Before(Before(anchor, xs, |xs|), ys, i);
      }
    }
  }

  /**
   * Along a verified chain the heights count up from the anchor's, and stop at `u64::MAX`
   * because the verifier compares with a saturating successor.
   */
  lemma {:induction false} VerifiedHeights(hash: Header -> u64, anchor: Header, chain: seq<Header>)
    requires ValidSubChain(hash, anchor, chain)
    ensures forall i | 0 <= i < |chain| :: chain[i].height == Min(anchor.height + i + 1, U64_MAX)
    decreases |chain|
  {
    if chain != [] {
      var init := chain[..|chain| - 1];
      var last := chain[|chain| - 1];
      assert chain == init + [last];
      ValidSubChainSplit(hash, anchor, init, [last]);
      VerifiedHeights(hash, anchor, init);
      assert Links(hash, Before(anchor, chain, |chain| - 1), last);
      forall i | 0 <= i < |chain|
        ensures chain[i].height == Min(anchor.height + i + 1, U64_MAX)
      {
        if i < |init| {
          assert chain[i] == init[i];
        }
      }
    }
  }
}
