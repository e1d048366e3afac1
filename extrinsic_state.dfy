/**
 * A header chain that carries an adder: each header holds one extrinsic and the running
 * state, which is the parent's state plus that extrinsic.
 */
module ExtrinsicState {
  import opened Prelude

  datatype Header = Header(parent: u64, height: u64, extrinsic: u64, state: u64)

  function Genesis(): Header {
    Header(0, 0, 0, 0)
  }

  /** The relation a header keeps with its parent: hash link, next height, and the adder rule. */
  predicate AdderLinks(hash: Header -> u64, prev: Header, next: Header) {
    && next.parent == hash(prev)
    && next.height == prev.height + 1
    && next.state == prev.state + next.extrinsic
  }

  /** A new child recording `extrinsic`; the source's `+` on height and state panics on overflow. */
  function Child(hash: Header -> u64, h: Header, extrinsic: u64): (c: Header)
    requires h.height < U64_MAX && h.state + extrinsic <= U64_MAX
    ensures AdderLinks(hash, h, c) && c.extrinsic == extrinsic
  {
    Header(hash(h), h.height + 1, extrinsic, h.state + extrinsic)
  }

  /** `Child` is the only header that links to `h` with a given extrinsic. */
  lemma ChildIsTheOnlyLink(hash: Header -> u64, h: Header, next: Header)
    requires h.height < U64_MAX && h.state + next.extrinsic <= U64_MAX
    ensures AdderLinks(hash, h, next) <==> next == Child(hash, h, next.extrinsic)
  {
  }

  /** The overflow-free condition for extending `h` by the extrinsics `xs` one child at a time. */
  predicate Fits(h: Header, xs: seq<u64>) {
    h.height + |xs| <= U64_MAX && h.state + Sum(xs) <= U64_MAX
  }

  lemma {:induction false} SumPrefixBound(xs: seq<u64>, k: nat)
    requires k <= |xs|
    ensures Sum(xs[..k]) <= Sum(xs)
    decreases |xs|
  {
    if k < |xs| {
      var init := xs[..|xs| - 1];
      assert xs[..k] == init[..k];
      SumPrefixBound(init, k);
    } else {
      assert xs[..k] == xs;
    }
  }

  /** The headers that repeated `child()` calls produce below `h`, one per extrinsic; the last holds the total. */
  function Extend(hash: Header -> u64, h: Header, xs: seq<u64>): (c: seq<Header>)
    requires Fits(h, xs)
    ensures |c| == |xs|
    ensures Before(h, c, |c|).state == h.state + Sum(xs) && Before(h, c, |c|).height == h.height + |xs|
    decreases |xs|
  {
    if xs == [] then []
    else
      var n := |xs| - 1;
      SumPrefixBound(xs, n);
      var prefix := Extend(hash, h, xs[..n]);
      prefix + [Child(hash, Before(h, prefix, n), xs[n])]
  }

  /**
   * Header `i` below `h` records extrinsic `i`, links to its predecessor by the adder rule,
   * and holds `h.state` plus the sum of the first `i + 1` extrinsics.
   */
  lemma {:induction false} ExtendFollowsAdderRule(hash: Header -> u64, h: Header, xs: seq<u64>)
    requires Fits(h, xs)
    ensures var c := Extend(hash, h, xs);
      forall i | 0 <= i < |c| ::
        && c[i].extrinsic == xs[i]
        && c[i].height == h.height + i + 1
        && c[i].state == h.state + Sum(xs[..i + 1])
        && AdderLinks(hash, Before(h, c, i), c[i])
    decreases |xs|
  {
    if xs != [] {
      var n := |xs| - 1;
      var init := xs[..n];
      SumPrefixBound(xs, n);
      var prefix := Extend(hash, h, init);
      var c := Extend(hash, h, xs);
      assert c == prefix + [Child(hash, Before(h, prefix, n), xs[n])];
      ExtendFollowsAdderRule(hash, h, init);
      forall i | 0 <= i < |c|
        ensures c[i].extrinsic == xs[i] && c[i].height == h.height + i + 1 && c[i].state == h.state + Sum(xs[..i + 1])
        ensures AdderLinks(hash, Before(h, c, i), c[i])
      {
        if i < n {
          assert c[i] == prefix[i] && Before(h, c, i) == Before(h, prefix, i);
          assert xs[..i + 1] == init[..i + 1];
        } else {
          assert xs[..i + 1] == xs;
          assert Before(h, c, i) == Before(h, prefix, n);
        }
      }
    }
  }

  /**
   * The adder rule: along a chain of `child()` calls from genesis, each header's state is the
   * sum of all the extrinsics recorded so far, and its height is its position.
   */
  lemma AdderRule(hash: Header -> u64, xs: seq<u64>)
    requires Fits(Genesis(), xs)
    ensures var c := Extend(hash, Genesis(), xs);
      forall i | 0 <= i < |c| :: c[i].state == Sum(xs[..i + 1]) && c[i].height == i + 1
  {
    var c := Extend(hash, Genesis(), xs);
    ExtendFollowsAdderRule(hash, Genesis(), xs);
  }
}
