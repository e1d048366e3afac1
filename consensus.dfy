/**
 * Proof of work on an adder chain: a child header is only returned once a nonce in its
 * consensus digest brings its hash below `THRESHOLD`. The random nonces of the source are
 * a finite stream given by the caller; when it runs dry no header is returned.
 */
module Consensus {
  import opened Prelude

  /** `u64::max_value() / 100`: about one hash in a hundred is below it. */
  const THRESHOLD: u64 := U64_MAX / 100

  datatype Header = Header(parent: u64, height: u64, extrinsic: u64, state: u64, consensusDigest: u64)

  function Genesis(): Header {
    Header(0, 0, 0, 0, 0)
  }

  /** The child header before mining: the digest is still the default 0. */
  function Unmined(hash: Header -> u64, h: Header, extrinsic: u64): (c: Header)
    requires h.height < U64_MAX && h.state + extrinsic <= U64_MAX
    ensures c.parent == hash(h) && c.height == h.height + 1
    ensures c.extrinsic == extrinsic && c.state == h.state + extrinsic
  {
    Header(hash(h), h.height + 1, extrinsic, h.state + extrinsic, 0)
  }

  /** A nonce that, as the digest of `template`, brings the hash below the threshold. */
  predicate Works(hash: Header -> u64, template: Header, nonce: u64) {
    hash(template.(consensusDigest := nonce)) < THRESHOLD
  }

  /** `nonces[k]` is the first nonce of the stream that works. */
  predicate FirstWorking(hash: Header -> u64, template: Header, nonces: seq<u32>, k: int) {
    && 0 <= k < |nonces|
    && Works(hash, template, nonces[k])
    && forall j | 0 <= j < k :: !Works(hash, template, nonces[j])
  }

  /**
   * `Header::child`: build the child, then try the nonces in order, keeping the first whose
   * digest makes the hash fall below `THRESHOLD`.
   */
  method Child(hash: Header -> u64, h: Header, extrinsic: u64, nonces: seq<u32>) returns (r: Option<Header>)
    requires h.height < U64_MAX && h.state + extrinsic <= U64_MAX
    ensures var template := Unmined(hash, h, extrinsic);
      r.Some? <==> exists k | 0 <= k < |nonces| :: Works(hash, template, nonces[k])
    ensures var template := Unmined(hash, h, extrinsic);
      r.Some? ==> exists k :: FirstWorking(hash, template, nonces, k) && r.value == template.(consensusDigest := nonces[k])
    ensures r.Some? ==> hash(r.value) < THRESHOLD && r.value.consensusDigest < U32_LIMIT
  {
    var validChildHeader := Unmined(hash, h, extrinsic);
    var template := validChildHeader;
    var i := 0;
    while i < |nonces|
      invariant 0 <= i <= |nonces|
      invariant forall j | 0 <= j < i :: !Works(hash, template, nonces[j])
      invariant validChildHeader.parent == template.parent && validChildHeader.height == template.height
      invariant validChildHeader.extrinsic == template.extrinsic && validChildHeader.state == template.state
    {
      var nonce := nonces[i];
      validChildHeader := validChildHeader.(consensusDigest := nonce);
      assert validChildHeader == template.(consensusDigest := nonce);
      if hash(validChildHeader) < THRESHOLD {
        assert FirstWorking(hash, template, nonces, i);
        return Some(validChildHeader);
      }
      i := i + 1;
    }
    return None;
  }
}
