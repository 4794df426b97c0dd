/** SLIP-0010 derivation for Ed25519 (`derive.rs`), hardened indices only, over any HMAC. */
module Derive {
  import opened Bytes

  const MASTER_HMAC_KEY: seq<Byte> := Ascii("ed25519 seed")

  type HardenedIndex = i: int | 0x8000_0000 <= i < 0x1_0000_0000 witness 0x8000_0000
  type Hmac = (seq<Byte>, seq<Byte>) -> Bytes64

  datatype MasterKey = MasterKey(secret: Bytes32, chainCode: Bytes32)

  function Split(i: Bytes64): MasterKey {
    MasterKey(i[..32], i[32..])
  }

  /** `from_seed`: the left half of the tag is the secret, the right half the chain code. */
  function FromSeed(hmac: Hmac, seed: seq<Byte>): (r: MasterKey)
    ensures r.secret + r.chainCode == hmac(MASTER_HMAC_KEY, seed)
  {
    Split(hmac(MASTER_HMAC_KEY, seed))
  }

  /** The message authenticated for a child: a zero byte, the parent secret, the index. */
  function ChildData(parent: MasterKey, index: HardenedIndex): seq<Byte> {
    [0] + (parent.secret + BigEndian(index, 4))
  }

  /** `derive_child`. */
  function DeriveChild(hmac: Hmac, parent: MasterKey, index: HardenedIndex): (r: MasterKey)
    ensures r.secret + r.chainCode == hmac(parent.chainCode, [0] + parent.secret + BigEndian(index, 4))
  {
    assert ChildData(parent, index) == [0] + parent.secret + BigEndian(index, 4);
    Split(hmac(parent.chainCode, ChildData(parent, index)))
  }

  /** The recursive definition of a path: the first index first. */
  function DeriveAlong(hmac: Hmac, node: MasterKey, path: seq<HardenedIndex>): MasterKey
    decreases path
  {
    if path == [] then node else DeriveAlong(hmac, DeriveChild(hmac, node, path[0]), path[1..])
  }

  /** `derive_path`. */
  method DerivePath(hmac: Hmac, node: MasterKey, path: seq<HardenedIndex>) returns (current: MasterKey)
    ensures current == DeriveAlong(hmac, node, path)
    ensures path == [] ==> current == node
    ensures path != [] ==>
              var n := |path| - 1;
              var parent := DeriveAlong(hmac, node, path[..n]);
              current.secret + current.chainCode ==
              hmac(parent.chainCode, [0] + parent.secret + BigEndian(path[n], 4))
  {
    current := node;
    for k := 0 to |path|
      invariant DeriveAlong(hmac, current, path[k..]) == DeriveAlong(hmac, node, path)
    {
      assert path[k..][0] == path[k] && path[k..][1..] == path[k + 1..];
      current := DeriveChild(hmac, current, path[k]);
    }
    assert path[|path|..] == [];
    if path != [] {
      LastStep(hmac, node, path);
    }
  }

  /** Deriving along `p` followed by `r` is deriving along `p` and then along `r`. */
  lemma {:induction false} DeriveConcat(hmac: Hmac, node: MasterKey, p: seq<HardenedIndex>, r: seq<HardenedIndex>)
    ensures DeriveAlong(hmac, node, p + r) == DeriveAlong(hmac, DeriveAlong(hmac, node, p), r)
    decreases p
  {
    if p == [] {
      assert p + r == r;
    } else {
      DeriveConcat(hmac, DeriveChild(hmac, node, p[0]), p[1..], r);
      assert (p + r)[0] == p[0] && (p + r)[1..] == p[1..] + r;
    }
  }

  type HmacInput = (seq<Byte>, seq<Byte>)

  /** HMAC-SHA512 fills shorter keys up to its block of 128 bytes with zeros. */
  function Padded(key: seq<Byte>): seq<Byte> {
    key + if |key| < 128 then seq(128 - |key|, _ => 0) else []
  }

  /** Two inputs that HMAC itself tells apart, with one tag: keys are compared as they are padded. */
  predicate IsHmacCollision(hmac: Hmac, a: HmacInput, b: HmacInput) {
    (Padded(a.0), a.1) != (Padded(b.0), b.1) && hmac(a.0, a.1) == hmac(b.0, b.1)
  }

  /** Padding tells keys of one length apart. */
  lemma PaddedInjective(a: seq<Byte>, b: seq<Byte>)
    requires |a| == |b| && Padded(a) == Padded(b)
    ensures a == b
  {
    assert a == Padded(a)[..|a|] && b == Padded(b)[..|a|];
  }

  /** The one chain code that HMAC does not tell apart from the constant key of a master node. */
  predicate IsPaddedMasterKey(key: seq<Byte>) {
    |key| == 32 && Padded(key) == Padded(MASTER_HMAC_KEY)
  }

  function ChildInput(parent: MasterKey, index: HardenedIndex): HmacInput {
    (parent.chainCode, ChildData(parent, index))
  }

  /** An HMAC input shows the node and the index it was built from. */
  lemma ChildInputInjective(a: MasterKey, i: HardenedIndex, b: MasterKey, j: HardenedIndex)
    requires ChildInput(a, i) == ChildInput(b, j)
    ensures a == b && i == j
  {
    SplitConcat([0], a.secret + BigEndian(i, 4), [0], b.secret + BigEndian(j, 4));
    SplitConcat(a.secret, BigEndian(i, 4), b.secret, BigEndian(j, 4));
    Pow256Widths();
    BigEndianInjective(i, j, 4);
  }

  lemma SplitInjective(x: Bytes64, y: Bytes64)
    requires Split(x) == Split(y)
    ensures x == y
  {
    assert x == x[..32] + x[32..] && y == y[..32] + y[32..];
  }

  /** The last step at which two different paths of equal length could have met: its two HMAC inputs. */
  function Meeting(hmac: Hmac, node: MasterKey, p: seq<HardenedIndex>, r: seq<HardenedIndex>): (HmacInput, HmacInput)
    requires |p| == |r| > 0
  {
    var n := |p| - 1;
    var x := ChildInput(DeriveAlong(hmac, node, p[..n]), p[n]);
    var y := ChildInput(DeriveAlong(hmac, node, r[..n]), r[n]);
    if x != y || n == 0 then (x, y) else Meeting(hmac, node, p[..n], r[..n])
  }

  /**
    Different paths of equal length from one node lead to different extended keys, or `Meeting` is an HMAC collision.
   */
  lemma {:induction false} PathsDiffer(hmac: Hmac, node: MasterKey, p: seq<HardenedIndex>, r: seq<HardenedIndex>)
    requires |p| == |r| && p != r
    ensures || DeriveAlong(hmac, node, p) != DeriveAlong(hmac, node, r)
            || var m := Meeting(hmac, node, p, r); IsHmacCollision(hmac, m.0, m.1)
  {
    var n := |p| - 1;
    var a, b := DeriveAlong(hmac, node, p[..n]), DeriveAlong(hmac, node, r[..n]);
    LastStep(hmac, node, p);
    LastStep(hmac, node, r);
    if DeriveAlong(hmac, node, p) == DeriveAlong(hmac, node, r) {
      var x, y := ChildInput(a, p[n]), ChildInput(b, r[n]);
      SplitInjective(hmac(x.0, x.1), hmac(y.0, y.1));
      if Padded(x.0) == Padded(y.0) {
        PaddedInjective(x.0, y.0);
      }
      if x == y {
        ChildInputInjective(a, p[n], b, r[n]);
        assert p == p[..n] + [p[n]] && r == r[..n] + [r[n]];
        assert p[..n] != r[..n];
        PathsDiffer(hmac, node, p[..n], r[..n]);
      }
    }
  }

  lemma LastStep(hmac: Hmac, node: MasterKey, p: seq<HardenedIndex>)
    requires p != []
    ensures var n := |p| - 1;
            DeriveAlong(hmac, node, p) == DeriveChild(hmac, DeriveAlong(hmac, node, p[..n]), p[n])
  {
    var n := |p| - 1;
    assert p == p[..n] + [p[n]];
    DeriveConcat(hmac, node, p[..n], [p[n]]);
    var below := DeriveAlong(hmac, node, p[..n]);
    assert DeriveAlong(hmac, below, [p[n]]) == DeriveAlong(hmac, DeriveChild(hmac, below, p[n]), []);
  }

  /** `derive_from_seed`. */
  function DeriveFromSeed(hmac: Hmac, seed: seq<Byte>, path: seq<HardenedIndex>): MasterKey {
    DeriveAlong(hmac, FromSeed(hmac, seed), path)
  }

  /** The HMAC input that yields the key at the end of a path from a seed. */
  function LastInput(hmac: Hmac, seed: seq<Byte>, path: seq<HardenedIndex>): HmacInput {
    if path == [] then (MASTER_HMAC_KEY, seed)
    else
      var n := |path| - 1;
      ChildInput(DeriveFromSeed(hmac, seed, path[..n]), path[n])
  }

  lemma LastInputYields(hmac: Hmac, seed: seq<Byte>, path: seq<HardenedIndex>)
    ensures var x := LastInput(hmac, seed, path); DeriveFromSeed(hmac, seed, path) == Split(hmac(x.0, x.1))
  {
    if path != [] {
      LastStep(hmac, FromSeed(hmac, seed), path);
    }
  }

  /** The last step at which two derivations from seeds could have met. */
  function SeedMeeting(hmac: Hmac, seed: seq<Byte>, p: seq<HardenedIndex>, other: seq<Byte>, r: seq<HardenedIndex>)
    : (HmacInput, HmacInput)
    decreases p
  {
    var x, y := LastInput(hmac, seed, p), LastInput(hmac, other, r);
    if x != y || p == [] || r == [] then (x, y)
    else SeedMeeting(hmac, seed, p[..|p| - 1], other, r[..|r| - 1])
  }

  /**
    Derivation from a seed is injective in seed and path together, for paths of any lengths: two different pairs give
    different extended keys, or `SeedMeeting` is an HMAC collision, or one of its two keys is the chain code that reads
    "ed25519 seed" followed by zeros, so that a child and a master node feed HMAC the same key.
   */
  lemma {:induction false} SeedsAndPathsDiffer(hmac: Hmac, seed: seq<Byte>, p: seq<HardenedIndex>, other: seq<Byte>,
                                               r: seq<HardenedIndex>)
    requires (seed, p) != (other, r)
    ensures || DeriveFromSeed(hmac, seed, p) != DeriveFromSeed(hmac, other, r)
            || var m := SeedMeeting(hmac, seed, p, other, r);
               IsHmacCollision(hmac, m.0, m.1) || IsPaddedMasterKey(m.0.0) || IsPaddedMasterKey(m.1.0)
    decreases p
  {
    var x, y := LastInput(hmac, seed, p), LastInput(hmac, other, r);
    LastInputYields(hmac, seed, p);
    LastInputYields(hmac, other, r);
    assert |MASTER_HMAC_KEY| == 12;
    if DeriveFromSeed(hmac, seed, p) == DeriveFromSeed(hmac, other, r) {
      SplitInjective(hmac(x.0, x.1), hmac(y.0, y.1));
      if Padded(x.0) == Padded(y.0) && |x.0| == |y.0| {
        PaddedInjective(x.0, y.0);
      }
      if x == y && p != [] && r != [] {
        var n, m := |p| - 1, |r| - 1;
        ChildInputInjective(DeriveFromSeed(hmac, seed, p[..n]), p[n], DeriveFromSeed(hmac, other, r[..m]), r[m]);
        assert p == p[..n] + [p[n]] && r == r[..m] + [r[m]];
        SeedsAndPathsDiffer(hmac, seed, p[..n], other, r[..m]);
      }
    }
  }
}
