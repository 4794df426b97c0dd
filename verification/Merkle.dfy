/**
  The RFC 6962 tree of `umbrella-kt`: roots, audit paths and the bit-shifting inclusion check. SHA-256 is any function
  from byte strings to 32 bytes; a claim that rests on its collision resistance names the two colliding strings.
 */
module Merkle {
  import opened Bytes

  type Hash = Bytes32
  type Hasher = seq<Byte> -> Hash

  datatype KtError = EmptyTree | LeafIndexOutOfRange | InvalidProofLength | InclusionRootMismatch

  function LeafHash(h: Hasher, data: seq<Byte>): Hash {
    h([0] + data)
  }

  function InnerHash(h: Hasher, left: Hash, right: Hash): Hash {
    h([1] + (left + right))
  }

  function LeafHashes(h: Hasher, data: seq<seq<Byte>>): (r: seq<Hash>)
    ensures |r| == |data|
    ensures forall i :: 0 <= i < |data| ==> r[i] == LeafHash(h, data[i])
  {
    seq(|data|, i requires 0 <= i < |data| => LeafHash(h, data[i]))
  }

  /** `largest_power_of_two_below`, found by doubling from `k`. */
  function SplitFrom(k: nat, n: nat): (r: nat)
    requires 1 <= k < n
    ensures k <= r < n <= 2 * r
    decreases n - k
  {
    if 2 * k < n then SplitFrom(2 * k, n) else k
  }

  function SplitPoint(n: nat): (r: nat)
    requires n >= 2
    ensures 1 <= r < n <= 2 * r
  {
    SplitFrom(1, n)
  }

  /** `merkle_root`: the Merkle Tree Hash of section 2.1 of RFC 6962. */
  function MerkleRoot(h: Hasher, leaves: seq<Hash>): Hash {
    if leaves == [] then h([])
    else if |leaves| == 1 then leaves[0]
    else
      var k := SplitPoint(|leaves|);
      InnerHash(h, MerkleRoot(h, leaves[..k]), MerkleRoot(h, leaves[k..]))
  }

  /** `build_path_recursive`: the siblings from the leaf up. */
  function AuditPath(h: Hasher, leaves: seq<Hash>, index: nat): seq<Hash>
    requires index < |leaves|
  {
    if |leaves| == 1 then []
    else
      var k := SplitPoint(|leaves|);
      if index < k then AuditPath(h, leaves[..k], index) + [MerkleRoot(h, leaves[k..])]
      else AuditPath(h, leaves[k..], index - k) + [MerkleRoot(h, leaves[..k])]
  }

  /** On which side of its sibling a node on the way up lies. */
  datatype Side = IsLeft | IsRight

  /**
    The turns on the way from leaf `fn` up to the root when the last leaf is `sn`, level by level: an odd node is a
    right child, the last node of a level has no sibling and moves up, any other node is a left child.
   */
  function Turns(fn: nat, sn: nat): seq<Side>
    requires fn <= sn
    decreases sn
  {
    if sn == 0 then []
    else if fn % 2 == 1 then [IsRight] + Turns(fn / 2, sn / 2)
    else if fn == sn then Turns(fn / 2, sn / 2)
    else [IsLeft] + Turns(fn / 2, sn / 2)
  }

  function Join(h: Hasher, side: Side, r: Hash, sibling: Hash): Hash {
    if side.IsRight? then InnerHash(h, sibling, r) else InnerHash(h, r, sibling)
  }

  /** The hash reached from `leaf` through `siblings` along `turns`. */
  function Climb(h: Hasher, leaf: Hash, turns: seq<Side>, siblings: seq<Hash>): Hash
    requires |turns| == |siblings|
  {
    if siblings == [] then leaf
    else
      var n := |siblings| - 1;
      Join(h, turns[n], Climb(h, leaf, turns[..n], siblings[..n]), siblings[n])
  }

  /** What the inclusion check accepts. */
  predicate Included(h: Hasher, leaf: Hash, index: nat, size: nat, siblings: seq<Hash>, root: Hash) {
    && index < size
    && |siblings| == |Turns(index, size - 1)|
    && Climb(h, leaf, Turns(index, size - 1), siblings) == root
  }

  lemma {:induction false} ClimbFromBottom(h: Hasher, leaf: Hash, turns: seq<Side>, siblings: seq<Hash>)
    requires |turns| == |siblings| > 0
    ensures Climb(h, leaf, turns, siblings) ==
            Climb(h, Join(h, turns[0], leaf, siblings[0]), turns[1..], siblings[1..])
  {
    var n := |siblings| - 1;
    if n > 0 {
      ClimbFromBottom(h, leaf, turns[..n], siblings[..n]);
      assert turns[..n][1..] == turns[1..][..n - 1] && siblings[..n][1..] == siblings[1..][..n - 1];
    } else {
      assert turns[..0] == [] && siblings[..0] == [];
    }
  }

  lemma ClimbStep(h: Hasher, r: Hash, turns: seq<Side>, siblings: seq<Hash>, k: nat)
    requires k < |siblings| && |turns| == |siblings| - k
    ensures Climb(h, r, turns, siblings[k..]) ==
            Climb(h, Join(h, turns[0], r, siblings[k]), turns[1..], siblings[k + 1..])
  {
    ClimbFromBottom(h, r, turns, siblings[k..]);
    assert siblings[k..][1..] == siblings[k + 1..];
  }

  /** `audit_path_length`. */
  method AuditPathLength(index: nat, size: nat) returns (len: nat)
    requires index < size
    ensures len == |Turns(index, size - 1)|
  {
    var fn, sn := index, size - 1;
    len := 0;
    while sn > 0
      invariant 0 <= fn <= sn
      invariant len + |Turns(fn, sn)| == |Turns(index, size - 1)|
    {
      if fn % 2 == 1 || fn != sn {
        len := len + 1;
      }
      fn := fn / 2;
      sn := sn / 2;
    }
  }

  /** One round of the loop of `verify_inclusion`: take one turn with the sibling `p` and move up to the next one. */
  method TakeTurn(h: Hasher, index: nat, last: nat, below: Hash, p: Hash) returns (fn: nat, sn: nat, r: Hash)
    requires index <= last && |Turns(index, last)| > 0
    ensures fn <= sn && Turns(fn, sn) == Turns(index, last)[1..]
    ensures r == Join(h, Turns(index, last)[0], below, p)
  {
    fn, sn := index, last;
    if fn % 2 == 1 || fn == sn {
      r := InnerHash(h, p, below);
      if fn % 2 == 0 {
        while fn % 2 == 0 && fn != 0
          invariant 0 < fn == sn && Turns(fn, sn) == Turns(index, last)
        {
          fn := fn / 2;
          sn := sn / 2;
        }
      }
    } else {
      r := InnerHash(h, below, p);
    }
    fn := fn / 2;
    sn := sn / 2;
  }

  /** `verify_inclusion`. */
  method VerifyInclusion(h: Hasher, leaf: Hash, index: nat, size: nat, siblings: seq<Hash>, root: Hash)
    returns (e: Option<KtError>)
    ensures e.None? <==> Included(h, leaf, index, size, siblings, root)
    ensures e == Some(EmptyTree) <==> size == 0
    ensures e == Some(LeafIndexOutOfRange) <==> 0 < size <= index
    ensures e == Some(InvalidProofLength) <==> index < size && |siblings| != |Turns(index, size - 1)|
  {
    if size == 0 {
      return Some(EmptyTree);
    }
    if index >= size {
      return Some(LeafIndexOutOfRange);
    }
    e := VerifyPath(h, leaf, index, size - 1, siblings, root);
  }

  /** The rest of `verify_inclusion`, for an index in range. */
  method VerifyPath(h: Hasher, leaf: Hash, index: nat, last: nat, siblings: seq<Hash>, root: Hash)
    returns (e: Option<KtError>)
    requires index <= last
    ensures e in {None, Some(InvalidProofLength), Some(InclusionRootMismatch)}
    ensures e == Some(InvalidProofLength) <==> |siblings| != |Turns(index, last)|
    ensures e.None? <==> |siblings| == |Turns(index, last)| && Climb(h, leaf, Turns(index, last), siblings) == root
  {
    var expected := AuditPathLength(index, last + 1);
    if |siblings| != expected {
      return Some(InvalidProofLength);
    }
    var left, r := ClimbPath(h, leaf, index, last, siblings);
    if left != 0 {
      assert false;
      return Some(InvalidProofLength);
    }
    if r != root {
      return Some(InclusionRootMismatch);
    }
    return None;
  }

  /** The loop of `verify_inclusion`: one turn per sibling; `sn` says how far below the root it stopped. */
  method ClimbPath(h: Hasher, leaf: Hash, index: nat, last: nat, siblings: seq<Hash>) returns (sn: nat, r: Hash)
    requires index <= last && |siblings| == |Turns(index, last)|
    ensures sn == 0 && r == Climb(h, leaf, Turns(index, last), siblings)
  {
    var fn := index;
    sn, r := last, leaf;
    ghost var climbed := Climb(h, leaf, Turns(index, last), siblings);
    for k := 0 to |siblings|
      invariant 0 <= fn <= sn
      invariant |Turns(fn, sn)| == |siblings| - k
      invariant Climb(h, r, Turns(fn, sn), siblings[k..]) == climbed
    {
      ClimbStep(h, r, Turns(fn, sn), siblings, k);
      fn, sn, r := TakeTurn(h, fn, sn, r, siblings[k]);
    }
    if sn != 0 {
      TurnsRemain(fn, sn);
    }
  }

  /** Below the root there is always a turn left. */
  lemma {:induction false} TurnsRemain(fn: nat, sn: nat)
    requires fn <= sn && sn > 0
    ensures |Turns(fn, sn)| > 0
  {
    if fn == sn && fn % 2 == 0 {
      TurnsRemain(fn / 2, sn / 2);
    }
  }

  // ----- Every audit path verifies -----

  predicate PowerOfTwo(k: nat) {
    k == 1 || (k > 1 && k % 2 == 0 && PowerOfTwo(k / 2))
  }

  lemma {:induction false} SplitFromPower(k: nat, n: nat)
    requires 1 <= k < n && PowerOfTwo(k)
    ensures PowerOfTwo(SplitFrom(k, n))
    decreases n - k
  {
    if 2 * k < n {
      assert 2 * k / 2 == k;
      SplitFromPower(2 * k, n);
    }
  }

  /**
    The bottom-up turns agree with the top-down tree: with `k` the power of two splitting `sn + 1` leaves, the last
    turn says on which side of the split the leaf lies and the turns before it are those inside that half.
   */
  lemma {:induction false} TurnsSplit(i: nat, sn: nat, k: nat)
    requires PowerOfTwo(k) && k <= sn < 2 * k && i <= sn
    ensures Turns(i, sn) == if i < k then Turns(i, k - 1) + [IsLeft] else Turns(i - k, sn - k) + [IsRight]
    decreases k
  {
    if k > 1 {
      TurnsSplit(i / 2, sn / 2, k / 2);
      if i < k {
        assert (k - 1) / 2 == k / 2 - 1;
      } else {
        assert (i - k) / 2 == i / 2 - k / 2 && (sn - k) / 2 == sn / 2 - k / 2;
      }
    }
  }

  /** One more level on top of a climb. */
  lemma ClimbLast(h: Hasher, leaf: Hash, turns: seq<Side>, side: Side, siblings: seq<Hash>, sibling: Hash)
    requires |turns| == |siblings|
    ensures Climb(h, leaf, turns + [side], siblings + [sibling]) ==
            Join(h, side, Climb(h, leaf, turns, siblings), sibling)
  {
    assert (turns + [side])[..|turns|] == turns && (siblings + [sibling])[..|turns|] == siblings;
  }

  /** The turns read off the tree itself, from the top down. */
  function TreeTurns(index: nat, size: nat): seq<Side>
    requires index < size
    decreases size
  {
    if size == 1 then []
    else
      var k := SplitPoint(size);
      if index < k then TreeTurns(index, k) + [IsLeft] else TreeTurns(index - k, size - k) + [IsRight]
  }

  lemma {:induction false} TreeTurnsAreTurns(index: nat, size: nat)
    requires index < size
    ensures TreeTurns(index, size) == Turns(index, size - 1)
    decreases size
  {
    if size > 1 {
      var k := SplitPoint(size);
      SplitFromPower(1, size);
      TurnsSplit(index, size - 1, k);
      if index < k {
        TreeTurnsAreTurns(index, k);
      } else {
        TreeTurnsAreTurns(index - k, size - k);
      }
    }
  }

  /** The climb from `leaf` along `turns` through `siblings` ends in `root`. */
  predicate Climbs(h: Hasher, leaf: Hash, turns: seq<Side>, siblings: seq<Hash>, root: Hash) {
    |siblings| == |turns| && Climb(h, leaf, turns, siblings) == root
  }

  lemma ClimbsHigher(h: Hasher, leaf: Hash, turns: seq<Side>, siblings: seq<Hash>, root: Hash, side: Side,
                     sibling: Hash)
    requires Climbs(h, leaf, turns, siblings, root)
    ensures Climbs(h, leaf, turns + [side], siblings + [sibling], Join(h, side, root, sibling))
  {
    ClimbLast(h, leaf, turns, side, siblings, sibling);
  }

  lemma ClimbsFromLeft(h: Hasher, leaves: seq<Hash>, index: nat)
    requires 1 < |leaves| && index < SplitPoint(|leaves|)
    requires var left := leaves[..SplitPoint(|leaves|)];
             Climbs(h, left[index], TreeTurns(index, |left|), AuditPath(h, left, index), MerkleRoot(h, left))
    ensures Climbs(h, leaves[index], TreeTurns(index, |leaves|), AuditPath(h, leaves, index), MerkleRoot(h, leaves))
  {
    var k := SplitPoint(|leaves|);
    var left, right := leaves[..k], leaves[k..];
    ClimbsHigher(h, left[index], TreeTurns(index, k), AuditPath(h, left, index), MerkleRoot(h, left),
                 IsLeft, MerkleRoot(h, right));
  }

  lemma ClimbsFromRight(h: Hasher, leaves: seq<Hash>, index: nat)
    requires 1 < |leaves| && SplitPoint(|leaves|) <= index < |leaves|
    requires var k := SplitPoint(|leaves|);
             var right := leaves[k..];
             Climbs(h, right[index - k], TreeTurns(index - k, |right|), AuditPath(h, right, index - k),
                    MerkleRoot(h, right))
    ensures Climbs(h, leaves[index], TreeTurns(index, |leaves|), AuditPath(h, leaves, index), MerkleRoot(h, leaves))
  {
    var k := SplitPoint(|leaves|);
    var left, right := leaves[..k], leaves[k..];
    ClimbsHigher(h, right[index - k], TreeTurns(index - k, |leaves| - k), AuditPath(h, right, index - k),
                 MerkleRoot(h, right), IsRight, MerkleRoot(h, left));
  }

  lemma {:induction false} AuditPathClimbs(h: Hasher, leaves: seq<Hash>, index: nat)
    requires index < |leaves|
    ensures Climbs(h, leaves[index], TreeTurns(index, |leaves|), AuditPath(h, leaves, index), MerkleRoot(h, leaves))
    decreases |leaves|
  {
    if |leaves| > 1 {
      var k := SplitPoint(|leaves|);
      if index < k {
        AuditPathClimbs(h, leaves[..k], index);
        ClimbsFromLeft(h, leaves, index);
      } else {
        AuditPathClimbs(h, leaves[k..], index - k);
        ClimbsFromRight(h, leaves, index);
      }
    }
  }

  /** An honest audit path passes the inclusion check, for every list of leaves and every index. */
  lemma AuditPathVerifies(h: Hasher, leaves: seq<Hash>, index: nat)
    requires index < |leaves|
    ensures Included(h, leaves[index], index, |leaves|, AuditPath(h, leaves, index), MerkleRoot(h, leaves))
  {
    var turns, path, root := TreeTurns(index, |leaves|), AuditPath(h, leaves, index), MerkleRoot(h, leaves);
    assert Climbs(h, leaves[index], turns, path, root) by {
      AuditPathClimbs(h, leaves, index);
    }
    ClimbsIncluded(h, leaves[index], index, |leaves|, turns, path, root);
  }

  lemma ClimbsIncluded(h: Hasher, leaf: Hash, index: nat, size: nat, turns: seq<Side>, siblings: seq<Hash>, root: Hash)
    requires index < size && turns == TreeTurns(index, size) && Climbs(h, leaf, turns, siblings, root)
    ensures Included(h, leaf, index, size, siblings, root)
  {
    assert turns == Turns(index, size - 1) by {
      TreeTurnsAreTurns(index, size);
    }
  }

  // ----- Whatever verifies is in the tree -----

  predicate IsCollision(h: Hasher, pair: (seq<Byte>, seq<Byte>)) {
    pair.0 != pair.1 && h(pair.0) == h(pair.1)
  }

  /** The string whose hash is the root of the tree over `data`. */
  function RootPreimage(h: Hasher, data: seq<seq<Byte>>): seq<Byte> {
    if data == [] then []
    else if |data| == 1 then [0] + data[0]
    else
      var k := SplitPoint(|data|);
      [1] + (MerkleRoot(h, LeafHashes(h, data[..k])) + MerkleRoot(h, LeafHashes(h, data[k..])))
  }

  lemma RootPreimageHashes(h: Hasher, data: seq<seq<Byte>>)
    ensures MerkleRoot(h, LeafHashes(h, data)) == h(RootPreimage(h, data))
  {
    if |data| > 1 {
      var k := SplitPoint(|data|);
      assert LeafHashes(h, data)[..k] == LeafHashes(h, data[..k]);
      assert LeafHashes(h, data)[k..] == LeafHashes(h, data[k..]);
    }
  }

  /** The string whose hash is the end of a climb that starts at the leaf hash of `payload`. */
  function ClimbPreimage(h: Hasher, payload: seq<Byte>, turns: seq<Side>, siblings: seq<Hash>): seq<Byte>
    requires |turns| == |siblings|
  {
    if siblings == [] then [0] + payload
    else
      var n := |siblings| - 1;
      var below := Climb(h, LeafHash(h, payload), turns[..n], siblings[..n]);
      [1] + if turns[n].IsRight? then siblings[n] + below else below + siblings[n]
  }

  /** The two strings at which a climb from a payload outside the tree departs from the tree. */
  function Departure(h: Hasher, data: seq<seq<Byte>>, payload: seq<Byte>, turns: seq<Side>, siblings: seq<Hash>)
    : (seq<Byte>, seq<Byte>)
    requires |turns| == |siblings|
    decreases |siblings|
  {
    var x, y := ClimbPreimage(h, payload, turns, siblings), RootPreimage(h, data);
    if x != y || siblings == [] || |data| <= 1 then (x, y)
    else
      var n, k := |siblings| - 1, SplitPoint(|data|);
      Departure(h, if turns[n].IsLeft? then data[..k] else data[k..], payload, turns[..n], siblings[..n])
  }

  /**
    Soundness for an arbitrary path and arbitrary turns, so for any claimed index and size: if the climb from `payload`
    ends at the root of `data`, then `payload` is one of `data`, or `Departure` is a collision of the hash function.
   */
  lemma {:induction false} ClimbSound(h: Hasher, data: seq<seq<Byte>>, payload: seq<Byte>, turns: seq<Side>,
                                      siblings: seq<Hash>)
    requires |turns| == |siblings|
    requires Climb(h, LeafHash(h, payload), turns, siblings) == MerkleRoot(h, LeafHashes(h, data))
    ensures payload in data || IsCollision(h, Departure(h, data, payload, turns, siblings))
    decreases |siblings|
  {
    var x, y := ClimbPreimage(h, payload, turns, siblings), RootPreimage(h, data);
    RootPreimageHashes(h, data);
    if x == y {
      if siblings == [] {
        assert x[0] == 0;
        assert |data| == 1;
        assert payload == x[1..] == data[0];
      } else {
        assert x[0] == 1;
        assert |data| > 1;
        var n, k := |siblings| - 1, SplitPoint(|data|);
        var below := Climb(h, LeafHash(h, payload), turns[..n], siblings[..n]);
        var left: seq<Byte>, right: seq<Byte> :=
          MerkleRoot(h, LeafHashes(h, data[..k])), MerkleRoot(h, LeafHashes(h, data[k..]));
        assert x[1..] == y[1..] == left + right;
        if turns[n].IsLeft? {
          SplitConcat(below, siblings[n], left, right);
          ClimbSound(h, data[..k], payload, turns[..n], siblings[..n]);
        } else {
          SplitConcat(siblings[n], below, left, right);
          ClimbSound(h, data[k..], payload, turns[..n], siblings[..n]);
        }
      }
    }
  }

  /** The strings at which a proof for leaf `index` of `size` departs from the tree over `data`. */
  function InclusionDeparture(h: Hasher, data: seq<seq<Byte>>, payload: seq<Byte>, index: nat, size: nat,
                              siblings: seq<Hash>): (seq<Byte>, seq<Byte>)
  {
    if index < size && |siblings| == |Turns(index, size - 1)| then
      Departure(h, data, payload, Turns(index, size - 1), siblings)
    else ([], [])
  }

  /** What passes the inclusion check against the root of `data` is one of `data`, or a collision is exhibited. */
  lemma IncludedSound(h: Hasher, data: seq<seq<Byte>>, payload: seq<Byte>, index: nat, size: nat, siblings: seq<Hash>,
                      root: Hash)
    requires Included(h, LeafHash(h, payload), index, size, siblings, root)
    requires root == MerkleRoot(h, LeafHashes(h, data))
    ensures payload in data || IsCollision(h, InclusionDeparture(h, data, payload, index, size, siblings))
  {
    ClimbSound(h, data, payload, Turns(index, size - 1), siblings);
  }
}
