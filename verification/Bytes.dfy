/** Bytes, machine integers and big-endian encodings shared by every wire format. */
module Bytes {
  type Byte = x: int | 0 <= x < 256
  type U16 = x: int | 0 <= x < 0x1_0000
  type U32 = x: int | 0 <= x < 0x1_0000_0000
  type U64 = x: int | 0 <= x < 0x1_0000_0000_0000_0000

  /** Fixed-size arrays of the source. */
  type Bytes32 = s: seq<Byte> | |s| == 32 witness seq(32, _ => 0)
  type Bytes64 = s: seq<Byte> | |s| == 64 witness seq(64, _ => 0)

  datatype Option<+T> = None | Some(value: T)

  datatype Result<+T, +E> = Ok(value: T) | Err(error: E)

  /** A byte string literal of the source. */
  function Ascii(s: string): (r: seq<Byte>)
    ensures |r| == |s| && forall i :: 0 <= i < |s| ==> r[i] == s[i] as int % 256
  {
    seq(|s|, i requires 0 <= i < |s| => s[i] as int % 256)
  }

  /** 256 raised to `n`. */
  function Pow256(n: nat): (r: int)
    ensures r > 0
  {
    if n == 0 then 1 else 256 * Pow256(n - 1)
  }

  /** `x.to_be_bytes()` for an `n`-byte unsigned integer; higher bits are cut off as by an `as` cast. */
  function BigEndian(x: int, n: nat): (r: seq<Byte>)
    requires x >= 0
    ensures |r| == n
  {
    if n == 0 then [] else BigEndian(x / 256, n - 1) + [x % 256]
  }

  /** `from_be_bytes`. */
  function FromBigEndian(s: seq<Byte>): (r: int)
    ensures 0 <= r < Pow256(|s|)
  {
    if s == [] then 0 else 256 * FromBigEndian(s[..|s| - 1]) + s[|s| - 1]
  }

  lemma {:induction false} DecodeBigEndian(x: int, n: nat)
    requires 0 <= x < Pow256(n)
    ensures FromBigEndian(BigEndian(x, n)) == x
  {
    if n > 0 {
      DecodeBigEndian(x / 256, n - 1);
      assert BigEndian(x, n)[..n - 1] == BigEndian(x / 256, n - 1);
    }
  }

  lemma {:induction false} EncodeFromBigEndian(s: seq<Byte>)
    ensures BigEndian(FromBigEndian(s), |s|) == s
  {
    if s != [] {
      EncodeFromBigEndian(s[..|s| - 1]);
      assert s == s[..|s| - 1] + [s[|s| - 1]];
    }
  }

  lemma Pow256Widths()
    ensures Pow256(2) == 0x1_0000
    ensures Pow256(4) == 0x1_0000_0000
    ensures Pow256(8) == 0x1_0000_0000_0000_0000
  {
    assert Pow256(1) == 256;
    assert Pow256(2) == 256 * Pow256(1);
    assert Pow256(3) == 256 * Pow256(2);
    assert Pow256(4) == 256 * Pow256(3);
    assert Pow256(5) == 256 * Pow256(4);
    assert Pow256(6) == 256 * Pow256(5);
    assert Pow256(7) == 256 * Pow256(6);
  }

  /** Equal encodings of in-range integers come from equal integers. */
  lemma BigEndianInjective(x: int, y: int, n: nat)
    requires 0 <= x < Pow256(n) && 0 <= y < Pow256(n)
    requires BigEndian(x, n) == BigEndian(y, n)
    ensures x == y
  {
    DecodeBigEndian(x, n);
    DecodeBigEndian(y, n);
  }

  /** Two concatenations with equally long heads agree only piecewise. */
  lemma SplitConcat(a: seq<Byte>, b: seq<Byte>, c: seq<Byte>, d: seq<Byte>)
    requires a + b == c + d && |a| == |c|
    ensures a == c && b == d
  {
    assert a == (a + b)[..|a|] && c == (c + d)[..|c|];
    assert b == (a + b)[|a|..] && d == (c + d)[|c|..];
  }

  /** The second piece of a concatenation, and what follows it. */
  lemma NextPiece(a: seq<Byte>, b: seq<Byte>, c: seq<Byte>)
    ensures var whole := a + (b + c);
            whole[|a|..|a| + |b|] == b && whole[|a| + |b|..] == c && whole == (a + b) + c
  {
  }

  /** Where six strings written one after another stand. */
  lemma SixPieces(a: seq<Byte>, b: seq<Byte>, c: seq<Byte>, d: seq<Byte>, e: seq<Byte>, f: seq<Byte>)
    ensures var whole := a + (b + (c + (d + (e + f))));
            var i := |a| + |b|;
            var j := i + |c|;
            var k := j + |d|;
            var l := k + |e|;
            && |whole| == l + |f| && whole[..|a|] == a && whole[|a|..i] == b && whole[i..j] == c && whole[j..k] == d
            && whole[k..l] == e && whole[l..] == f
  {
    NextPiece(a, b, c + (d + (e + f)));
    NextPiece(a + b, c, d + (e + f));
    NextPiece(a + b + c, d, e + f);
    NextPiece(a + b + c + d, e, f);
  }

  /** `copy_from_slice` into `dst[at..at + |src|]`. */
  method CopyFromSlice(dst: array<Byte>, at: nat, src: seq<Byte>)
    requires at + |src| <= dst.Length
    modifies dst
    ensures dst[..] == old(dst[..at]) + src + old(dst[at + |src|..])
    ensures dst[..at + |src|] == old(dst[..at]) + src
  {
    for i := 0 to |src|
      invariant forall k :: 0 <= k < dst.Length ==>
                  dst[k] == if at <= k < at + i then src[k - at] else old(dst[k])
    {
      dst[at + i] := src[i];
    }
  }
}
