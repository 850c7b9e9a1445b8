/** The message expander behind the hinTS Fiat-Shamir challenge. */
module Expander {
  import opened Common

  type Digest32 = d: Bytes | |d| == 32 witness seq(32, _ => 0)
  type Sha256 = Bytes -> Digest32

  const B_LEN := 32

  function Xor(a: byte, b: byte): byte {
    ((a as bv8) ^ (b as bv8)) as int
  }

  function XorBytes(a: Digest32, b: Digest32): Bytes {
    seq(B_LEN, i requires 0 <= i < B_LEN => Xor(a[i], b[i]))
  }

  function Zeros(n: nat): Bytes {
    seq(n, _ => 0)
  }

  // ----- Section 5.3.1 of RFC 9380 -----------------------------------------------------------

  /** I2OSP: x as n big-endian bytes; a larger x is cut to its low ones, as the casts do. */
  function I2OSP(x: nat, n: nat): (b: Bytes)
    ensures |b| == n
  {
    if n == 0 then [] else I2OSP(x / 256, n - 1) + [x % 256]
  }

  /** b_i of the expander, i from 1 on. */
  function B(h: Sha256, b0: Digest32, dstPrime: Bytes, i: nat): Digest32
    requires i >= 1
  {
    if i == 1 then h(b0 + I2OSP(1, 1) + dstPrime)
    else h(XorBytes(b0, B(h, b0, dstPrime, i - 1)) + I2OSP(i, 1) + dstPrime)
  }

  /** b_1 || ... || b_ell */
  function Uniform(h: Sha256, b0: Digest32, dstPrime: Bytes, ell: nat): (u: Bytes)
    ensures |u| == B_LEN * ell
  {
    if ell == 0 then [] else Uniform(h, b0, dstPrime, ell - 1) + B(h, b0, dstPrime, ell)
  }

  function Ell(len: nat): nat {
    (len + B_LEN - 1) / B_LEN
  }

  /** The bytes expand_message_xmd computes, for an input block of sInBytes. */
  function Expanded(h: Sha256, msg: Bytes, dst: Bytes, len: nat, sInBytes: nat): (r: Bytes)
    ensures |r| == len
  {
    var dstPrime := dst + I2OSP(|dst|, 1);
    var msgPrime := Zeros(sInBytes) + msg + I2OSP(len, 2) + I2OSP(0, 1) + dstPrime;
    Uniform(h, h(msgPrime), dstPrime, Ell(len))[..len]
  }

  /** The RFC computes them within its limits only; None is its abort. */
  function ExpandMessageXmd(h: Sha256, msg: Bytes, dst: Bytes, len: nat, sInBytes: nat): Option<Bytes> {
    if Ell(len) > 255 || len > 65535 || |dst| > 255 then None else Some(Expanded(h, msg, dst, len, sInBytes))
  }

  // ----- The program -------------------------------------------------------------------------

  function Concat(blocks: seq<Digest32>): (c: Bytes)
    ensures |c| == B_LEN * |blocks|
  {
    if blocks == [] then [] else Concat(blocks[..|blocks| - 1]) + blocks[|blocks| - 1]
  }

  lemma OneByte(x: nat)
    ensures I2OSP(x, 1) == [x % 256]
  {
    assert I2OSP(x / 256, 0) == [];
  }

  lemma TwoBytes(x: nat)
    ensures I2OSP(x, 2) == [x % 65536 / 256, x % 65536 % 256]
  {
    HighAndLow(x);
    LowBytes(x, x / 65536, x % 65536);
  }

  lemma LowBytes(x: nat, q: nat, rest: nat)
    requires x == 65536 * q + rest && rest < 65536
    ensures x / 256 % 256 == rest / 256 && x % 256 == rest % 256
  {
    assert x / 256 == 256 * q + rest / 256;
  }

  /** The loop over blocks, any number of them. */
  method ExpandBlocks(h: Sha256, b0: Digest32, dstPrime: Bytes, ell: nat) returns (blocks: seq<Digest32>)
    ensures |blocks| == ell
    ensures Concat(blocks) == Uniform(h, b0, dstPrime, ell)
  {
    blocks := [];
    var prev := b0;
    for i := 1 to ell + 1
      invariant |blocks| == i - 1
      invariant Concat(blocks) == Uniform(h, b0, dstPrime, i - 1)
      invariant i > 1 ==> prev == B(h, b0, dstPrime, i - 1)
    {
      OneByte(i);
      var counter: byte := i % 256;  // i as u8
      if i == 1 {
        prev := h(b0 + [counter] + dstPrime);
      } else {
        prev := h(XorBytes(b0, prev) + [counter] + dstPrime);
      }
      assert (blocks + [prev])[..|blocks|] == blocks;
      blocks := blocks + [prev];
    }
  }

  /**
   * The expander as the transcript uses it: the zero pad is as long as the output. Within the RFC's
   * limits it is the RFC's expander with that pad, hence the RFC's SHA-256 expander at 64 bytes.
   */
  method ArkworksExpandMessageXmd(h: Sha256, msg: Bytes, dst: Bytes, len: nat) returns (r: Bytes)
    requires |dst| <= 255
    ensures IsExpansion(h, msg, dst, len, r)
    ensures r == Expanded(h, msg, dst, len, len)
    ensures Ell(len) <= 255 ==> ExpandMessageXmd(h, msg, dst, len, len) == Some(r)
    ensures len == 64 ==> ExpandMessageXmd(h, msg, dst, 64, 64) == Some(r)
  {
    var ell := (len + B_LEN - 1) / B_LEN;
    var dstPrime := dst + [|dst|];
    OneByte(|dst|);
    OneByte(0);
    TwoBytes(len);
    var truncated := len % 65536;  // len as u16
    var b0 := h(Zeros(len) + msg + [truncated / 256, truncated % 256] + [0x00] + dstPrime);
    var blocks := ExpandBlocks(h, b0, dstPrime, ell);
    r := Concat(blocks)[..len];
    ExpandedIsExpansion(h, msg, dst, len);
  }

  lemma {:induction false} UniformBlock(h: Sha256, b0: Digest32, dstPrime: Bytes, ell: nat, k: nat)
    requires k < ell
    ensures Uniform(h, b0, dstPrime, ell)[32 * k..32 * k + 32] == B(h, b0, dstPrime, k + 1)
    decreases ell
  {
    var before, last := Uniform(h, b0, dstPrime, ell - 1), B(h, b0, dstPrime, ell);
    if k + 1 == ell {
      assert (before + last)[32 * k..32 * k + 32] == last;
    } else {
      UniformBlock(h, b0, dstPrime, ell - 1, k);
      InFront(before, last, 32 * k, 32 * k + 32);
    }
  }

  lemma InFront(a: Bytes, b: Bytes, i: nat, j: nat)
    requires i <= j <= |a|
    ensures (a + b)[i..j] == a[i..j]
  {
  }

  /** The bytes two strings of equal length differ in, bit by bit. */
  predicate IsXor(x: Bytes, a: Bytes, b: Bytes)
    requires |a| == |b|
  {
    |x| == |a| && forall i :: 0 <= i < |x| ==> x[i] as bv8 == (a[i] as bv8) ^ (b[i] as bv8)
  }

  /**
   * The k-th 32 bytes of r, or what is left of them: a hash of b_0, mixed with the 32 bytes before from the
   * second block on, the block's number in one byte, and the tag.
   */
  ghost predicate IsBlock(h: Sha256, r: Bytes, b0: Digest32, dstPrime: Bytes, k: nat)
    requires 32 * k < |r|
  {
    var size := if 32 * k + 32 <= |r| then 32 else |r| - 32 * k;
    exists mixed: Bytes :: Mixes(mixed, r, b0, k) && r[32 * k..32 * k + size] == h(mixed + [(k + 1) % 256] + dstPrime)[..size]
  }

  /** b_0 itself for the first block, and its XOR with the 32 bytes before for every later one. */
  predicate Mixes(mixed: Bytes, r: Bytes, b0: Digest32, k: nat)
    requires 32 * k < |r|
  {
    if k == 0 then mixed == b0 else IsXor(mixed, b0, r[32 * k - 32..32 * k])
  }

  /** An expansion of len bytes, from a b_0 of zeros, message, length in two bytes, 0, tag and its length. */
  ghost predicate IsExpansion(h: Sha256, msg: Bytes, dst: Bytes, len: nat, r: Bytes)
    requires |dst| <= 255
  {
    var dstPrime: Bytes := dst + [|dst|];
    var b0 := h(seq(len, _ => 0) + msg + [len / 256 % 256, len % 256] + [0] + dstPrime);
    |r| == len && forall k: nat :: 32 * k < len ==> IsBlock(h, r, b0, dstPrime, k)
  }

  lemma UniformIsBlock(h: Sha256, b0: Digest32, dstPrime: Bytes, len: nat, k: nat)
    requires 32 * k < len
    ensures IsBlock(h, Uniform(h, b0, dstPrime, Ell(len))[..len], b0, dstPrime, k)
  {
    var all, r := Uniform(h, b0, dstPrime, Ell(len)), Uniform(h, b0, dstPrime, Ell(len))[..len];
    var size := if 32 * k + 32 <= len then 32 else len - 32 * k;
    OneByte(k + 1);
    UniformBlock(h, b0, dstPrime, Ell(len), k);
    CutShort(all, len, k, size);
    if k == 0 {
      assert Mixes(b0, r, b0, k);
      assert r[32 * k..32 * k + size] == h(b0 + [(k + 1) % 256] + dstPrime)[..size];
    } else {
      var previous := B(h, b0, dstPrime, k);
      UniformBlock(h, b0, dstPrime, Ell(len), k - 1);
      CutShort(all, len, k - 1, 32);
      assert 32 * (k - 1) == 32 * k - 32 && r[32 * k - 32..32 * k] == previous;
      XorIsXor(b0, previous);
      assert Mixes(XorBytes(b0, previous), r, b0, k);
      assert r[32 * k..32 * k + size] == h(XorBytes(b0, previous) + [(k + 1) % 256] + dstPrime)[..size];
    }
  }

  lemma ExpandedIsExpansion(h: Sha256, msg: Bytes, dst: Bytes, len: nat)
    requires |dst| <= 255
    ensures IsExpansion(h, msg, dst, len, Expanded(h, msg, dst, len, len))
  {
    var dstPrime: Bytes := dst + [|dst|];
    var b0 := h(seq(len, _ => 0) + msg + [len / 256 % 256, len % 256] + [0] + dstPrime);
    FirstInput(msg, dst, len);
    forall k: nat | 32 * k < len ensures IsBlock(h, Expanded(h, msg, dst, len, len), b0, dstPrime, k) {
      UniformIsBlock(h, b0, dstPrime, len, k);
    }
  }

  lemma FirstInput(msg: Bytes, dst: Bytes, len: nat)
    requires |dst| <= 255
    ensures I2OSP(|dst|, 1) == [|dst|]
    ensures Zeros(len) + msg + I2OSP(len, 2) + I2OSP(0, 1) + (dst + I2OSP(|dst|, 1))
            == seq(len, _ => 0) + msg + [len / 256 % 256, len % 256] + [0] + (dst + [|dst|])
  {
    OneByte(|dst|);
    OneByte(0);
    HighAndLow(len);
    assert Zeros(len) == seq(len, _ => 0);
  }

  lemma HighAndLow(x: nat)
    ensures I2OSP(x, 2) == [x / 256 % 256, x % 256]
  {
    OneByte(x / 256);
  }

  lemma CutShort(all: Bytes, len: nat, k: nat, size: nat)
    requires size <= 32 && 32 * k + size <= len <= |all| && 32 * k + 32 <= |all|
    ensures all[..len][32 * k..32 * k + size] == all[32 * k..32 * k + 32][..size]
  {
  }

  lemma XorIsXor(a: Digest32, b: Digest32)
    ensures IsXor(XorBytes(a, b), a, b)
  {
  }

  /** Where the RFC aborts; the code, whose casts cut, still returns `len` bytes of the same recursion. */
  lemma AbortsExactly(h: Sha256, msg: Bytes, dst: Bytes, len: nat, sInBytes: nat)
    ensures ExpandMessageXmd(h, msg, dst, len, sInBytes).None? <==> len > 255 * B_LEN || |dst| > 255
  {
  }
}
