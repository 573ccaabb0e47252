/** The byte strings the kernel feeds to its hash function. The data stream
    writes every integer field in little-endian order at its natural width
    (`uint256` 32 bytes, `uint64_t` 8 bytes, `unsigned int` 4 bytes) with no
    delimiters, so each preimage is a fixed concatenation of such fields. */
module Serial {
  import opened Common

  type byte = x: int | 0 <= x < 256

  /** The hash primitive (double SHA-256), an oracle over byte strings. */
  type Hasher = seq<byte> -> Hash256

  function Pow256(n: nat): (r: nat)
    ensures r >= 1
  {
    if n == 0 then 1 else 256 * Pow256(n - 1)
  }

  lemma Pow256Widths()
    ensures Pow256(4) == TWO_32 && Pow256(8) == TWO_64 && Pow256(32) == TWO_256
  {
    assert Pow256(4) == TWO_32;
    assert Pow256(8) == TWO_64;
    assert Pow256(16) == 0x1_0000_0000_0000_0000_0000_0000_0000_0000;
    assert Pow256(24) == 0x1_0000_0000_0000_0000_0000_0000_0000_0000_0000_0000_0000_0000;
    assert Pow256(28) == 0x1_0000_0000_0000_0000_0000_0000_0000_0000_0000_0000_0000_0000_0000_0000;
    assert Pow256(32) == TWO_256;
  }

  /** The `n`-byte little-endian encoding of `x` (the low `n` bytes). */
  function LE(x: nat, n: nat): (r: seq<byte>)
    ensures |r| == n
  {
    if n == 0 then [] else [x % 256] + LE(x / 256, n - 1)
  }

  /** Reads a little-endian byte string back into a number. */
  function FromLE(s: seq<byte>): (r: nat)
  {
    if s == [] then 0 else s[0] + 256 * FromLE(s[1..])
  }

  lemma {:induction false} FromLEBound(s: seq<byte>)
    ensures FromLE(s) < Pow256(|s|)
  {
    if s != [] {
      FromLEBound(s[1..]);
      assert FromLE(s) <= 255 + 256 * (Pow256(|s| - 1) - 1);
    }
  }

  /** Decoding an encoding gives the number back, whenever it fits. */
  lemma {:induction false} FromLEOfLE(x: nat, n: nat)
    requires x < Pow256(n)
    ensures FromLE(LE(x, n)) == x
  {
    if n > 0 {
      assert x / 256 < Pow256(n - 1);
      FromLEOfLE(x / 256, n - 1);
      assert LE(x, n)[1..] == LE(x / 256, n - 1);
    }
  }

  /** Encoding a decoded byte string gives the bytes back. */
  lemma {:induction false} LEOfFromLE(s: seq<byte>)
    ensures LE(FromLE(s), |s|) == s
  {
    if s != [] {
      LEOfFromLE(s[1..]);
      assert FromLE(s) % 256 == s[0];
      assert FromLE(s) / 256 == FromLE(s[1..]);
    }
  }

  /** Selection-hash preimage (kernel.cpp:99-100): the candidate block hash,
      then the previous 64-bit stake modifier. */
  function SelectionPreimage(blockHash: Hash256, prevModifier: uint64): (r: seq<byte>)
    ensures |r| == 40
  {
    LE(blockHash, 32) + LE(prevModifier, 8)
  }

  /** V2 stake modifier preimage (kernel.cpp:141-142): the kernel, then the
      previous block's V2 modifier. */
  function ModifierV2Preimage(kernel: Hash256, prevModifierV2: Hash256): (r: seq<byte>)
    ensures |r| == 64
  {
    LE(kernel, 32) + LE(prevModifierV2, 32)
  }

  /** V2 kernel preimage (kernel.cpp:311 and 357). */
  function KernelV2Preimage(modifierV2: Hash256, timeBlockFrom: uint32, prevoutHash: Hash256,
                            prevoutN: uint32, timeTx: uint32): (r: seq<byte>)
    ensures |r| == 76
  {
    LE(modifierV2, 32) + LE(timeBlockFrom, 4) + LE(prevoutHash, 32) + LE(prevoutN, 4) + LE(timeTx, 4)
  }

  /** The data stream prepared once by the V1 check (kernel.cpp:411-412). */
  function ModifierStream(modifier: uint64): (r: seq<byte>)
    ensures |r| == 8
  {
    LE(modifier, 8)
  }

  /** V1 kernel preimage: the modifier stream followed by what `stakeHash`
      appends (kernel.cpp:377). */
  function KernelV1Preimage(modifier: uint64, timeBlockFrom: uint32, prevoutN: uint32,
                            prevoutHash: Hash256, timeTx: uint32): (r: seq<byte>)
    ensures |r| == 52
  {
    ModifierStream(modifier) + LE(timeBlockFrom, 4) + LE(prevoutN, 4) + LE(prevoutHash, 32) + LE(timeTx, 4)
  }

  lemma FitsInWidths(x32: uint32, x64: uint64, x256: Hash256)
    ensures x32 < Pow256(4) && x64 < Pow256(8) && x256 < Pow256(32)
  {
    Pow256Widths();
  }

  /** The two parts of a concatenation are read back from their offsets. */
  lemma Slices2(a: seq<byte>, b: seq<byte>)
    ensures (a + b)[..|a|] == a && (a + b)[|a|..] == b
  {
  }

  /** The five parts of a concatenation are read back from their offsets. */
  lemma Slices5(a: seq<byte>, b: seq<byte>, c: seq<byte>, d: seq<byte>, e: seq<byte>)
    ensures var p, i, j, k, l := a + b + c + d + e, |a|, |a| + |b|, |a| + |b| + |c|, |a| + |b| + |c| + |d|;
      p[..i] == a && p[i..j] == b && p[j..k] == c && p[k..l] == d && p[l..] == e
  {
  }

  /** The selection preimage determines the block hash and the modifier. */
  lemma SelectionPreimageFields(blockHash: Hash256, prevModifier: uint64)
    ensures FromLE(SelectionPreimage(blockHash, prevModifier)[..32]) == blockHash
    ensures FromLE(SelectionPreimage(blockHash, prevModifier)[32..]) == prevModifier
  {
    Slices2(LE(blockHash, 32), LE(prevModifier, 8));
    FitsInWidths(0, prevModifier, blockHash);
    FromLEOfLE(blockHash, 32);
    FromLEOfLE(prevModifier, 8);
  }

  /** The V2 modifier preimage determines the kernel and the previous modifier. */
  lemma ModifierV2PreimageFields(kernel: Hash256, prevModifierV2: Hash256)
    ensures FromLE(ModifierV2Preimage(kernel, prevModifierV2)[..32]) == kernel
    ensures FromLE(ModifierV2Preimage(kernel, prevModifierV2)[32..]) == prevModifierV2
  {
    Slices2(LE(kernel, 32), LE(prevModifierV2, 32));
    FitsInWidths(0, 0, kernel);
    FitsInWidths(0, 0, prevModifierV2);
    FromLEOfLE(kernel, 32);
    FromLEOfLE(prevModifierV2, 32);
  }

  /** Each field of the V2 kernel preimage is read back from its offset. */
  lemma KernelV2PreimageFields(modifierV2: Hash256, timeBlockFrom: uint32, prevoutHash: Hash256,
                               prevoutN: uint32, timeTx: uint32)
    ensures var p := KernelV2Preimage(modifierV2, timeBlockFrom, prevoutHash, prevoutN, timeTx);
      && FromLE(p[..32]) == modifierV2
      && FromLE(p[32..36]) == timeBlockFrom
      && FromLE(p[36..68]) == prevoutHash
      && FromLE(p[68..72]) == prevoutN
      && FromLE(p[72..]) == timeTx
  {
    var a, b, c, d, e := LE(modifierV2, 32), LE(timeBlockFrom, 4), LE(prevoutHash, 32), LE(prevoutN, 4), LE(timeTx, 4);
    Slices5(a, b, c, d, e);
    FitsInWidths(timeBlockFrom, 0, modifierV2);
    FitsInWidths(prevoutN, 0, prevoutHash);
    FitsInWidths(timeTx, 0, 0);
    FromLEOfLE(modifierV2, 32);
    FromLEOfLE(timeBlockFrom, 4);
    FromLEOfLE(prevoutHash, 32);
    FromLEOfLE(prevoutN, 4);
    FromLEOfLE(timeTx, 4);
  }

  /** Each field of the V1 kernel preimage is read back from its offset. */
  lemma KernelV1PreimageFields(modifier: uint64, timeBlockFrom: uint32, prevoutN: uint32,
                               prevoutHash: Hash256, timeTx: uint32)
    ensures var p := KernelV1Preimage(modifier, timeBlockFrom, prevoutN, prevoutHash, timeTx);
      && FromLE(p[..8]) == modifier
      && FromLE(p[8..12]) == timeBlockFrom
      && FromLE(p[12..16]) == prevoutN
      && FromLE(p[16..48]) == prevoutHash
      && FromLE(p[48..]) == timeTx
  {
    var a, b, c, d, e := LE(modifier, 8), LE(timeBlockFrom, 4), LE(prevoutN, 4), LE(prevoutHash, 32), LE(timeTx, 4);
    Slices5(a, b, c, d, e);
    FitsInWidths(timeBlockFrom, modifier, prevoutHash);
    FitsInWidths(prevoutN, 0, 0);
    FitsInWidths(timeTx, 0, 0);
    FromLEOfLE(modifier, 8);
    FromLEOfLE(timeBlockFrom, 4);
    FromLEOfLE(prevoutN, 4);
    FromLEOfLE(prevoutHash, 32);
    FromLEOfLE(timeTx, 4);
  }

  /** Two V2 kernel preimages coincide only when all their fields do. */
  lemma KernelV2PreimageInjective(m1: Hash256, f1: uint32, h1: Hash256, n1: uint32, t1: uint32,
                                  m2: Hash256, f2: uint32, h2: Hash256, n2: uint32, t2: uint32)
    requires KernelV2Preimage(m1, f1, h1, n1, t1) == KernelV2Preimage(m2, f2, h2, n2, t2)
    ensures m1 == m2 && f1 == f2 && h1 == h2 && n1 == n2 && t1 == t2
  {
    KernelV2PreimageFields(m1, f1, h1, n1, t1);
    KernelV2PreimageFields(m2, f2, h2, n2, t2);
  }

  /** Two V1 kernel preimages coincide only when all their fields do. */
  lemma KernelV1PreimageInjective(m1: uint64, f1: uint32, n1: uint32, h1: Hash256, t1: uint32,
                                  m2: uint64, f2: uint32, n2: uint32, h2: Hash256, t2: uint32)
    requires KernelV1Preimage(m1, f1, n1, h1, t1) == KernelV1Preimage(m2, f2, n2, h2, t2)
    ensures m1 == m2 && f1 == f2 && n1 == n2 && h1 == h2 && t1 == t2
  {
    KernelV1PreimageFields(m1, f1, n1, h1, t1);
    KernelV1PreimageFields(m2, f2, n2, h2, t2);
  }
}
