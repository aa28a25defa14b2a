/**
 The streaming SHA-1 hasher of the name-based identifier generator, against the one-shot definition of
 sections 4 to 6.1 of RFC 3174. Octets are bv8, words are bv32.
 */
module Sha1 {
  import opened Bytes

  // ---- RFC 3174: words, functions, constants ----

  datatype Digest = Digest(a: bv32, b: bv32, c: bv32, d: bv32, e: bv32)

  const IV := Digest(0x67452301, 0xEFCDAB89, 0x98BADCFE, 0x10325476, 0xC3D2E1F0)

  // The two shifts are combined with XOR where the standard says OR.
  function LeftRotate1(v: bv32): (r: bv32)
    ensures r == v.RotateLeft(1) == (v << 1) | (v >> 31)
  {
    (v << 1) ^ (v >> 31)
  }

  function LeftRotate5(v: bv32): (r: bv32)
    ensures r == v.RotateLeft(5) == (v << 5) | (v >> 27)
  {
    (v << 5) ^ (v >> 27)
  }

  function LeftRotate30(v: bv32): (r: bv32)
    ensures r == v.RotateLeft(30) == (v << 30) | (v >> 2)
  {
    (v << 30) ^ (v >> 2)
  }

  function BigEndian(b0: bv8, b1: bv8, b2: bv8, b3: bv8): (w: bv32)
  {
    ((b0 as bv32) << 24) | ((b1 as bv32) << 16) | ((b2 as bv32) << 8) | (b3 as bv32)
  }

  // The first octet is the most significant one.
  lemma BigEndianReads(b0: bv8, b1: bv8, b2: bv8, b3: bv8)
    ensures var w := BigEndian(b0, b1, b2, b3);
            && (w >> 24) as bv8 == b0 && ((w >> 16) & 0xFF) as bv8 == b1
            && ((w >> 8) & 0xFF) as bv8 == b2 && (w & 0xFF) as bv8 == b3
  {
  }

  // The message schedule W(t) of a 64-octet block.
  function W(block: seq<bv8>, t: nat): (w: bv32)
    requires |block| == 64
  {
    if t < 16 then BigEndian(block[4 * t], block[4 * t + 1], block[4 * t + 2], block[4 * t + 3])
    else LeftRotate1(W(block, t - 3) ^ W(block, t - 8) ^ W(block, t - 14) ^ W(block, t - 16))
  }

  function F(t: nat, b: bv32, c: bv32, d: bv32): (r: bv32)
  {
    if t < 20 then (b & c) | (!b & d)
    else if t < 40 then b ^ c ^ d
    else if t < 60 then (b & c) | (b & d) | (c & d)
    else b ^ c ^ d
  }

  function K(t: nat): (r: bv32)
  {
    if t < 20 then 0x5A827999 else if t < 40 then 0x6ED9EBA1 else if t < 60 then 0x8F1BBCDC else 0xCA62C1D6
  }

  // The functions of section 5: c or d as b chooses, the parity, and the majority.
  lemma FIsChoiceParityMajority(t: nat, b: bv32, c: bv32, d: bv32)
    ensures t < 20 ==> F(t, b, c, d) & b == c & b && F(t, b, c, d) & !b == d & !b
    ensures 20 <= t < 40 || 60 <= t ==> F(t, b, c, d) ^ b ^ c == d
    ensures 40 <= t < 60 ==> F(t, b, c, d) & !(b ^ c) == b & !(b ^ c) && F(t, b, c, d) & (b ^ c) == d & (b ^ c)
  {
    hide F;
    if t < 20 {
      Choice(t, b, c, d);
    } else if t < 40 || 60 <= t {
      Parity(t, b, c, d);
    } else {
      Majority(t, b, c, d);
    }
  }

  lemma Choice(t: nat, b: bv32, c: bv32, d: bv32)
    requires t < 20
    ensures F(t, b, c, d) & b == c & b && F(t, b, c, d) & !b == d & !b
  {
  }

  lemma Parity(t: nat, b: bv32, c: bv32, d: bv32)
    requires 20 <= t < 40 || 60 <= t
    ensures F(t, b, c, d) ^ b ^ c == d
  {
    hide F;
    FIsXor(t, b, c, d);
    Cancels(b, c, d);
  }

  lemma FIsXor(t: nat, b: bv32, c: bv32, d: bv32)
    requires 20 <= t < 40 || 60 <= t
    ensures F(t, b, c, d) == b ^ c ^ d
  {
  }

  lemma Cancels(b: bv32, c: bv32, d: bv32)
    ensures b ^ c ^ d ^ b ^ c == d
  {
  }

  lemma Majority(t: nat, b: bv32, c: bv32, d: bv32)
    requires 40 <= t < 60
    ensures F(t, b, c, d) & !(b ^ c) == b & !(b ^ c) && F(t, b, c, d) & (b ^ c) == d & (b ^ c)
  {
    WhereEqual(b, c, d);
    WhereDifferent(b, c, d);
  }

  lemma WhereEqual(b: bv32, c: bv32, d: bv32)
    ensures ((b & c) | (b & d) | (c & d)) & !(b ^ c) == b & !(b ^ c)
  {
  }

  lemma WhereDifferent(b: bv32, c: bv32, d: bv32)
    ensures ((b & c) | (b & d) | (c & d)) & (b ^ c) == d & (b ^ c)
  {
  }

  // The constants are the whole parts of 2^30 times the roots of 2, 3, 5 and 10.
  lemma KIsRoot(t: nat)
    requires t < 80
    ensures var n := if t < 20 then 2 else if t < 40 then 3 else if t < 60 then 5 else 10;
            var k := K(t) as nat;
            k * k <= n * 0x1000_0000_0000_0000 < (k + 1) * (k + 1)
  {
  }

  // Read from the low octet on, the initial words are 01 23 45 67 89 AB CD EF, the same backwards, and F0 E1 D2 C3.
  lemma InitialWords()
    ensures IV.a as nat == 0x01 + 0x100 * (0x23 + 0x100 * (0x45 + 0x100 * 0x67))
    ensures IV.b as nat == 0x89 + 0x100 * (0xAB + 0x100 * (0xCD + 0x100 * 0xEF))
    ensures IV.c == !IV.a && IV.d == !IV.b
    ensures IV.e as nat == 0xF0 + 0x100 * (0xE1 + 0x100 * (0xD2 + 0x100 * 0xC3))
  {
  }

  function Temp(a: bv32, f: bv32, e: bv32, k: bv32, w: bv32): (r: bv32)
  {
    LeftRotate5(a) + f + e + k + w
  }

  // Each of the five words counts once.
  lemma TempCountsEach(a: bv32, f: bv32)
    ensures Temp(a, 0, 0, 0, 0) == a.RotateLeft(5)
    ensures Temp(0, f, 0, 0, 0) == f && Temp(0, 0, f, 0, 0) == f && Temp(0, 0, 0, f, 0) == f && Temp(0, 0, 0, 0, f) == f
  {
  }

  function Round(s: Digest, t: nat, w: bv32): (r: Digest)
  {
    Digest(Temp(s.a, F(t, s.b, s.c, s.d), s.e, K(t), w), s.a, LeftRotate30(s.b), s.c, s.d)
  }

  function Rounds(block: seq<bv8>, s: Digest, n: nat): (r: Digest)
    requires |block| == 64
  {
    if n == 0 then s else Round(Rounds(block, s, n - 1), n - 1, W(block, n - 1))
  }

  function RoundCount(): (n: nat)
    ensures n == 80
  {
    80
  }

  // Addition modulo 2^32.
  function Add(x: bv32, y: bv32): (r: bv32)
  {
    x + y
  }

  lemma AddWraps(x: bv32, y: bv32)
    ensures Add(x, y) as bv64 == (x as bv64 + y as bv64) & 0xFFFF_FFFF
  {
  }

  function Sum(h: Digest, s: Digest): (r: Digest)
  {
    Digest(Add(h.a, s.a), Add(h.b, s.b), Add(h.c, s.c), Add(h.d, s.d), Add(h.e, s.e))
  }

  function Compress(h: Digest, block: seq<bv8>): (r: Digest)
    requires |block| == 64
  {
    Sum(h, Rounds(block, h, RoundCount()))
  }

  // All complete blocks of a message, in order.
  function Blocks(m: seq<bv8>): (r: Digest)
    requires |m| % 64 == 0
  {
    if m == [] then IV else Compress(Blocks(m[..|m| - 64]), m[|m| - 64..])
  }

  // ---- RFC 3174 section 4: padding ----

  function Octets(s: seq<Octet>): (r: seq<bv8>)
    ensures |r| == |s|
  {
    seq(|s|, i requires 0 <= i < |s| => ToByte(s[i]))
  }

  function ToByte(x: Octet): (r: bv8)
  {
    x as bv8
  }

  lemma OctetsOf(bits: nat)
    ensures Octets(ShortField(bits)) ==
            [ToByte(0), ToByte(0), ToByte(0), ToByte(0), ToByte(bits / 0x100_0000 % 256), ToByte(bits / 0x1_0000 % 256),
             ToByte(bits / 0x100 % 256), ToByte(bits % 256)]
  {
  }

  // The length in bits as a big-endian 64-bit integer.
  function LengthField(bits: nat): (r: seq<Octet>)
    ensures |r| == 8
  {
    [bits / 0x100_0000_0000_0000 % 256, bits / 0x1_0000_0000_0000 % 256, bits / 0x100_0000_0000 % 256,
     bits / 0x1_0000_0000 % 256, bits / 0x100_0000 % 256, bits / 0x1_0000 % 256, bits / 0x100 % 256, bits % 256]
  }

  // The fewest zeros that leave exactly room for the length in the last block.
  function ZeroCount(n: nat): (z: nat)
    ensures z < 64 && (n + 1 + z) % 64 == 56
  {
    if n % 64 <= 55 then 55 - n % 64 else 119 - n % 64
  }

  function Zeros(n: nat): (r: seq<bv8>)
    ensures |r| == n
  {
    seq(n, _ => 0)
  }

  function PadWith(m: seq<bv8>, field: seq<Octet>): (r: seq<bv8>)
    requires |field| == 8
    ensures |r| % 64 == 0
  {
    m + [0x80] + Zeros(ZeroCount(|m|)) + Octets(field)
  }

  function Pad(m: seq<bv8>): (r: seq<bv8>)
    ensures |r| % 64 == 0
  {
    PadWith(m, LengthField(8 * |m|))
  }

  function Hash(m: seq<bv8>): (r: Digest)
  {
    Blocks(Pad(m))
  }

  // ---- the length the hasher appends ----

  // Four zero octets and the low 32 bits of the length.
  function ShortField(bits: nat): (r: seq<Octet>)
    ensures |r| == 8
  {
    [0, 0, 0, 0, bits / 0x100_0000 % 256, bits / 0x1_0000 % 256, bits / 0x100 % 256, bits % 256]
  }

  // For messages the standard covers, the appended length is right if and only if the message is shorter than
  // 2^29 octets.
  lemma ShortFieldExact(n: nat)
    requires n < 0x2000_0000_0000_0000
    ensures ShortField(8 * n) == LengthField(8 * n) <==> n < 0x2000_0000
  {
    var bits := 8 * n;
    var q := bits / 0x1_0000_0000;
    assert bits / 0x100_0000_0000 == q / 0x100 && bits / 0x1_0000_0000_0000 == q / 0x1_0000
           && bits / 0x100_0000_0000_0000 == q / 0x100_0000;
    HighOctets(q);
    var f, g := LengthField(bits), ShortField(bits);
    assert f == [q / 0x100_0000 % 256, q / 0x1_0000 % 256, q / 0x100 % 256, q % 256] + g[4..];
    assert g == [0, 0, 0, 0] + g[4..];
    assert f == g <==> f[0] == 0 && f[1] == 0 && f[2] == 0 && f[3] == 0;
  }

  lemma HighOctets(q: nat)
    requires q < 0x1_0000_0000
    ensures q % 256 == 0 && q / 0x100 % 256 == 0 && q / 0x1_0000 % 256 == 0 && q / 0x100_0000 % 256 == 0 <==> q == 0
  {
  }

  lemma BlocksStep(m: seq<bv8>, block: seq<bv8>)
    requires |m| % 64 == 0 && |block| == 64
    ensures Blocks(m + block) == Compress(Blocks(m), block)
  {
  }

  lemma NoZeros(m: seq<bv8>)
    ensures m + Zeros(0) == m
  {
  }

  lemma MoreZeros(m: seq<bv8>, n: nat)
    ensures m + Zeros(n + 1) == m + Zeros(n) + [0]
  {
  }

  lemma ZerosAdd(m: seq<bv8>, a: nat, b: nat)
    ensures m + Zeros(a) + Zeros(b) == m + Zeros(a + b)
  {
  }

  // ---- the hasher ----

  // The block buffer holds what was fed since the last full block. One more byte completes the block ...
  lemma BlockFilled(fed: seq<bv8>, block: seq<bv8>, octet: bv8)
    requires |block| == 64 && |fed| % 64 == 63 && block[..63] == fed[|fed| - 63..]
    ensures |fed[..|fed| - 63]| % 64 == 0 && fed + [octet] == fed[..|fed| - 63] + block[63 := octet]
  {
    var head := fed[..|fed| - 63];
    assert block[63 := octet] == block[..63] + [octet];
    assert fed == head + block[..63];
    assert head + (block[..63] + [octet]) == (head + block[..63]) + [octet];
  }

  // ... or joins it.
  lemma BlockGrows(fed: seq<bv8>, block: seq<bv8>, index: nat, octet: bv8)
    requires |block| == 64 && index == |fed| % 64 && index < 63 && block[..index] == fed[|fed| - index..]
    ensures block[index := octet][..index + 1] == (fed + [octet])[|fed| - index..]
    ensures (fed + [octet])[..|fed| - index] == fed[..|fed| - index]
    ensures |fed + [octet]| % 64 == index + 1
  {
    assert block[index := octet][..index + 1] == block[..index] + [octet];
    assert (fed + [octet])[|fed| - index..] == fed[|fed| - index..] + [octet];
  }

  class Hasher {
    const digest: array<bv32>
    const block: array<bv8>
    var blockByteIndex: nat
    var byteCount: nat
    // Everything processed since the last reset.
    ghost var fed: seq<bv8>

    ghost predicate Valid()
      reads this, digest, block
    {
      && digest.Length == 5 && block.Length == 64
      && blockByteIndex == |fed| % 64 && byteCount == |fed|
      && block[..blockByteIndex] == fed[|fed| - blockByteIndex..]
      && Words() == Blocks(fed[..|fed| - blockByteIndex])
    }

    ghost function Words(): (r: Digest)
      requires digest.Length == 5
      reads this, digest
    {
      Digest(digest[0], digest[1], digest[2], digest[3], digest[4])
    }

    constructor ()
      ensures Valid() && fed == [] && fresh(digest) && fresh(block)
    {
      digest := new bv32[5];
      block := new bv8[64];
      blockByteIndex, byteCount := 0, 0;
      new;
      Reset();
    }

    method Reset()
      requires digest.Length == 5 && block.Length == 64
      modifies this, digest
      ensures Valid() && fed == []
    {
      digest[0] := 0x67452301;
      digest[1] := 0xEFCDAB89;
      digest[2] := 0x98BADCFE;
      digest[3] := 0x10325476;
      digest[4] := 0xC3D2E1F0;
      blockByteIndex := 0;
      byteCount := 0;
      fed := [];
    }

    // The compression of one full block into the digest words.
    method ProcessBlock()
      requires digest.Length == 5 && block.Length == 64
      modifies digest
      ensures Words() == Compress(old(Words()), block[..])
    {
      hide W, Temp, Add, LeftRotate5, LeftRotate30, Rounds, RoundCount;
      ghost var m := block[..];
      var w := Schedule();
      var a, b, c, d, e := digest[0], digest[1], digest[2], digest[3], digest[4];
      ghost var h := Words();
      RoundsStart(m, h);
      for i := 0 to 80
        invariant Words() == h && forall j :: 0 <= j < 80 ==> w[j] == W(m, j)
        invariant Digest(a, b, c, d, e) == Rounds(m, h, i)
      {
        RoundsStep(m, h, i);
        var f: bv32, k: bv32;
        if i < 20 {
          f, k := (b & c) | (!b & d), 0x5A827999;
        } else if i < 40 {
          f, k := b ^ c ^ d, 0x6ED9EBA1;
        } else if i < 60 {
          f, k := (b & c) | (b & d) | (c & d), 0x8F1BBCDC;
        } else {
          f, k := b ^ c ^ d, 0xCA62C1D6;
        }
        assert f == F(i, b, c, d) && k == K(i);
        var temp := Temp(a, f, e, k, w[i]);
        e := d;
        d := c;
        c := LeftRotate30(b);
        b := a;
        a := temp;
      }
      digest[0] := Add(digest[0], a);
      digest[1] := Add(digest[1], b);
      digest[2] := Add(digest[2], c);
      digest[3] := Add(digest[3], d);
      digest[4] := Add(digest[4], e);
    }

    method Schedule() returns (w: array<bv32>)
      requires block.Length == 64
      ensures fresh(w) && w.Length == 80
      ensures forall i :: 0 <= i < 80 ==> w[i] == W(block[..], i)
    {
      hide BigEndian, LeftRotate1, W;
      w := new bv32[80];
      ghost var m := block[..];
      for i := 0 to 16
        invariant forall j :: 0 <= j < i ==> w[j] == W(m, j)
      {
        WSteps(m, i);
        w[i] := BigEndian(block[4 * i], block[4 * i + 1], block[4 * i + 2], block[4 * i + 3]);
      }
      for i := 16 to 80
        invariant forall j :: 0 <= j < i ==> w[j] == W(m, j)
      {
        WSteps(m, i);
        w[i] := LeftRotate1(w[i - 3] ^ w[i - 8] ^ w[i - 14] ^ w[i - 16]);
      }
    }

    method ProcessByte(octet: bv8)
      requires Valid()
      modifies this, digest, block
      ensures Valid() && fed == old(fed) + [octet]
      ensures blockByteIndex == if old(blockByteIndex) == 63 then 0 else old(blockByteIndex) + 1
      ensures blockByteIndex < 64
    {
      hide Compress, Blocks;
      ghost var head, was := fed[..|fed| - blockByteIndex], block[..];
      if blockByteIndex == 63 {
        BlockFilled(fed, block[..], octet);
      } else {
        BlockGrows(fed, block[..], blockByteIndex, octet);
      }
      block[blockByteIndex] := octet;
      assert block[..] == was[blockByteIndex := octet] && Words() == old(Words());
      assert block[..blockByteIndex + 1] == block[..][..blockByteIndex + 1];
      blockByteIndex := blockByteIndex + 1;
      byteCount := byteCount + 1;
      fed := fed + [octet];
      if blockByteIndex == 64 {
        blockByteIndex := 0;
        BlocksStep(head, block[..]);
        ProcessBlock();
        assert fed[..|fed|] == fed;
      }
    }

    method ProcessBytes(data: seq<bv8>)
      requires Valid()
      modifies this, digest, block
      ensures Valid() && fed == old(fed) + data
    {
      hide Compress, Blocks;
      assert data[..0] == [];
      for i := 0 to |data|
        invariant Valid() && fed == old(fed) + data[..i]
      {
        ProcessByte(data[i]);
        assert data[..i + 1] == data[..i] + [data[i]];
      }
      assert data[..|data|] == data;
    }

    // Feeds zeros until the block position is `target`.
    method FeedZerosTo(target: nat)
      requires Valid() && target < 64
      requires target == 0 || blockByteIndex <= target
      modifies this, digest, block
      ensures Valid() && blockByteIndex == target
      ensures var start := old(blockByteIndex);
              fed == old(fed) + Zeros(if target == 0 && start > 0 then 64 - start else target - start)
    {
      hide Compress, Blocks, Zeros;
      ghost var start, m, count := blockByteIndex, fed, 0;
      NoZeros(m);
      while blockByteIndex != target
        invariant Valid() && fed == m + Zeros(count)
        invariant count == if blockByteIndex == 0 && start > 0 then 64 - start else blockByteIndex - start
        invariant if target == 0 then blockByteIndex == 0 || start <= blockByteIndex < 64
                  else start <= blockByteIndex <= target
        decreases if blockByteIndex == target then 0 else 64 - blockByteIndex
      {
        MoreZeros(m, count);
        ProcessByte(0);
        count := count + 1;
      }
    }

    // Up to position 56, running over the end of the block when the position is beyond that.
    method FeedZeros()
      requires Valid()
      modifies this, digest, block
      ensures Valid() && blockByteIndex == 56
      ensures var start := old(blockByteIndex);
              fed == old(fed) + Zeros(if start <= 56 then 56 - start else 120 - start)
    {
      hide Compress, Blocks, Zeros;
      if blockByteIndex > 56 {
        ZerosAdd(fed, 64 - blockByteIndex, 56);
        FeedZerosTo(0);
        FeedZerosTo(56);
      } else {
        FeedZerosTo(56);
      }
    }

    // Pads, and reads the words off. The hasher must be reset before it is used again.
    method GetDigest() returns (r: Digest)
      requires Valid()
      modifies this, digest, block
      ensures Valid()
      ensures r == Blocks(PadWith(old(fed), ShortField(8 * |old(fed)|)))
      ensures |old(fed)| < 0x2000_0000 ==> r == Hash(old(fed))
    {
      hide Compress, Blocks, Zeros, ZeroCount, LengthField, ShortField, Octets, ToByte;
      ghost var m := fed;
      var bitCount := byteCount * 8;
      ProcessByte(0x80);
      ZeroCountIs(|m|);
      FeedZeros();
      ghost var padded := fed;
      assert padded == m + [0x80] + Zeros(ZeroCount(|m|));
      var tail := [ToByte(0), ToByte(0), ToByte(0), ToByte(0), ToByte(bitCount / 0x100_0000 % 256),
                   ToByte(bitCount / 0x1_0000 % 256), ToByte(bitCount / 0x100 % 256), ToByte(bitCount % 256)];
      OctetsOf(bitCount);
      ProcessBytes(tail);
      assert fed == PadWith(m, ShortField(8 * |m|));
      assert fed[..|fed|] == fed;
      r := Digest(digest[0], digest[1], digest[2], digest[3], digest[4]);
      if |m| < 0x2000_0000 {
        ShortFieldExact(|m|);
      }
    }
  }

  lemma ZeroCountIs(n: nat)
    ensures var i := (n + 1) % 64; ZeroCount(n) == if i <= 56 then 56 - i else 120 - i
  {
  }

  lemma RoundsStart(m: seq<bv8>, h: Digest)
    requires |m| == 64
    ensures Rounds(m, h, 0) == h
  {
  }

  lemma RoundsStep(m: seq<bv8>, h: Digest, i: nat)
    requires |m| == 64
    ensures Rounds(m, h, i + 1) == Round(Rounds(m, h, i), i, W(m, i))
  {
  }

  lemma WSteps(m: seq<bv8>, i: nat)
    requires |m| == 64
    ensures i < 16 ==> W(m, i) == BigEndian(m[4 * i], m[4 * i + 1], m[4 * i + 2], m[4 * i + 3])
    ensures i >= 16 ==> W(m, i) == LeftRotate1(W(m, i - 3) ^ W(m, i - 8) ^ W(m, i - 14) ^ W(m, i - 16))
  {
  }

  // However the input is cut into calls, the digest is that of the whole message.
  method DigestOfPieces(pieces: seq<seq<bv8>>) returns (r: Digest)
    requires |Concat(pieces)| < 0x2000_0000
    ensures r == Hash(Concat(pieces))
  {
    hide Compress, Blocks, Concat;
    var h := new Hasher();
    ConcatNothing(pieces);
    for i := 0 to |pieces|
      invariant fresh(h) && fresh(h.digest) && fresh(h.block) && h.Valid() && h.fed == Concat(pieces[..i])
    {
      ConcatStep(pieces, i);
      h.ProcessBytes(pieces[i]);
    }
    assert pieces[..|pieces|] == pieces;
    r := h.GetDigest();
  }

  function Concat(pieces: seq<seq<bv8>>): (r: seq<bv8>)
  {
    if pieces == [] then [] else Concat(pieces[..|pieces| - 1]) + pieces[|pieces| - 1]
  }

  lemma ConcatNothing(pieces: seq<seq<bv8>>)
    ensures Concat(pieces[..0]) == []
  {
  }

  lemma ConcatStep(pieces: seq<seq<bv8>>, i: nat)
    requires i < |pieces|
    ensures Concat(pieces[..i + 1]) == Concat(pieces[..i]) + pieces[i]
  {
    assert pieces[..i + 1][..i] == pieces[..i];
  }
}
