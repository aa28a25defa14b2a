/**
 The portable 64x64 to 128-bit multiplication behind the table's hash, on 64-bit words that wrap.
 */
module Wyhash {
  const W32: nat := 0x1_0000_0000
  const W64: nat := 0x1_0000_0000_0000_0000

  type U64 = x: nat | x < W64 witness 0

  function Wrap(x: nat): (r: U64)
  {
    x % W64
  }

  // Addition that wraps, and the carry that is read off by comparing the sum with the first summand.
  lemma WrappedAdd(x: U64, y: U64)
    ensures x + y == Wrap(x + y) + (if Wrap(x + y) < x then W64 else 0)
  {
  }

  // A left shift by 32 keeps the low half of the word.
  lemma ShiftedWord(x: U64)
    ensures Wrap(x * W32) == (x % W32) * W32
    ensures x == (x / W32) * W32 + x % W32
  {
  }

  // The schoolbook product of two numbers split into halves.
  lemma SplitProduct(ha: nat, la: nat, hb: nat, lb: nat)
    ensures (ha * W32 + la) * (hb * W32 + lb) == (ha * hb) * W64 + (ha * lb + hb * la) * W32 + la * lb
  {
    assert (ha * W32 + la) * (hb * W32 + lb) == (ha * W32) * (hb * W32 + lb) + la * (hb * W32 + lb);
    assert (ha * W32) * (hb * W32) == (ha * hb) * (W32 * W32);
    assert (ha * W32) * lb == (ha * lb) * W32;
    assert la * (hb * W32) == (hb * la) * W32;
  }

  lemma ProductBound(x: nat, y: nat, n: nat)
    requires x < n && y < n
    ensures x * y <= (n - 1) * (n - 1)
  {
    assert x * y <= x * (n - 1);
    assert x * (n - 1) <= (n - 1) * (n - 1);
  }

  // A product of two halves fits a word.
  function HalfProduct(x: nat, y: nat): (r: U64)
    requires x < W32 && y < W32
    ensures r == x * y
  {
    ProductBound(x, y, W32);
    x * y
  }

  // The two words written back hold the full product: low word first, then high word.
  method Mum(a: U64, b: U64) returns (lo: U64, hi: U64)
    ensures hi * W64 + lo == a * b
  {
    hide Wrap, HalfProduct;
    var ha, hb, la, lb := a / W32, b / W32, a % W32, b % W32;
    var rh, rm0, rm1, rl := HalfProduct(ha, hb), HalfProduct(ha, lb), HalfProduct(hb, la), HalfProduct(la, lb);
    var t := Wrap(rl + Wrap(rm0 * W32));
    var c := if t < rl then 1 else 0;
    lo := Wrap(t + Wrap(rm1 * W32));
    c := c + if lo < t then 1 else 0;
    hi := Wrap(rh + rm0 / W32 + rm1 / W32 + c);
    WordsAddUp(a, b, rh, rm0, rm1, rl, t, lo, c);
    HighWordFits(a, b, rh + rm0 / W32 + rm1 / W32 + c, lo);
  }

  lemma WordsAddUp(a: U64, b: U64, rh: U64, rm0: U64, rm1: U64, rl: U64, t: U64, lo: U64, c: nat)
    requires rh == HalfProduct(a / W32, b / W32) && rm0 == HalfProduct(a / W32, b % W32)
    requires rm1 == HalfProduct(b / W32, a % W32) && rl == HalfProduct(a % W32, b % W32)
    requires t == Wrap(rl + Wrap(rm0 * W32)) && lo == Wrap(t + Wrap(rm1 * W32))
    requires c == (if t < rl then 1 else 0) + (if lo < t then 1 else 0)
    ensures (rh + rm0 / W32 + rm1 / W32 + c) * W64 + lo == a * b
  {
    ShiftedWord(a);
    ShiftedWord(b);
    SplitProduct(a / W32, a % W32, b / W32, b % W32);
    ShiftedWord(rm0);
    ShiftedWord(rm1);
    WrappedAdd(rl, Wrap(rm0 * W32));
    WrappedAdd(t, Wrap(rm1 * W32));
  }

  // Both carries are already in: the high word of a product of two 64-bit words needs no 65th bit.
  lemma HighWordFits(a: U64, b: U64, exact: nat, lo: U64)
    requires exact * W64 + lo == a * b
    ensures Wrap(exact) == exact
  {
    ProductBound(a, b, W64);
  }
}
