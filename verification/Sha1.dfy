/**
 * Streaming SHA-1 as the launcher computes it, against the hash of FIPS 180-4: padding by
 * section 5.1.1, message schedule and compression by section 6.1.2.
 */
module Sha1 {

  type byte = x: int | 0 <= x < 256

  const TWO_TO_64 := 0x1_0000_0000_0000_0000

  // ----- FIPS 180-4 ------------------------------------------------------------------------

  /** Addition modulo 2^32 and rotation to the left, section 3.2. */
  function Add(x: bv32, y: bv32): bv32 { x + y }

  function Rotl(x: bv32, n: nat): bv32
    requires n < 32
  {
    x.RotateLeft(n)
  }

  function Ch(x: bv32, y: bv32, z: bv32): bv32 { (x & y) ^ (!x & z) }

  function Parity(x: bv32, y: bv32, z: bv32): bv32 { x ^ y ^ z }

  function Maj(x: bv32, y: bv32, z: bv32): bv32 { (x & y) ^ (x & z) ^ (y & z) }

  /** Section 4.1.1. */
  function F(t: nat, x: bv32, y: bv32, z: bv32): bv32 {
    if t < 20 then Ch(x, y, z) else if t < 40 then Parity(x, y, z) else if t < 60 then Maj(x, y, z) else Parity(x, y, z)
  }

  /** Section 4.2.1. */
  function K(t: nat): bv32 {
    if t < 20 then 0x5A827999 else if t < 40 then 0x6ED9EBA1 else if t < 60 then 0x8F1BBCDC else 0xCA62C1D6
  }

  /** Section 5.3.1. */
  const IV: seq<bv32> := [0x67452301, 0xEFCDAB89, 0x98BADCFE, 0x10325476, 0xC3D2E1F0]

  type Block = b: seq<byte> | |b| == 64 witness seq(64, _ => 0)

  function Word(b: seq<byte>): bv32
    requires |b| == 4
  {
    var n: nat := b[0] as int * 0x1000000 + b[1] as int * 0x10000 + b[2] as int * 0x100 + b[3] as int;
    n as bv32
  }

  function Xor4(x: bv32, y: bv32, z: bv32, u: bv32): bv32 { x ^ y ^ z ^ u }

  /** The message schedule, section 6.1.2 step 1. */
  function W(block: Block, t: nat): bv32 {
    if t < 16 then Word(block[4 * t..4 * t + 4])
    else Rotl(Xor4(W(block, t - 3), W(block, t - 8), W(block, t - 14), W(block, t - 16)), 1)
  }

  datatype Vars = Vars(a: bv32, b: bv32, c: bv32, d: bv32, e: bv32)

  /** One round, section 6.1.2 step 3. */
  function Round(v: Vars, t: nat, w: bv32): Vars {
    Vars(Add(Add(Add(Add(Rotl(v.a, 5), F(t, v.b, v.c, v.d)), v.e), K(t)), w), v.a, Rotl(v.b, 30), v.c, v.d)
  }

  function Rounds(v: Vars, block: Block, t: nat): Vars {
    if t == 0 then v else Round(Rounds(v, block, t - 1), t - 1, W(block, t - 1))
  }

  type Words = h: seq<bv32> | |h| == 5 witness [0, 0, 0, 0, 0]

  /** The intermediate hash value after one block, section 6.1.2 steps 2 to 4. */
  function Compress(h: Words, block: Block): Words {
    var v := Rounds(Vars(h[0], h[1], h[2], h[3], h[4]), block, 80);
    [Add(h[0], v.a), Add(h[1], v.b), Add(h[2], v.c), Add(h[3], v.d), Add(h[4], v.e)]
  }

  function CompressAll(h: Words, m: seq<byte>): Words
    requires |m| % 64 == 0
  {
    if m == [] then h else Compress(CompressAll(h, m[..|m| - 64]), m[|m| - 64..])
  }

  function Zeros(n: nat): (z: seq<byte>)
    ensures |z| == n
  {
    if n == 0 then [] else Zeros(n - 1) + [0]
  }

  /** n as k bytes, the most significant first. */
  function BigEndian(n: nat, k: nat): (b: seq<byte>)
    ensures |b| == k
  {
    if k == 0 then [] else BigEndian(n / 256, k - 1) + [n % 256]
  }

  /** The number that some bytes stand for, the most significant first. */
  function ValueOf(b: seq<byte>): nat {
    if b == [] then 0 else 256 * ValueOf(b[..|b| - 1]) + b[|b| - 1]
  }

  function Pow256(k: nat): (p: nat)
    ensures p > 0
  {
    if k == 0 then 1 else 256 * Pow256(k - 1)
  }

  lemma DivDiv(n: nat, p: nat)
    requires p > 0
    ensures n / 256 / p == n / (256 * p)
  {
    var q := n / 256 / p;
    assert n == 256 * (n / 256) + n % 256 && n / 256 == p * q + n / 256 % p;
    var rest := 256 * (n / 256 % p) + n % 256;
    assert n == (256 * p) * q + rest by {
      assert 256 * (p * q) == (256 * p) * q;
    }
    assert 0 <= rest < 256 * p by {
      assert n / 256 % p <= p - 1;
    }
    DivIs(n, 256 * p, q, rest);
  }

  lemma DivIs(n: nat, d: nat, q: nat, rest: nat)
    requires d > 0 && n == d * q + rest && rest < d
    ensures n / d == q
  {
    var r := n / d;
    assert n == d * r + n % d;
    assert r <= q - 1 ==> d * r <= d * (q - 1);
    assert r >= q + 1 ==> d * r >= d * (q + 1);
  }

  lemma ModSplit(n: nat, p: nat)
    requires p > 0
    ensures n % (256 * p) == 256 * (n / 256 % p) + n % 256
  {
    var q, rest := n / 256 / p, 256 * (n / 256 % p) + n % 256;
    assert n / 256 == p * q + n / 256 % p;
    assert 256 * (p * q) == (256 * p) * q;
    assert n / 256 % p <= p - 1;
    DivIs(n, 256 * p, q, rest);
    assert n == (256 * p) * (n / (256 * p)) + n % (256 * p);
  }

  /** Byte i of k has the weight of the k - 1 - i bytes after it. */
  lemma {:induction false} BigEndianByte(n: nat, k: nat, i: nat)
    requires i < k
    ensures BigEndian(n, k)[i] == n / Pow256(k - 1 - i) % 256
  {
    if i < k - 1 {
      BigEndianByte(n / 256, k - 1, i);
      DivDiv(n, Pow256(k - 2 - i));
    }
  }

  lemma {:induction false} BigEndianValue(n: nat, k: nat)
    ensures ValueOf(BigEndian(n, k)) == n % Pow256(k)
  {
    if k > 0 {
      BigEndianValue(n / 256, k - 1);
      assert BigEndian(n, k)[..k - 1] == BigEndian(n / 256, k - 1);
      ModSplit(n, Pow256(k - 1));
    }
  }

  /** A word is the number that its four bytes stand for. */
  lemma WordValue(b: seq<byte>)
    requires |b| == 4
    ensures ValueOf(b) < 0x1_0000_0000 && Word(b) == ValueOf(b) as bv32
  {
    assert b[..3][..2][..1][..0] == [];
    assert ValueOf(b[..3][..2][..1]) == b[0];
    assert ValueOf(b[..3][..2]) == 256 * (b[0] as int) + b[1];
    assert ValueOf(b[..3]) == 256 * (256 * (b[0] as int) + b[1]) + b[2];
  }

  /** The number of zero bytes between the byte 0x80 and the length. */
  function PadZeros(n: nat): nat { (55 - n) % 64 }

  /** The padded message; the length field holds the bit length modulo 2^64. */
  function Padded(m: seq<byte>): (p: seq<byte>)
    ensures |p| % 64 == 0
  {
    PaddedLength(|m|);
    m + [0x80] + Zeros(PadZeros(|m|)) + BigEndian(8 * |m| % TWO_TO_64, 8)
  }

  /** The padded message ends in eight bytes that stand for its length in bits. */
  lemma LengthField(m: seq<byte>)
    ensures |Padded(m)| >= 8 && ValueOf(Padded(m)[|Padded(m)| - 8..]) == 8 * |m| % TWO_TO_64
    ensures |m| < 0x2000_0000_0000_0000 ==> ValueOf(Padded(m)[|Padded(m)| - 8..]) == 8 * |m|
  {
    hide BigEndian, Zeros;
    var field := BigEndian(8 * |m| % TWO_TO_64, 8);
    assert Padded(m)[|Padded(m)| - 8..] == field;
    BigEndianValue(8 * |m| % TWO_TO_64, 8);
    assert Pow256(8) == TWO_TO_64 by { assert Pow256(4) == 0x1_0000_0000; }
  }

  lemma PaddedLength(n: nat)
    ensures (n + 1 + PadZeros(n) + 8) % 64 == 0
  {
    var q := (55 - n) / 64;
    assert 55 - n == 64 * q + PadZeros(n);
    assert n + 1 + PadZeros(n) + 8 == 64 * (1 - q);
  }

  /** k zero bits bring an l bit message, its end mark and the zeros to 448 modulo 512 (section 5.1.1). */
  predicate PadSolves(l: nat, k: nat) {
    (l + 1 + k) % 512 == 448
  }

  /** The padding is that of the standard: the end mark byte carries seven of the k zero bits, and k is least. */
  lemma PaddingIsLeast(n: nat)
    ensures PadSolves(8 * n, 7 + 8 * PadZeros(n))
    ensures forall k: nat :: PadSolves(8 * n, k) ==> 7 + 8 * PadZeros(n) <= k
    ensures n < 0x2000_0000_0000_0000 ==> 8 * n % TWO_TO_64 == 8 * n
  {
    var z := PadZeros(n);
    assert (55 - n) % 64 == z;
    assert exists q :: 55 - n == 64 * q + z by { assert 55 - n == 64 * ((55 - n) / 64) + z; }
    var q :| 55 - n == 64 * q + z;
    assert 8 * n + 1 + (7 + 8 * z) == 448 - 512 * q;
    forall k: nat | PadSolves(8 * n, k) ensures 7 + 8 * z <= k {
      var p := (8 * n + 1 + k) / 512;
      assert 8 * n + 1 + k == 512 * p + 448;
      assert k == 512 * (p + q) + 7 + 8 * z;
      assert 8 * z + 7 < 512;
    }
  }

  function Digest(m: seq<byte>): Words { CompressAll(IV, Padded(m)) }

  // ----- hexadecimal output ----------------------------------------------------------------

  function HexDigit(n: bv32): char {
    if n == 0 then '0' else if n == 1 then '1' else if n == 2 then '2' else if n == 3 then '3'
    else if n == 4 then '4' else if n == 5 then '5' else if n == 6 then '6' else if n == 7 then '7'
    else if n == 8 then '8' else if n == 9 then '9' else if n == 10 then 'a' else if n == 11 then 'b'
    else if n == 12 then 'c' else if n == 13 then 'd' else if n == 14 then 'e' else 'f'
  }

  lemma HexDigits(n: bv32)
    requires n <= 15
    ensures HexDigit(n) == "0123456789abcdef"[n as int]
  {
  }

  /** The i-th hexadecimal digit of w, the least significant being digit 0. */
  function Nibble(w: bv32, i: nat): (n: bv32)
    requires i < 8
  {
    if i == 0 then w & 0xF else if i == 1 then (w >> 4) & 0xF else if i == 2 then (w >> 8) & 0xF
    else if i == 3 then (w >> 12) & 0xF else if i == 4 then (w >> 16) & 0xF else if i == 5 then (w >> 20) & 0xF
    else if i == 6 then (w >> 24) & 0xF else (w >> 28) & 0xF
  }

  function HexWord(w: bv32): (s: string)
    ensures |s| == 8
  {
    [HexDigit(Nibble(w, 7)), HexDigit(Nibble(w, 6)), HexDigit(Nibble(w, 5)), HexDigit(Nibble(w, 4)),
     HexDigit(Nibble(w, 3)), HexDigit(Nibble(w, 2)), HexDigit(Nibble(w, 1)), HexDigit(Nibble(w, 0))]
  }

  function Hex(h: Words): string {
    HexWord(h[0]) + (HexWord(h[1]) + (HexWord(h[2]) + (HexWord(h[3]) + HexWord(h[4]))))
  }

  lemma HexDigitInjective(m: bv32, n: bv32)
    requires m <= 15 && n <= 15 && HexDigit(m) == HexDigit(n)
    ensures m == n
  {
  }

  lemma LowNibble(x: bv32)
    ensures x & 0xF <= 15
  {
  }

  lemma NibbleSmall(w: bv32, i: nat)
    requires i < 8
    ensures Nibble(w, i) <= 15
  {
    LowNibble(if i == 0 then w else if i == 1 then w >> 4 else if i == 2 then w >> 8 else if i == 3 then w >> 12
      else if i == 4 then w >> 16 else if i == 5 then w >> 20 else if i == 6 then w >> 24 else w >> 28);
  }

  lemma MaskedNibblesDetermine(v: bv32, w: bv32)
    requires (v >> 28) & 0xF == (w >> 28) & 0xF && (v >> 24) & 0xF == (w >> 24) & 0xF
    requires (v >> 20) & 0xF == (w >> 20) & 0xF && (v >> 16) & 0xF == (w >> 16) & 0xF
    requires (v >> 12) & 0xF == (w >> 12) & 0xF && (v >> 8) & 0xF == (w >> 8) & 0xF
    requires (v >> 4) & 0xF == (w >> 4) & 0xF && v & 0xF == w & 0xF
    ensures v == w
  {
  }

  /** A word is determined by its eight digits. */
  lemma NibblesDetermine(v: bv32, w: bv32)
    requires Nibble(v, 0) == Nibble(w, 0) && Nibble(v, 1) == Nibble(w, 1) && Nibble(v, 2) == Nibble(w, 2)
    requires Nibble(v, 3) == Nibble(w, 3) && Nibble(v, 4) == Nibble(w, 4) && Nibble(v, 5) == Nibble(w, 5)
    requires Nibble(v, 6) == Nibble(w, 6) && Nibble(v, 7) == Nibble(w, 7)
    ensures v == w
  {
    MaskedNibblesDetermine(v, w);
  }

  lemma HexWordInjective(v: bv32, w: bv32)
    requires HexWord(v) == HexWord(w)
    ensures v == w
  {
    hide HexDigit, Nibble;
    forall i | 0 <= i < 8 ensures Nibble(v, i) == Nibble(w, i) {
      assert HexWord(v)[7 - i] == HexWord(w)[7 - i];
      NibbleSmall(v, i);
      NibbleSmall(w, i);
      HexDigitInjective(Nibble(v, i), Nibble(w, i));
    }
    NibblesDetermine(v, w);
  }

  lemma SplitEqual(a: string, b: string, c: string, d: string)
    requires |a| == |c| && a + b == c + d
    ensures a == c && b == d
  {
    assert (a + b)[..|a|] == a && (c + d)[..|a|] == c;
    assert (a + b)[|a|..] == b && (c + d)[|a|..] == d;
  }

  /** Comparing the printed digests compares the digests. */
  lemma HexInjective(g: Words, h: Words)
    requires Hex(g) == Hex(h)
    ensures g == h
  {
    hide HexWord;
    var g4, h4 := HexWord(g[4]), HexWord(h[4]);
    var g3, h3 := HexWord(g[3]) + g4, HexWord(h[3]) + h4;
    var g2, h2 := HexWord(g[2]) + g3, HexWord(h[2]) + h3;
    var g1, h1 := HexWord(g[1]) + g2, HexWord(h[1]) + h2;
    SplitEqual(HexWord(g[0]), g1, HexWord(h[0]), h1);
    SplitEqual(HexWord(g[1]), g2, HexWord(h[1]), h2);
    SplitEqual(HexWord(g[2]), g3, HexWord(h[2]), h3);
    SplitEqual(HexWord(g[3]), g4, HexWord(h[3]), h4);
    forall i | 0 <= i < 5 ensures g[i] == h[i] {
      HexWordInjective(g[i], h[i]);
    }
  }
}
