/** Bytes, bits and the little-endian 32-bit length prefix shared by every carrier.

    A byte is an integer in 0..255, and the source's bit operations on it are written
    out arithmetically: `c & 1` is `c % 2`, `(c & 0xFE) | bit` is `c - c % 2 + bit`,
    `(b >> k) & 1` is `b / 2^k % 2`, and `byte |= bit << k` on a byte whose bits k and
    above are still clear is `byte + bit * 2^k`. */
module Bytes {

  type byte = x: int | 0 <= x < 256

  /** A single bit, as the 0/1 value `(b >> k) & 1` yields. */
  type bit = x: int | 0 <= x < 2

  const TWO_POW_32: nat := 0x1_0000_0000

  /** `n as u32`: Rust's truncating conversion of a length to 32 bits. */
  function U32(n: nat): (r: nat)
    ensures r < TWO_POW_32
    ensures n < TWO_POW_32 ==> r == n
  {
    n % TWO_POW_32
  }

  /** `1 << k` for the shift amounts a byte allows. */
  function Pow2(k: nat): (r: nat)
    requires k <= 8
    ensures 0 < r <= 256
  {
    if k == 0 then 1 else if k == 1 then 2 else if k == 2 then 4 else if k == 3 then 8
    else if k == 4 then 16 else if k == 5 then 32 else if k == 6 then 64
    else if k == 7 then 128 else 256
  }

  /** `1 << k` is twice `1 << (k - 1)`. */
  lemma Pow2Step(k: nat)
    requires 0 < k <= 8
    ensures Pow2(k) == 2 * Pow2(k - 1)
  {
  }

  /** Bit `k` of `b`, bit 0 being the least significant: `(b >> k) & 1`. */
  function BitOf(b: byte, k: nat): bit
    requires k < 8
  {
    b / Pow2(k) % 2
  }

  /** The least-significant bit of a channel value: `c & 1`. */
  function Lsb(c: byte): bit
  {
    c % 2
  }

  /** `(c & 0xFE) | bit`: replace the least-significant bit of `c` by `bit`; the upper
      seven bits, `c / 2`, are kept. */
  function WithLsb(c: byte, b: bit): (r: byte)
    ensures Lsb(r) == b
    ensures r / 2 == c / 2
    ensures Lsb(c) == b ==> r == c
  {
    c - c % 2 + b
  }

  /** The eight bits of `b`, least significant first. */
  function ByteBits(b: byte): (r: seq<bit>)
    ensures |r| == 8
    ensures forall k :: 0 <= k < 8 ==> r[k] == BitOf(b, k)
  {
    seq(8, k requires 0 <= k < 8 => BitOf(b, k))
  }

  /** The value an extractor builds from `bits` by `byte |= bit << k` for k = 0, 1, ....
      On bits that are 0 or 1 it is a byte. */
  function Assemble(bits: seq<bit>): (r: nat)
    requires |bits| <= 8
    ensures r < Pow2(|bits|)
    decreases |bits|
  {
    if |bits| == 0 then 0
    else
      Pow2Step(|bits|);
      Assemble(bits[..|bits| - 1]) + bits[|bits| - 1] * Pow2(|bits| - 1)
  }

  lemma MulLe(m: nat, a: nat, b: nat)
    requires a <= b
    ensures m * a <= m * b
  {
    assert m * b == m * a + m * (b - a);
  }

  /** Quotient and remainder are unique. */
  lemma DivMod(n: nat, m: nat, q: nat, r: nat)
    requires m > 0 && n == m * q + r && r < m
    ensures n / m == q && n % m == r
  {
    var q', r' := n / m, n % m;
    assert n == m * q' + r';
    if q' < q {
      MulLe(m, q' + 1, q);
      assert false;
    }
    if q < q' {
      MulLe(m, q + 1, q');
      assert false;
    }
  }

  /** The low k+1 bits of `b` are its low k bits plus bit k. */
  lemma LowBitsStep(b: nat, k: nat)
    requires k < 8
    ensures b % Pow2(k + 1) == b % Pow2(k) + (b / Pow2(k) % 2) * Pow2(k)
  {
    var p := Pow2(k);
    Pow2Step(k + 1);
    var q, r := b / p, b % p;
    var q2, t := q / 2, q % 2;
    assert b == p * q + r;
    assert p * q == (2 * p) * q2 + p * t by {
      assert q == 2 * q2 + t;
    }
    MulLe(p, t, 1);
    DivMod(b, 2 * p, q2, p * t + r);
  }

  lemma {:induction false} AssemblePrefix(b: byte, k: nat)
    requires k <= 8
    ensures Assemble(ByteBits(b)[..k]) == b % Pow2(k)
  {
    if k > 0 {
      var bits := ByteBits(b);
      assert bits[..k][..k - 1] == bits[..k - 1];
      AssemblePrefix(b, k - 1);
      LowBitsStep(b, k - 1);
    }
  }

  /** Reassembling the eight bits of a byte, least significant first, gives the byte back. */
  lemma AssembleByteBits(b: byte)
    ensures Assemble(ByteBits(b)) == b
  {
    AssemblePrefix(b, 8);
    assert ByteBits(b)[..8] == ByteBits(b);
  }

  /** The bit stream of `s`: byte `k` contributes bits `8k .. 8k+7`, least significant first. */
  function Bits(s: seq<byte>): (r: seq<bit>)
    ensures |r| == 8 * |s|
  {
    seq(8 * |s|, i requires 0 <= i < 8 * |s| => BitOf(s[i / 8], i % 8))
  }

  /** Regroups a stream of bits into bytes, eight bits per byte, least significant first;
      a final group of fewer than eight bits is dropped. */
  function Unbits(bits: seq<bit>): (r: seq<byte>)
    ensures 8 * |r| <= |bits| < 8 * |r| + 8
  {
    seq(|bits| / 8, k requires 0 <= k < |bits| / 8 => Assemble(bits[8 * k .. 8 * k + 8]))
  }

  lemma BitsAt(s: seq<byte>, k: nat, j: nat)
    requires k < |s| && j < 8
    ensures 8 * k + j < |Bits(s)| && Bits(s)[8 * k + j] == BitOf(s[k], j)
  {
    assert (8 * k + j) / 8 == k && (8 * k + j) % 8 == j;
  }

  /** Byte `k` of `s` occupies bits `8k .. 8k+7` of the stream. */
  lemma ByteOfStream(s: seq<byte>, k: nat)
    requires k < |s|
    ensures 8 * k + 8 <= |Bits(s)| && Bits(s)[8 * k .. 8 * k + 8] == ByteBits(s[k])
  {
    forall j | 0 <= j < 8
      ensures Bits(s)[8 * k .. 8 * k + 8][j] == ByteBits(s[k])[j]
    {
      BitsAt(s, k, j);
    }
  }

  /** One more bit assembled: the step of an extraction loop over `bits[lo..]`. */
  lemma AssembleStep(bits: seq<bit>, lo: nat, k: nat, hi: nat)
    requires k < 8 && hi == lo + k < |bits|
    ensures Assemble(bits[lo .. hi + 1]) == Assemble(bits[lo .. hi]) + bits[hi] * Pow2(k)
  {
    var t := bits[lo .. hi + 1];
    assert |t| == k + 1 && t[k] == bits[hi];
    SliceOfSlice(bits, lo, hi + 1, 0, k);
    assert t[..k] == bits[lo .. hi];
  }

  lemma SliceOfSlice<T>(s: seq<T>, a: nat, b: nat, c: nat, d: nat)
    requires a <= b <= |s| && c <= d <= b - a
    ensures s[a..b][c..d] == s[a + c .. a + d]
  {
    var inner, outer := s[a..b][c..d], s[a + c .. a + d];
    assert |inner| == |outer| == d - c;
    forall t | 0 <= t < d - c
      ensures inner[t] == outer[t]
    {
      assert inner[t] == s[a..b][c + t] == s[a + c + t];
    }
  }

  /** Filling index `k` of a buffer extends its filled prefix by one. */
  lemma UpdatePrefix<T>(buffer: seq<T>, k: nat, b: T)
    requires k < |buffer|
    ensures buffer[k := b][..k + 1] == buffer[..k] + [b]
  {
  }

  /** Regrouping one more group of eight bits appends one byte: the step of an
      extraction loop that reads the bytes of `bits[lo..]` one after another. */
  lemma UnbitsStep(bits: seq<bit>, lo: nat, k: nat, hi: nat)
    requires hi == lo + 8 * k && hi + 8 <= |bits|
    ensures Unbits(bits[lo .. hi + 8]) == Unbits(bits[lo .. hi]) + [Assemble(bits[hi .. hi + 8])]
  {
    var longer, shorter := bits[lo .. lo + 8 * k + 8], bits[lo .. lo + 8 * k];
    var u, v := Unbits(longer), Unbits(shorter);
    assert |longer| == 8 * (k + 1) && |shorter| == 8 * k;
    assert |u| == k + 1 && |v| == k;
    forall j | 0 <= j < k
      ensures u[j] == v[j]
    {
      SliceOfSlice(bits, lo, lo + 8 * k + 8, 8 * j, 8 * j + 8);
      SliceOfSlice(bits, lo, lo + 8 * k, 8 * j, 8 * j + 8);
    }
    SliceOfSlice(bits, lo, lo + 8 * k + 8, 8 * k, 8 * k + 8);
    assert u[k] == Assemble(bits[lo + 8 * k .. lo + 8 * k + 8]);
  }

  /** Regrouping the bit stream of `s` gives `s` back. */
  lemma UnbitsBits(s: seq<byte>)
    ensures Unbits(Bits(s)) == s
  {
    var bits := Bits(s);
    forall k | 0 <= k < |s|
      ensures Unbits(bits)[k] == s[k]
    {
      ByteOfStream(s, k);
      AssembleByteBits(s[k]);
    }
  }

  /** Bit `i` of a stream lies in byte `i / 8`; shifting `i` by whole bytes shifts that
      byte index and keeps the bit position. */
  lemma ShiftBytes(i: nat, n: nat)
    requires 8 * n <= i
    ensures (i - 8 * n) / 8 == i / 8 - n && (i - 8 * n) % 8 == i % 8
  {
    DivMod(i - 8 * n, 8, i / 8 - n, i % 8);
  }

  /** Bit `i` of the stream of `a + b` comes from `a` below `8|a|` and from `b` above. */
  lemma BitsAppendAt(a: seq<byte>, b: seq<byte>, i: nat)
    requires i < 8 * (|a| + |b|)
    ensures Bits(a + b)[i] == (Bits(a) + Bits(b))[i]
  {
    if i < 8 * |a| {
      assert (a + b)[i / 8] == a[i / 8];
    } else {
      ShiftBytes(i, |a|);
      assert (a + b)[i / 8] == b[i / 8 - |a|];
    }
  }

  /** The bit stream of a concatenation is the concatenation of the bit streams. */
  lemma BitsAppend(a: seq<byte>, b: seq<byte>)
    ensures Bits(a + b) == Bits(a) + Bits(b)
  {
    forall i | 0 <= i < 8 * (|a| + |b|)
      ensures Bits(a + b)[i] == (Bits(a) + Bits(b))[i]
    {
      BitsAppendAt(a, b, i);
    }
  }

  /** `u32::from_le_bytes(s)`: the value of four bytes, least significant first. */
  function DecodeLE32(s: seq<byte>): (n: nat)
    requires |s| == 4
    ensures n < TWO_POW_32
    ensures n % 0x100 == s[0]
  {
    var b0, b1, b2, b3 := s[0] as int, s[1] as int, s[2] as int, s[3] as int;
    DivMod(b0 + 0x100 * b1 + 0x1_0000 * b2 + 0x100_0000 * b3, 0x100, b1 + 0x100 * b2 + 0x1_0000 * b3, b0);
    b0 + 0x100 * b1 + 0x1_0000 * b2 + 0x100_0000 * b3
  }

  /** `n.to_le_bytes()` for a 32-bit `n`: byte `k` is `(n >> 8k) & 0xFF`. */
  function LE32(n: nat): (r: seq<byte>)
    requires n < TWO_POW_32
    ensures |r| == 4
    ensures DecodeLE32(r) == n
  {
    var q1 := n / 0x100;
    var q2 := q1 / 0x100;
    var q3 := q2 / 0x100;
    [n % 0x100, q1 % 0x100, q2 % 0x100, q3]
  }

  /** Encoding a decoded prefix gives the same four bytes: LE32 and DecodeLE32 are inverse. */
  lemma LE32Decode(s: seq<byte>)
    requires |s| == 4
    ensures LE32(DecodeLE32(s)) == s
  {
    var n := DecodeLE32(s);
    var n1 := s[1] as int + 0x100 * s[2] as int + 0x1_0000 * s[3] as int;
    var n2 := s[2] as int + 0x100 * s[3] as int;
    DivMod(n, 0x100, n1, s[0]);
    DivMod(n1, 0x100, n2, s[1]);
    DivMod(n2, 0x100, s[3], s[2]);
  }

  /** The bit-plane payload: the 32-bit little-endian length of `d` (`d.len() as u32`),
      then `d`. */
  function LengthPrefixed(d: seq<byte>): (r: seq<byte>)
    ensures |r| == 4 + |d|
    ensures DecodeLE32(r[..4]) == U32(|d|) && r[4..] == d
  {
    LE32(U32(|d|)) + d
  }

  /** The first 32 bits of the stream of a length-prefixed payload regroup into the
      four bytes of its length. */
  lemma PrefixBits(d: seq<byte>, x: seq<bit>)
    requires x == Bits(LengthPrefixed(d))[0..32]
    ensures DecodeLE32(Unbits(x)) == U32(|d|)
  {
    var prefix := LE32(U32(|d|));
    BitsAppend(prefix, d);
    assert x == Bits(prefix);
    UnbitsBits(prefix);
  }

  /** The bits after the first 32 of the stream of a length-prefixed payload regroup into
      the payload. */
  lemma PayloadBits(d: seq<byte>, x: seq<bit>)
    requires x == Bits(LengthPrefixed(d))[32 .. 32 + 8 * |d|]
    ensures Unbits(x) == d
  {
    var prefix := LE32(U32(|d|));
    BitsAppend(prefix, d);
    assert x == Bits(d);
    UnbitsBits(d);
  }
}
