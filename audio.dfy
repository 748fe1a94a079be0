/** LSB embedding in 16-bit audio samples (src/steganography/audio.rs).

    Sample `i` carries bit `i` of the stream: samples 0..31 the payload length as a
    little-endian u32, sample `32 + 8k + b` bit `b` of payload byte `k`. */
module AudioStego {
  import opened Errors
  import opened Bytes

  /** A signed 16-bit sample as hound decodes it. */
  type i16 = x: int | -0x8000 <= x < 0x8000

  /** `s & 1` on the two's-complement sample: its least-significant bit. */
  function SampleLsb(s: i16): bit
  {
    s % 2
  }

  /** `(s & !1) | bit`: the sample with its least-significant bit replaced. The upper fifteen
      bits, `s / 2` (an arithmetic shift, as division here rounds down), are kept. */
  function WithSampleLsb(s: i16, b: bit): (r: i16)
    ensures SampleLsb(r) == b
    ensures r / 2 == s / 2
    ensures SampleLsb(s) == b ==> r == s
  {
    s - s % 2 + b
  }

  /** `calculate_capacity`: whole bytes that fit after the 32-sample length prefix. */
  function CalculateCapacity(sampleCount: nat): (r: nat)
    ensures sampleCount < 32 ==> r == 0
    ensures sampleCount >= 32 ==> 32 + 8 * r <= sampleCount < 40 + 8 * r
  {
    if sampleCount < 32 then 0 else (sampleCount - 32) / 8
  }

  /** `can_embed`: whether `dataSize` bytes fit the capacity of a file of `sampleCount`
      samples (`reader.len()`). */
  function CanEmbed(sampleCount: nat, dataSize: nat): (r: bool)
    ensures sampleCount >= 32 ==> (r <==> 32 + 8 * dataSize <= sampleCount)
    ensures sampleCount < 32 ==> (r <==> dataSize == 0)
  {
    dataSize <= CalculateCapacity(sampleCount)
  }

  /** The bits carried by all samples, in order. */
  function LsbStream(samples: seq<i16>): (r: seq<bit>)
    ensures |r| == |samples|
    ensures forall i :: 0 <= i < |r| ==> r[i] == SampleLsb(samples[i])
  {
    seq(|samples|, i requires 0 <= i < |samples| => SampleLsb(samples[i]))
  }

  /** The samples after sample `i` has been given `bits[i]` for `i = 0 .. |bits| - 1`. */
  function Stamp(samples: seq<i16>, bits: seq<bit>): (r: seq<i16>)
    requires |bits| <= |samples|
    ensures |r| == |samples|
  {
    seq(|samples|, i requires 0 <= i < |samples| =>
      if i < |bits| then WithSampleLsb(samples[i], bits[i]) else samples[i])
  }

  /** Writing bits changes only least-significant bits: sample `i < |bits|` now carries
      `bits[i]` and keeps its upper fifteen bits, and every later sample is unchanged. */
  lemma StampOnlyTouchesLsbs(samples: seq<i16>, bits: seq<bit>)
    requires |bits| <= |samples|
    ensures var out := Stamp(samples, bits);
      && LsbStream(out)[..|bits|] == bits
      && (forall i :: 0 <= i < |samples| ==> out[i] / 2 == samples[i] / 2)
      && out[|bits|..] == samples[|bits|..]
  {
    var out := Stamp(samples, bits);
    assert forall i :: 0 <= i < |bits| ==> LsbStream(out)[..|bits|][i] == bits[i];
  }

  /** Reading back the samples just written gives the written bits. */
  lemma StampSlots(samples: seq<i16>, bits: seq<bit>, lo: nat, hi: nat)
    requires |bits| <= |samples|
    requires lo <= hi <= |bits|
    ensures LsbStream(Stamp(samples, bits))[lo..hi] == bits[lo..hi]
  {
    StampOnlyTouchesLsbs(samples, bits);
    assert LsbStream(Stamp(samples, bits))[..|bits|][lo..hi] == bits[lo..hi];
  }

  /** One more sample written: the step the embedding loops take. */
  lemma StampStep(samples: seq<i16>, bits: seq<bit>, k: nat)
    requires k < |bits| && k < |samples|
    ensures Stamp(samples, bits[..k])[k] == samples[k]
    ensures Stamp(samples, bits[..k + 1]) ==
      Stamp(samples, bits[..k])[k := WithSampleLsb(samples[k], bits[k])]
  {
  }

  /** What `embed` produces: a file shorter than the prefix, or a payload beyond the
      capacity, is an EmbedError; otherwise the length-prefixed payload is written into
      samples 0 .. 32 + 8|data| - 1. */
  function Embedded(samples: seq<i16>, data: seq<byte>): (r: Result<seq<i16>>)
    ensures r.Err? ==> r.error == EmbedError
    ensures r.Ok? ==> |r.value| == |samples| && 32 + 8 * |data| <= |samples|
  {
    if |samples| < 32 then Err(EmbedError)
    else if |data| > CalculateCapacity(|samples|) then Err(EmbedError)
    else Ok(Stamp(samples, Bits(LengthPrefixed(data))))
  }

  /** The inner loop of `embed`: the eight bits of `b`, least significant first, written
      into samples `start .. start + 7` of samples whose first `start` already hold `bits`. */
  method WriteByte(samples: seq<i16>, ghost bits: seq<bit>, modified: seq<i16>, start: nat, b: byte)
    returns (r: seq<i16>)
    requires start + 8 <= |bits| && bits[start .. start + 8] == ByteBits(b)
    requires start + 8 <= |samples| && modified == Stamp(samples, bits[..start])
    ensures r == Stamp(samples, bits[..start + 8])
  {
    r := modified;
    var bitCount := start;
    for bitIdx := 0 to 8
      invariant bitCount == start + bitIdx
      invariant r == Stamp(samples, bits[..bitCount])
    {
      var bit := BitOf(b, bitIdx);
      assert bits[bitCount] == bits[start .. start + 8][bitIdx];
      StampStep(samples, bits, bitCount);
      r := r[bitCount := WithSampleLsb(r[bitCount], bit)];
      bitCount := bitCount + 1;
    }
  }

  /** A run of the outer loop of `embed`: `bytes`, which are bytes `k0 ..` of `payload`,
      written one after another into the samples following the first `k0` bytes. */
  method WriteBytes(samples: seq<i16>, ghost payload: seq<byte>, modified: seq<i16>, k0: nat, bytes: seq<byte>)
    returns (r: seq<i16>)
    requires k0 + |bytes| <= |payload| && payload[k0 .. k0 + |bytes|] == bytes
    requires 8 * (k0 + |bytes|) <= |samples| && modified == Stamp(samples, Bits(payload)[..8 * k0])
    ensures r == Stamp(samples, Bits(payload)[..8 * (k0 + |bytes|)])
  {
    ghost var stream := Bits(payload);
    r := modified;
    var bitCount := 8 * k0;
    for byteIdx := 0 to |bytes|
      invariant bitCount == 8 * (k0 + byteIdx)
      invariant r == Stamp(samples, stream[..bitCount])
    {
      ghost var k := k0 + byteIdx;
      ByteOfStream(payload, k);
      assert bitCount == 8 * k && payload[k] == bytes[byteIdx];
      r := WriteByte(samples, stream, r, bitCount, bytes[byteIdx]);
      bitCount := bitCount + 8;
    }
  }

  /** `embed`: the two checks, then the four length bytes and the data bytes written into
      a copy of the samples. Every index written is below the sample count. */
  method Embed(samples: seq<i16>, data: seq<byte>) returns (r: Result<seq<i16>>)
    ensures r == Embedded(samples, data)
  {
    if |samples| < 32 {
      return Err(EmbedError);
    }
    var capacity := CalculateCapacity(|samples|);
    if |data| > capacity {
      return Err(EmbedError);
    }
    var modified := samples;
    var lenBytes := LE32(U32(|data|));
    ghost var payload := LengthPrefixed(data);
    assert payload[..4] == lenBytes && payload[4..] == data;
    assert Bits(payload)[..0] == [];
    assert modified == Stamp(samples, []);
    modified := WriteBytes(samples, payload, modified, 0, lenBytes);
    modified := WriteBytes(samples, payload, modified, 4, data);
    assert Bits(payload)[..8 * |payload|] == Bits(payload);
    r := Ok(modified);
  }

  /** What `extract` returns: a file shorter than the prefix, or a decoded length beyond
      the capacity, is an ExtractError; any other length, zero included, is read back. */
  function Extracted(samples: seq<i16>): (r: Result<seq<byte>>)
    ensures r.Err? ==> r.error == ExtractError
    ensures r.Ok? ==> 32 + 8 * |r.value| <= |samples|
  {
    if |samples| < 32 then Err(ExtractError)
    else
      var dataLen := DecodeLE32(Unbits(LsbStream(samples)[0..32]));
      if dataLen > CalculateCapacity(|samples|) then Err(ExtractError)
      else Ok(Unbits(LsbStream(samples)[32 .. 32 + 8 * dataLen]))
  }

  /** One more sample read into the byte being assembled; the result is still a byte. */
  lemma ReadStep(samples: seq<i16>, start: nat, k: nat, pos: nat, b: nat, bit: nat)
    requires k < 8 && pos == start + k < |samples|
    requires b == Assemble(LsbStream(samples)[start .. pos])
    requires bit == SampleLsb(samples[pos])
    ensures b + bit * Pow2(k) == Assemble(LsbStream(samples)[start .. pos + 1]) < 256
  {
    AssembleStep(LsbStream(samples), start, k, pos);
  }

  /** The inner loop of `extract`: the byte whose bits, least significant first, are
      carried by samples `start .. start + 7`. */
  method ReadByte(samples: seq<i16>, start: nat) returns (b: byte)
    requires start + 8 <= |samples|
    ensures b == Assemble(LsbStream(samples)[start .. start + 8])
  {
    b := 0;
    var bitCount := start;
    for bitIdx := 0 to 8
      invariant bitCount == start + bitIdx
      invariant b == Assemble(LsbStream(samples)[start .. bitCount])
    {
      var bit := SampleLsb(samples[bitCount]);
      ReadStep(samples, start, bitIdx, bitCount, b, bit);
      b := b + bit * Pow2(bitIdx);
      bitCount := bitCount + 1;
    }
  }

  /** A run of the outer loop of `extract`: a zeroed buffer of `count` bytes, byte `k`
      filled from samples `start + 8k .. start + 8k + 7`. */
  method ReadBytes(samples: seq<i16>, start: nat, count: nat) returns (r: seq<byte>)
    requires start + 8 * count <= |samples|
    ensures r == Unbits(LsbStream(samples)[start .. start + 8 * count])
  {
    r := seq(count, _ => 0);
    var bitCount := start;
    for byteIdx := 0 to count
      invariant bitCount == start + 8 * byteIdx
      invariant |r| == count
      invariant r[..byteIdx] == Unbits(LsbStream(samples)[start .. bitCount])
    {
      var b := ReadByte(samples, bitCount);
      UnbitsStep(LsbStream(samples), start, byteIdx, bitCount);
      UpdatePrefix(r, byteIdx, b);
      r := r[byteIdx := b];
      bitCount := bitCount + 8;
    }
    assert r[..count] == r;
  }

  /** `extract`: the length check on the file, the four length bytes, the capacity check,
      then the data bytes. */
  method Extract(samples: seq<i16>) returns (r: Result<seq<byte>>)
    ensures r == Extracted(samples)
  {
    if |samples| < 32 {
      return Err(ExtractError);
    }
    var lenBytes := ReadBytes(samples, 0, 4);
    var dataLen := DecodeLE32(lenBytes);
    var capacity := CalculateCapacity(|samples|);
    if dataLen > capacity {
      return Err(ExtractError);
    }
    var extracted := ReadBytes(samples, 32, dataLen);
    r := Ok(extracted);
  }

  /** `embed` succeeds exactly when the file has at least 32 samples and the length prefix
      and the payload fit in them. */
  lemma EmbedOutcome(samples: seq<i16>, data: seq<byte>)
    ensures Embedded(samples, data).Ok? <==> 32 + 8 * |data| <= |samples|
    ensures Embedded(samples, data).Err? ==> Embedded(samples, data).error == EmbedError
  {
  }

  /** `embed` keeps the sample count, changes only least-significant bits, and leaves
      every sample from index 32 + 8|data| on untouched. */
  lemma EmbedOnlyTouchesLsbs(samples: seq<i16>, data: seq<byte>)
    requires Embedded(samples, data).Ok?
    ensures var out := Embedded(samples, data).value;
      && |out| == |samples|
      && (forall i :: 0 <= i < |samples| ==> out[i] / 2 == samples[i] / 2)
      && out[32 + 8 * |data|..] == samples[32 + 8 * |data|..]
  {
    StampOnlyTouchesLsbs(samples, Bits(LengthPrefixed(data)));
  }

  /** The samples of an embedded file carry the length prefix and then the payload. */
  lemma EmbeddedCarries(samples: seq<i16>, data: seq<byte>)
    requires 32 + 8 * |data| <= |samples|
    ensures var out := Stamp(samples, Bits(LengthPrefixed(data)));
      && DecodeLE32(Unbits(LsbStream(out)[0..32])) == U32(|data|)
      && Unbits(LsbStream(out)[32 .. 32 + 8 * |data|]) == data
  {
    var bits := Bits(LengthPrefixed(data));
    StampSlots(samples, bits, 0, 32);
    PrefixBits(data, LsbStream(Stamp(samples, bits))[0..32]);
    StampSlots(samples, bits, 32, 32 + 8 * |data|);
    PayloadBits(data, LsbStream(Stamp(samples, bits))[32 .. 32 + 8 * |data|]);
  }

  /** What `extract` does with samples whose first 32 carry the length `n` and whose next
      `8n` carry `payload`. */
  lemma ExtractedFromStream(samples: seq<i16>, n: nat, payload: seq<byte>)
    requires 32 + 8 * n <= |samples|
    requires DecodeLE32(Unbits(LsbStream(samples)[0..32])) == n
    requires Unbits(LsbStream(samples)[32 .. 32 + 8 * n]) == payload
    ensures Extracted(samples) == Ok(payload)
  {
  }

  /** Extraction gives back any payload written into samples that hold it. */
  lemma StampedExtracts(samples: seq<i16>, data: seq<byte>)
    requires 32 + 8 * |data| <= |samples| < TWO_POW_32
    ensures Extracted(Stamp(samples, Bits(LengthPrefixed(data)))) == Ok(data)
  {
    EmbeddedCarries(samples, data);
    ExtractedFromStream(Stamp(samples, Bits(LengthPrefixed(data))), |data|, data);
  }

  /** Extraction gives back every payload `embed` accepts, the empty one included. hound
      counts samples in a u32, so a file has fewer than 2^32 of them. */
  lemma RoundTrip(samples: seq<i16>, data: seq<byte>)
    requires |samples| < TWO_POW_32 && Embedded(samples, data).Ok?
    ensures Extracted(Embedded(samples, data).value) == Ok(data)
  {
    StampedExtracts(samples, data);
  }

  /** `can_embed` reports that an empty payload fits a file of fewer than 32 samples, which
      `embed` refuses. */
  lemma CanEmbedEmptyInShortFile(samples: seq<i16>)
    requires |samples| < 32
    ensures CanEmbed(|samples|, 0)
    ensures Embedded(samples, []) == Err(EmbedError)
  {
  }

  /** On files of at least 32 samples `can_embed` agrees with `embed`. */
  lemma CanEmbedAgrees(samples: seq<i16>, data: seq<byte>)
    requires |samples| >= 32
    ensures CanEmbed(|samples|, |data|) <==> Embedded(samples, data).Ok?
  {
  }
}
