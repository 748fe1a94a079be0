/** LSB embedding in a raster image (src/steganography/image.rs).

    A slot is one colour channel of one pixel: slot `i` is channel `i % 3` of the pixel at
    `(i % width, i / width)`. Slots 0..31 carry the payload length as a little-endian u32,
    slot `32 + 8k + b` carries bit `b` of payload byte `k`. */
module ImageStego {
  import opened Errors
  import opened Bytes

  /** A pixel as `get_pixel` returns it from a decoded image: red, green, blue, alpha. */
  datatype Pixel = Rgba(red: byte, green: byte, blue: byte, alpha: byte)

  /** Channel `c` of a pixel, `pixel[c]`. */
  function Channel(px: Pixel, c: nat): byte
    requires c < 4
  {
    match c
    case 0 => px.red
    case 1 => px.green
    case 2 => px.blue
    case _ => px.alpha
  }

  /** `pixel[c] = v`: only channel `c` changes. */
  function WithChannel(px: Pixel, c: nat, v: byte): (r: Pixel)
    requires c < 4
    ensures Channel(r, c) == v
    ensures forall d :: 0 <= d < 4 && d != c ==> Channel(r, d) == Channel(px, d)
  {
    match c
    case 0 => px.(red := v)
    case 1 => px.(green := v)
    case 2 => px.(blue := v)
    case _ => px.(alpha := v)
  }

  /** A decoded image. The pixels are in raster order: `get_pixel(x, y)` is
      `pixels[y * width + x]`. */
  datatype Image = Image(width: nat, height: nat, pixels: seq<Pixel>)

  /** `width * height`, the pixel count, summed row by row. Being recursive, it is unfolded
      only where a proof asks for it (AreaIsProduct), which keeps the product out of the
      proofs that only count slots. */
  function Area(width: nat, height: nat): nat
  {
    if height == 0 then 0 else Area(width, height - 1) + width
  }

  lemma {:induction false} AreaIsProduct(width: nat, height: nat)
    ensures Area(width, height) == width * height
  {
    if height > 0 {
      AreaIsProduct(width, height - 1);
      assert width * height == width * (height - 1) + width;
    }
  }

  /** A well-formed in-memory image: one pixel per coordinate, and few enough pixels that
      `width * height * 3` fits in a u32. */
  predicate Valid(img: Image)
  {
    && |img.pixels| == Area(img.width, img.height)
    && 3 * |img.pixels| < TWO_POW_32
  }

  /** `calculate_capacity`: `(width * height * 3 - 32) / 8` in usize arithmetic. When the
      image has fewer than 32 channel bits the subtraction underflows, which panics. */
  function CalculateCapacity(width: nat, height: nat): (r: Result<nat>)
    ensures r.Err? <==> 3 * Area(width, height) < 32
    ensures r.Err? ==> r.error == Panic(ArithmeticOverflow)
    ensures r.Ok? ==> 32 + 8 * r.value <= 3 * Area(width, height) < 40 + 8 * r.value
  {
    var totalBits := Area(width, height) * 3;
    if totalBits < 32 then Err(Panic(ArithmeticOverflow)) else Ok((totalBits - 32) / 8)
  }

  /** `can_embed`: whether `dataSize` bytes fit the capacity. It reads the image only. */
  function CanEmbed(img: Image, dataSize: nat): (r: Result<bool>)
    ensures r.Err? <==> 3 * Area(img.width, img.height) < 32
    ensures r.Err? ==> r.error == Panic(ArithmeticOverflow)
    ensures r.Ok? ==> (r.value <==> 32 + 8 * dataSize <= 3 * Area(img.width, img.height))
  {
    match CalculateCapacity(img.width, img.height)
    case Err(e) => Err(e)
    case Ok(capacity) => Ok(dataSize <= capacity)
  }

  /** Raster index of the pixel at `(x, y)`. */
  function PixelIndex(width: nat, x: nat, y: nat): nat
  {
    y * width + x
  }

  /** Slot `i` lies at raster index `i`, and inside the image exactly when `i < width * height`. */
  lemma SlotAddress(width: nat, height: nat, i: nat)
    requires width > 0
    ensures 0 <= i % width < width && 0 <= i / width
    ensures PixelIndex(width, i % width, i / width) == i
    ensures i / width < height <==> i < Area(width, height)
  {
    AreaIsProduct(width, height);
    var q, r := i / width, i % width;
    assert i == width * q + r;
    if q < height {
      MulLe(width, q + 1, height);
    } else {
      MulLe(width, height, q);
    }
  }

  /** The pixel of slot `bitCount`: `(bitCount % width, bitCount / width)`, as a raster
      index, or None when that lies below the last row (`get_pixel` panics). */
  method Locate(img: Image, bitCount: nat) returns (r: Option<nat>)
    requires Valid(img) && img.width > 0
    ensures r.None? <==> bitCount >= |img.pixels|
    ensures r.Some? ==> r.value == bitCount
  {
    var width := img.width;
    SlotAddress(width, img.height, bitCount);
    var x := bitCount % width;
    var y := bitCount / width;
    if y >= img.height {
      return None;
    }
    r := Some(PixelIndex(width, x, y));
  }

  /** The bit slot `i` carries. */
  function SlotLsb(img: Image, i: nat): bit
    requires i < |img.pixels|
  {
    Lsb(Channel(img.pixels[i], i % 3))
  }

  /** The bits carried by all slots inside the image, in slot order. */
  function SlotStream(img: Image): (r: seq<bit>)
    ensures |r| == |img.pixels|
    ensures forall i :: 0 <= i < |r| ==> r[i] == SlotLsb(img, i)
  {
    seq(|img.pixels|, i requires 0 <= i < |img.pixels| => SlotLsb(img, i))
  }

  /** The bits carried by slots `lo .. hi-1`. */
  function SlotBits(img: Image, lo: nat, hi: nat): (r: seq<bit>)
    requires lo <= hi <= |img.pixels|
    ensures |r| == hi - lo
    ensures forall j :: 0 <= j < |r| ==> r[j] == SlotLsb(img, lo + j)
  {
    SlotStream(img)[lo..hi]
  }

  /** Channel `c` of `px` with its least-significant bit replaced by `bit`. */
  function SetChannelLsb(px: Pixel, c: nat, b: bit): (r: Pixel)
    requires c < 4
  {
    WithChannel(px, c, WithLsb(Channel(px, c), b))
  }

  /** The image after slot `i` has been given `bits[i]`, for `i = 0 .. |bits| - 1`. Slot
      `i` lies in pixel `i` (SlotAddress), so each pixel is written at most once and the
      order of the writes does not matter. */
  function Stamp(img: Image, bits: seq<bit>): (out: Image)
    requires |bits| <= |img.pixels|
    ensures out.width == img.width && out.height == img.height
    ensures |out.pixels| == |img.pixels|
  {
    img.(pixels := seq(|img.pixels|, p requires 0 <= p < |img.pixels| =>
      if p < |bits| then SetChannelLsb(img.pixels[p], p % 3, bits[p]) else img.pixels[p]))
  }

  /** Writing bits into slots changes only the least-significant bit of the channel each
      slot names: every other channel, the upper seven bits of the written channel and
      every pixel from slot `|bits|` on are unchanged, and slot `i` now carries `bits[i]`. */
  lemma StampOnlyTouchesSlots(img: Image, bits: seq<bit>)
    requires |bits| <= |img.pixels|
    ensures var out := Stamp(img, bits);
      && (forall i :: 0 <= i < |bits| ==> SlotLsb(out, i) == bits[i])
      && (forall p, c :: 0 <= p < |img.pixels| && 0 <= c < 4 ==>
            Channel(out.pixels[p], c) / 2 == Channel(img.pixels[p], c) / 2 &&
            (p >= |bits| || c != p % 3 ==> Channel(out.pixels[p], c) == Channel(img.pixels[p], c)))
      && out.pixels[|bits|..] == img.pixels[|bits|..]
  {
  }

  /** Reading back the slots just written gives the written bits. */
  lemma StampSlots(img: Image, bits: seq<bit>, lo: nat, hi: nat)
    requires |bits| <= |img.pixels|
    requires lo <= hi <= |bits|
    ensures SlotBits(Stamp(img, bits), lo, hi) == bits[lo..hi]
  {
    StampOnlyTouchesSlots(img, bits);
  }

  /** One more slot written: the step the embedding loops take. */
  lemma StampStep(img: Image, bits: seq<bit>, k: nat)
    requires k < |bits| && k < |img.pixels|
    ensures Stamp(img, bits[..k]).pixels[k] == img.pixels[k]
    ensures Stamp(img, bits[..k + 1]).pixels ==
      Stamp(img, bits[..k]).pixels[k := SetChannelLsb(img.pixels[k], k % 3, bits[k])]
  {
  }

  /** What `embed` produces: the capacity check (`can_embed`), a panic from `get_pixel`
      when a slot falls below the last row, otherwise the length-prefixed payload written
      into slots 0 .. 32 + 8|data| - 1. */
  function Embedded(img: Image, data: seq<byte>): (r: Result<Image>)
    requires Valid(img)
    ensures r.Ok? ==> 32 + 8 * |data| <= |img.pixels|
    ensures r.Ok? ==> Valid(r.value) && r.value.width == img.width && r.value.height == img.height
  {
    match CanEmbed(img, |data|)
    case Err(e) => Err(e)
    case Ok(fits) =>
      if !fits then Err(EmbedError)
      else if 32 + 8 * |data| > |img.pixels| then Err(Panic(IndexOutOfBounds))
      else Ok(Stamp(img, Bits(LengthPrefixed(data))))
  }

  /** The inner loop of `embed`: the eight bits of `b`, least significant first, written
      into slots `start .. start + 7` of the image whose slots before `start` already hold
      `bits`. None when one of these slots falls outside the image (`get_pixel` panics). */
  method WriteByte(img: Image, ghost bits: seq<bit>, pixels: seq<Pixel>, start: nat, b: byte)
    returns (r: Option<seq<Pixel>>)
    requires Valid(img) && img.width > 0
    requires start + 8 <= |bits| && bits[start .. start + 8] == ByteBits(b)
    requires start <= |img.pixels| && pixels == Stamp(img, bits[..start]).pixels
    ensures r.None? <==> start + 8 > |img.pixels|
    ensures r.Some? ==> r.value == Stamp(img, bits[..start + 8]).pixels
  {
    var px := pixels;
    var bitCount := start;
    for bitIdx := 0 to 8
      invariant bitCount == start + bitIdx <= |img.pixels|
      invariant px == Stamp(img, bits[..bitCount]).pixels
    {
      var loc := Locate(img, bitCount);
      var colorIdx := bitCount % 3;
      var bit := BitOf(b, bitIdx);
      if loc.None? {
        return None;
      }
      var idx := loc.value;
      assert bits[bitCount] == bits[start .. start + 8][bitIdx];
      StampStep(img, bits, bitCount);
      var pixel := px[idx];
      pixel := WithChannel(pixel, colorIdx, WithLsb(Channel(pixel, colorIdx), bit));
      px := px[idx := pixel];
      bitCount := bitCount + 1;
    }
    r := Some(px);
  }

  /** A run of the outer loop of `embed`: `bytes`, which are bytes `k0 ..` of `payload`,
      written byte by byte through WriteByte into the slots that follow the first `k0`
      bytes of `payload`. None when a slot falls outside the image. */
  method WriteBytes(img: Image, ghost payload: seq<byte>, pixels: seq<Pixel>, k0: nat, bytes: seq<byte>)
    returns (r: Option<seq<Pixel>>)
    requires Valid(img) && img.width > 0
    requires k0 + |bytes| <= |payload| && payload[k0 .. k0 + |bytes|] == bytes
    requires 8 * k0 <= |img.pixels| && pixels == Stamp(img, Bits(payload)[..8 * k0]).pixels
    ensures r.None? <==> 8 * (k0 + |bytes|) > |img.pixels|
    ensures r.Some? ==> r.value == Stamp(img, Bits(payload)[..8 * (k0 + |bytes|)]).pixels
  {
    ghost var stream := Bits(payload);
    var px := pixels;
    var bitCount := 8 * k0;
    for byteIdx := 0 to |bytes|
      invariant bitCount == 8 * (k0 + byteIdx) <= |img.pixels|
      invariant px == Stamp(img, stream[..bitCount]).pixels
    {
      ghost var k := k0 + byteIdx;
      ByteOfStream(payload, k);
      assert bitCount == 8 * k && payload[k] == bytes[byteIdx];
      var written := WriteByte(img, stream, px, bitCount, bytes[byteIdx]);
      if written.None? {
        return None;
      }
      px := written.value;
      bitCount := bitCount + 8;
    }
    r := Some(px);
  }

  /** `embed`: the capacity check, then the four length bytes and the data bytes, each
      through the bit loop of WriteByte, advancing the slot counter by eight per byte. */
  method Embed(img: Image, data: seq<byte>) returns (r: Result<Image>)
    requires Valid(img)
    ensures r == Embedded(img, data)
  {
    var fits := CanEmbed(img, |data|);
    if fits.Err? {
      return Err(fits.error);
    }
    if !fits.value {
      return Err(EmbedError);
    }
    var lenBytes := LE32(U32(|data|));
    ghost var payload := LengthPrefixed(data);
    assert payload[..4] == lenBytes && payload[4..] == data;
    assert Bits(payload)[..0] == [];
    WidthOfNonEmpty(img);
    var written := WriteBytes(img, payload, img.pixels, 0, lenBytes);
    if written.None? {
      return Err(Panic(IndexOutOfBounds));
    }
    written := WriteBytes(img, payload, written.value, 4, data);
    if written.None? {
      return Err(Panic(IndexOutOfBounds));
    }
    assert Bits(payload)[..8 * |payload|] == Bits(payload);
    r := Ok(img.(pixels := written.value));
  }

  /** What `extract` returns. `bit_count % width` divides by zero on a zero-width image;
      `get_pixel` panics once a slot falls below the last row; a length prefix below 16
      (too short for an encrypted envelope) or above the capacity is an ExtractError. */
  function Extracted(img: Image): (r: Result<seq<byte>>)
    requires Valid(img)
    ensures r.Ok? ==> 16 <= |r.value| && 32 + 8 * |r.value| <= |img.pixels|
  {
    if img.width == 0 then Err(Panic(DivisionByZero))
    else if |img.pixels| < 32 then Err(Panic(IndexOutOfBounds))
    else
      var dataLen := DecodeLE32(Unbits(SlotBits(img, 0, 32)));
      if dataLen < 16 then Err(ExtractError)
      else match CalculateCapacity(img.width, img.height)
        case Err(e) => Err(e)
        case Ok(capacity) =>
          if dataLen > capacity then Err(ExtractError)
          else if 32 + 8 * dataLen > |img.pixels| then Err(Panic(IndexOutOfBounds))
          else Ok(Unbits(SlotBits(img, 32, 32 + 8 * dataLen)))
  }

  /** One more slot read into the byte being assembled; the result is still a byte. */
  lemma ReadStep(img: Image, start: nat, k: nat, pos: nat, b: nat, bit: nat)
    requires k < 8 && pos == start + k < |img.pixels|
    requires b == Assemble(SlotBits(img, start, pos)) && bit == SlotLsb(img, pos)
    ensures b + bit * Pow2(k) == Assemble(SlotBits(img, start, pos + 1)) < 256
  {
    AssembleStep(SlotStream(img), start, k, pos);
  }

  /** The inner loop of `extract`: the byte whose bits, least significant first, are
      carried by slots `start .. start + 7`. None when one of them falls outside the image. */
  method ReadByte(img: Image, start: nat) returns (r: Option<byte>)
    requires Valid(img) && img.width > 0 && start <= |img.pixels|
    ensures r.None? <==> start + 8 > |img.pixels|
    ensures r.Some? ==> r.value == Assemble(SlotBits(img, start, start + 8))
  {
    var b: byte := 0;
    var bitCount := start;
    for bitIdx := 0 to 8
      invariant bitCount == start + bitIdx <= |img.pixels|
      invariant b == Assemble(SlotBits(img, start, bitCount))
    {
      var loc := Locate(img, bitCount);
      var colorIdx := bitCount % 3;
      if loc.None? {
        return None;
      }
      var pixel := img.pixels[loc.value];
      var bit := Lsb(Channel(pixel, colorIdx));
      ReadStep(img, start, bitIdx, bitCount, b, bit);
      b := b + bit * Pow2(bitIdx);
      bitCount := bitCount + 1;
    }
    r := Some(b);
  }

  /** A run of the outer loop of `extract`: a zeroed buffer of `count` bytes, byte `k`
      filled by ReadByte from slots `start + 8k .. start + 8k + 7`. None when a slot falls
      outside the image. */
  method ReadBytes(img: Image, start: nat, count: nat) returns (r: Option<seq<byte>>)
    requires Valid(img) && img.width > 0 && start <= |img.pixels|
    ensures r.None? <==> start + 8 * count > |img.pixels|
    ensures r.Some? ==> r.value == Unbits(SlotBits(img, start, start + 8 * count))
  {
    var buffer: seq<byte> := seq(count, _ => 0);
    var bitCount := start;
    for byteIdx := 0 to count
      invariant bitCount == start + 8 * byteIdx <= |img.pixels|
      invariant |buffer| == count
      invariant buffer[..byteIdx] == Unbits(SlotBits(img, start, bitCount))
    {
      var b := ReadByte(img, bitCount);
      if b.None? {
        return None;
      }
      ReadBytesStep(img, start, byteIdx, bitCount, buffer[..byteIdx], b.value);
      UpdatePrefix(buffer, byteIdx, b.value);
      buffer := buffer[byteIdx := b.value];
      bitCount := bitCount + 8;
    }
    assert buffer[..count] == buffer;
    r := Some(buffer);
  }

  /** One more byte read: the bytes of slots `start .. start + 8k - 1` followed by the byte
      of the next eight slots are the bytes of slots `start .. start + 8k + 7`. */
  lemma ReadBytesStep(img: Image, start: nat, k: nat, pos: nat, prev: seq<byte>, b: byte)
    requires pos == start + 8 * k && pos + 8 <= |img.pixels|
    requires prev == Unbits(SlotBits(img, start, pos))
    requires b == Assemble(SlotBits(img, pos, pos + 8))
    ensures prev + [b] == Unbits(SlotBits(img, start, pos + 8))
  {
    UnbitsStep(SlotStream(img), start, k, pos);
  }

  /** `extract`: the four length bytes, the length checks, then the data bytes. */
  method Extract(img: Image) returns (r: Result<seq<byte>>)
    requires Valid(img)
    ensures r == Extracted(img)
  {
    var width, height := img.width, img.height;
    if width == 0 {
      return Err(Panic(DivisionByZero));
    }
    var lenBytes := ReadBytes(img, 0, 4);
    if lenBytes.None? {
      return Err(Panic(IndexOutOfBounds));
    }
    var dataLen := DecodeLE32(lenBytes.value);
    if dataLen < 16 {
      return Err(ExtractError);
    }
    var capacity := CalculateCapacity(width, height);
    if dataLen > capacity.value {
      return Err(ExtractError);
    }
    var extracted := ReadBytes(img, 32, dataLen);
    if extracted.None? {
      return Err(Panic(IndexOutOfBounds));
    }
    r := Ok(extracted.value);
  }

  /** Which inputs `embed` accepts: it succeeds exactly when every slot it writes lies inside the
      image, and it reports EmbedError exactly when the payload exceeds the capacity. */
  lemma EmbedOutcome(img: Image, data: seq<byte>)
    requires Valid(img)
    ensures Embedded(img, data).Ok? <==> 32 + 8 * |data| <= |img.pixels|
    ensures Embedded(img, data) == Err(EmbedError) <==> 32 <= 3 * |img.pixels| < 32 + 8 * |data|
    ensures Embedded(img, data) == Err(Panic(ArithmeticOverflow)) <==> 3 * |img.pixels| < 32
  {
  }

  /** `embed` leaves the dimensions alone and changes only least-significant bits of the
      channels its slots name; pixels past the last slot written are untouched. */
  lemma EmbedOnlyTouchesLsbs(img: Image, data: seq<byte>)
    requires Valid(img) && Embedded(img, data).Ok?
    ensures var out := Embedded(img, data).value;
      && Valid(out) && out.width == img.width && out.height == img.height
      && (forall p, c :: 0 <= p < |img.pixels| && 0 <= c < 4 ==>
            Channel(out.pixels[p], c) / 2 == Channel(img.pixels[p], c) / 2 &&
            (c != p % 3 ==> Channel(out.pixels[p], c) == Channel(img.pixels[p], c)))
      && out.pixels[32 + 8 * |data|..] == img.pixels[32 + 8 * |data|..]
  {
    StampOnlyTouchesSlots(img, Bits(LengthPrefixed(data)));
  }

  /** The slots of an embedded image carry the length prefix and then the payload. */
  lemma StampedSlots(img: Image, data: seq<byte>)
    requires 32 + 8 * |data| <= |img.pixels|
    ensures var out := Stamp(img, Bits(LengthPrefixed(data)));
      && DecodeLE32(Unbits(SlotBits(out, 0, 32))) == U32(|data|)
      && Unbits(SlotBits(out, 32, 32 + 8 * |data|)) == data
  {
    var stream := Bits(LengthPrefixed(data));
    StampSlots(img, stream, 0, 32);
    PrefixBits(data, SlotBits(Stamp(img, stream), 0, 32));
    StampSlots(img, stream, 32, 32 + 8 * |data|);
    PayloadBits(data, SlotBits(Stamp(img, stream), 32, 32 + 8 * |data|));
  }

  /** An image with a pixel has a non-zero width. */
  lemma WidthOfNonEmpty(img: Image)
    requires Valid(img) && |img.pixels| > 0
    ensures img.width > 0
  {
    AreaIsProduct(img.width, img.height);
  }

  /** What `extract` does with an image whose first 32 slots carry the length `n` and whose
      next `8n` slots carry `payload`. */
  lemma ExtractedFromSlots(img: Image, n: nat, payload: seq<byte>)
    requires Valid(img) && 32 + 8 * n <= |img.pixels|
    requires DecodeLE32(Unbits(SlotBits(img, 0, 32))) == n
    requires Unbits(SlotBits(img, 32, 32 + 8 * n)) == payload
    ensures n < 16 ==> Extracted(img) == Err(ExtractError)
    ensures n >= 16 ==> Extracted(img) == Ok(payload)
  {
    WidthOfNonEmpty(img);
  }

  /** What `extract` does with an image into whose slots a payload has been written: a
      payload shorter than 16 bytes is refused, any other comes back. */
  lemma StampedExtracts(img: Image, data: seq<byte>)
    requires Valid(img) && 32 + 8 * |data| <= |img.pixels|
    ensures Valid(Stamp(img, Bits(LengthPrefixed(data))))
    ensures |data| < 16 ==> Extracted(Stamp(img, Bits(LengthPrefixed(data)))) == Err(ExtractError)
    ensures |data| >= 16 ==> Extracted(Stamp(img, Bits(LengthPrefixed(data)))) == Ok(data)
  {
    StampedSlots(img, data);
    ExtractedFromSlots(Stamp(img, Bits(LengthPrefixed(data))), |data|, data);
  }

  /** Extraction gives back what was embedded, for every payload of at least 16 bytes whose
      slots fit in the image. */
  lemma RoundTrip(img: Image, data: seq<byte>)
    requires Valid(img) && 16 <= |data| && 32 + 8 * |data| <= |img.pixels|
    ensures Embedded(img, data).Ok?
    ensures Extracted(Embedded(img, data).value) == Ok(data)
  {
    EmbedOutcome(img, data);
    StampedExtracts(img, data);
  }

  /** A payload shorter than 16 bytes embeds but never extracts: the length check of
      `extract` rejects it. */
  lemma ShortPayloadRejected(img: Image, data: seq<byte>)
    requires Valid(img) && |data| < 16 && 32 + 8 * |data| <= |img.pixels|
    ensures Embedded(img, data).Ok?
    ensures Extracted(Embedded(img, data).value) == Err(ExtractError)
  {
    EmbedOutcome(img, data);
    StampedExtracts(img, data);
  }

  /** A 10 x 10 image with every channel zero. */
  function Blank10x10(): (img: Image)
    ensures Valid(img) && |img.pixels| == 100
  {
    Image(10, 10, seq(100, _ => Rgba(0, 0, 0, 0)))
  }

  /** As written, `can_embed` counts three bits per pixel while `embed` uses one slot per
      pixel: a 10 x 10 image has capacity 33 bytes, yet embedding 16 bytes panics in
      `get_pixel`, since slot 100 lies below the last row. */
  lemma CapacityOverstatesSlots()
    ensures CalculateCapacity(10, 10) == Ok(33)
    ensures CanEmbed(Blank10x10(), 16) == Ok(true)
    ensures Embedded(Blank10x10(), seq(16, _ => 0)) == Err(Panic(IndexOutOfBounds))
  {
  }

  /** As written, `extract` trusts the same capacity: a 10 x 10 image whose first 32 slots
      carry the length 16 passes both length checks and then panics reading slot 100. */
  lemma ExtractPanicsWithinCapacity()
    ensures var img := Stamp(Blank10x10(), Bits(LE32(16)));
      Extracted(img) == Err(Panic(IndexOutOfBounds))
  {
    var img := Stamp(Blank10x10(), Bits(LE32(16)));
    StampSlots(Blank10x10(), Bits(LE32(16)), 0, 32);
    assert Bits(LE32(16))[0..32] == Bits(LE32(16));
    UnbitsBits(LE32(16));
    assert DecodeLE32(Unbits(SlotBits(img, 0, 32))) == 16;
  }

  // The addressing the embedding evidently intends. `calculate_capacity` counts three
  // channel bits per pixel ("each can hold 1 bit") and `embed` writes channel
  // `bit_count % 3`, so three consecutive slots share one pixel: slot `i` is channel
  // `i % 3` of pixel `i / 3`, at `((i / 3) % width, (i / 3) / width)`. With that
  // addressing the capacity check of `can_embed` is exact.

  /** Packed slot `i` lies at raster index `i / 3`, and inside the image exactly when
      `i < 3 * width * height`, the channel-bit count `calculate_capacity` starts from. */
  lemma PackedAddress(width: nat, height: nat, i: nat)
    requires width > 0
    ensures PixelIndex(width, (i / 3) % width, (i / 3) / width) == i / 3
    ensures (i / 3) / width < height <==> i < 3 * Area(width, height)
  {
    SlotAddress(width, height, i / 3);
  }

  /** The bit packed slot `i` carries. */
  function PackedLsb(img: Image, i: nat): bit
    requires i < 3 * |img.pixels|
  {
    Lsb(Channel(img.pixels[i / 3], i % 3))
  }

  /** The bits carried by all packed slots, three per pixel, in slot order. */
  function PackedStream(img: Image): (r: seq<bit>)
    ensures |r| == 3 * |img.pixels|
    ensures forall i :: 0 <= i < |r| ==> r[i] == PackedLsb(img, i)
  {
    seq(3 * |img.pixels|, i requires 0 <= i < 3 * |img.pixels| => PackedLsb(img, i))
  }

  /** The bits carried by packed slots `lo .. hi-1`. */
  function PackedBits(img: Image, lo: nat, hi: nat): (r: seq<bit>)
    requires lo <= hi <= 3 * |img.pixels|
    ensures |r| == hi - lo
  {
    PackedStream(img)[lo..hi]
  }

  /** Channel `c` of `px` once packed slot `i` has been given `bits[i]`, if `i < |bits|`. */
  function PackedChannel(px: Pixel, c: nat, bits: seq<bit>, i: nat): byte
    requires c < 4
  {
    if i < |bits| then WithLsb(Channel(px, c), bits[i]) else Channel(px, c)
  }

  /** The image after packed slot `i` has been given `bits[i]`, for `i = 0 .. |bits| - 1`:
      pixel `p` receives slots `3p`, `3p + 1` and `3p + 2` in red, green and blue, and its
      alpha channel is never written. */
  function PackedStamp(img: Image, bits: seq<bit>): (out: Image)
    requires |bits| <= 3 * |img.pixels|
    ensures out.width == img.width && out.height == img.height
    ensures |out.pixels| == |img.pixels|
  {
    img.(pixels := seq(|img.pixels|, p requires 0 <= p < |img.pixels| =>
      var px := img.pixels[p];
      Rgba(PackedChannel(px, 0, bits, 3 * p), PackedChannel(px, 1, bits, 3 * p + 1),
           PackedChannel(px, 2, bits, 3 * p + 2), px.alpha)))
  }

  /** Packed slot `i` of the written image carries `bits[i]`. */
  lemma PackedStampCarries(img: Image, bits: seq<bit>)
    requires |bits| <= 3 * |img.pixels|
    ensures forall i :: 0 <= i < |bits| ==> PackedLsb(PackedStamp(img, bits), i) == bits[i]
  {
    var out := PackedStamp(img, bits);
    forall i | 0 <= i < |bits| ensures PackedLsb(out, i) == bits[i] {
      var p, c := i / 3, i % 3;
      assert 3 * p + c == i;
      assert Channel(out.pixels[p], c) == PackedChannel(img.pixels[p], c, bits, i);
    }
  }

  /** Packed writing changes only the least-significant bit of the channel each slot
      names: the upper seven bits of every channel, the alpha channel and every channel
      whose slot lies past the last bit are unchanged. */
  lemma PackedStampOnlyTouchesSlots(img: Image, bits: seq<bit>)
    requires |bits| <= 3 * |img.pixels|
    ensures var out := PackedStamp(img, bits);
      forall p, c :: 0 <= p < |img.pixels| && 0 <= c < 4 ==>
        Channel(out.pixels[p], c) / 2 == Channel(img.pixels[p], c) / 2 &&
        (c == 3 || 3 * p + c >= |bits| ==> Channel(out.pixels[p], c) == Channel(img.pixels[p], c))
  {
  }

  /** Reading back the packed slots just written gives the written bits. */
  lemma PackedSlots(img: Image, bits: seq<bit>, lo: nat, hi: nat)
    requires |bits| <= 3 * |img.pixels|
    requires lo <= hi <= |bits|
    ensures PackedBits(PackedStamp(img, bits), lo, hi) == bits[lo..hi]
  {
    PackedStampCarries(img, bits);
  }

  /** `embed` with the packed addressing: the capacity check of `can_embed`, then the
      length-prefixed payload written into packed slots 0 .. 32 + 8|data| - 1. It succeeds
      exactly when those slots lie inside the image, and where it fails it fails as
      `embed` does. */
  function EmbeddedPacked(img: Image, data: seq<byte>): (r: Result<Image>)
    requires Valid(img)
    ensures r.Ok? <==> 32 + 8 * |data| <= 3 * |img.pixels|
    ensures r.Err? ==> r == Embedded(img, data)
    ensures r.Ok? ==> Valid(r.value) && r.value.width == img.width && r.value.height == img.height
  {
    match CanEmbed(img, |data|)
    case Err(e) => Err(e)
    case Ok(fits) =>
      if !fits then Err(EmbedError)
      else Ok(PackedStamp(img, Bits(LengthPrefixed(data))))
  }

  /** `extract` with the packed addressing. Slot 31 lies in pixel 10, so an image of fewer
      than eleven pixels panics in `get_pixel`; past that, the capacity check keeps every
      slot read inside the image. */
  function ExtractedPacked(img: Image): (r: Result<seq<byte>>)
    requires Valid(img)
    ensures r.Ok? ==> 16 <= |r.value| && 32 + 8 * |r.value| <= 3 * |img.pixels|
  {
    if img.width == 0 then Err(Panic(DivisionByZero))
    else if 3 * |img.pixels| < 32 then Err(Panic(IndexOutOfBounds))
    else
      var dataLen := DecodeLE32(Unbits(PackedBits(img, 0, 32)));
      if dataLen < 16 then Err(ExtractError)
      else match CalculateCapacity(img.width, img.height)
        case Err(e) => Err(e)
        case Ok(capacity) =>
          if dataLen > capacity then Err(ExtractError)
          else Ok(Unbits(PackedBits(img, 32, 32 + 8 * dataLen)))
  }

  /** With the packed addressing, extraction from an image that holds a length prefix
      never panics: it returns the payload or reports corrupted data. */
  lemma ExtractPackedNeverPanics(img: Image)
    requires Valid(img) && 32 <= 3 * |img.pixels|
    ensures ExtractedPacked(img).Err? ==> ExtractedPacked(img).error == ExtractError
  {
    WidthOfNonEmpty(img);
  }

  /** The first 32 packed slots of an embedded image carry the length prefix. */
  lemma PackedStampedPrefix(img: Image, data: seq<byte>)
    requires 32 + 8 * |data| <= 3 * |img.pixels|
    ensures DecodeLE32(Unbits(PackedBits(PackedStamp(img, Bits(LengthPrefixed(data))), 0, 32))) == U32(|data|)
  {
    var stream := Bits(LengthPrefixed(data));
    PackedSlots(img, stream, 0, 32);
    PrefixBits(data, PackedBits(PackedStamp(img, stream), 0, 32));
  }

  /** The packed slots after the prefix of an embedded image carry the payload. */
  lemma PackedStampedPayload(img: Image, data: seq<byte>)
    requires 32 + 8 * |data| <= 3 * |img.pixels|
    ensures Unbits(PackedBits(PackedStamp(img, Bits(LengthPrefixed(data))), 32, 32 + 8 * |data|)) == data
  {
    var stream := Bits(LengthPrefixed(data));
    PackedSlots(img, stream, 32, 32 + 8 * |data|);
    PayloadBits(data, PackedBits(PackedStamp(img, stream), 32, 32 + 8 * |data|));
  }

  /** What packed extraction does with an image whose first 32 packed slots carry the
      length `n` and whose next `8n` carry `payload`. */
  lemma PackedExtractedFromSlots(img: Image, n: nat, payload: seq<byte>)
    requires Valid(img) && 32 + 8 * n <= 3 * |img.pixels|
    requires DecodeLE32(Unbits(PackedBits(img, 0, 32))) == n
    requires Unbits(PackedBits(img, 32, 32 + 8 * n)) == payload
    ensures n < 16 ==> ExtractedPacked(img) == Err(ExtractError)
    ensures n >= 16 ==> ExtractedPacked(img) == Ok(payload)
  {
    WidthOfNonEmpty(img);
  }

  /** Packed extraction gives back any payload of at least 16 bytes written into packed
      slots that fit the image. */
  lemma PackedStampedExtracts(img: Image, data: seq<byte>)
    requires Valid(img) && 16 <= |data| && 32 + 8 * |data| <= 3 * |img.pixels|
    ensures ExtractedPacked(PackedStamp(img, Bits(LengthPrefixed(data)))) == Ok(data)
  {
    var out := PackedStamp(img, Bits(LengthPrefixed(data)));
    PackedStampedPrefix(img, data);
    PackedStampedPayload(img, data);
    PackedExtractedFromSlots(out, |data|, data);
  }

  /** With the packed addressing, every payload of at least 16 bytes that passes the
      capacity check of `can_embed` is written, and extraction gives it back. */
  lemma PackedRoundTrip(img: Image, data: seq<byte>)
    requires Valid(img) && 16 <= |data|
    requires CalculateCapacity(img.width, img.height).Ok?
    requires |data| <= CalculateCapacity(img.width, img.height).value
    ensures EmbeddedPacked(img, data).Ok?
    ensures ExtractedPacked(EmbeddedPacked(img, data).value) == Ok(data)
  {
    PackedStampedExtracts(img, data);
  }

  /** The 10 x 10 payload that `embed` as written cannot place fits the packed slots. */
  lemma PackedPlacesBlank10x10()
    ensures EmbeddedPacked(Blank10x10(), seq(16, _ => 0)).Ok?
    ensures ExtractedPacked(EmbeddedPacked(Blank10x10(), seq(16, _ => 0)).value) == Ok(seq(16, _ => 0))
  {
    PackedRoundTrip(Blank10x10(), seq(16, _ => 0));
  }
}
