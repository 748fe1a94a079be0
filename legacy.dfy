/** The older copy of the engine the command-line binary uses (src/encryption.rs).

    Its image and envelope code writes and reads what the library writes and reads, but
    fails by panicking. Its audio scheme is a different one: sample `i` takes bit 0 of
    payload byte `i`, with no length prefix, and extraction reads a "length" whose four
    bytes are single bits. */
module Legacy {
  import opened Errors
  import opened Bytes
  import opened AudioStego
  import ImageStego
  import Envelope

  // Audio

  /** What `embed_in_audio` writes: sample `i < |data|` gets bit 0 of `data[i]`
      (`(s & !1) | (byte as i16 & 1)`); a payload longer than the file is cut off. */
  function EmbeddedInAudio(samples: seq<i16>, data: seq<byte>): (r: seq<i16>)
    ensures |r| == |samples|
    ensures forall i :: 0 <= i < |r| ==> r[i] / 2 == samples[i] / 2
    ensures forall i :: 0 <= i < |r| && i < |data| ==> SampleLsb(r[i]) == data[i] % 2
    ensures forall i :: |data| <= i < |r| ==> r[i] == samples[i]
  {
    seq(|samples|, i requires 0 <= i < |samples| =>
      if i < |data| then WithSampleLsb(samples[i], data[i] % 2) else samples[i])
  }

  /** Only the first `|samples|` payload bytes reach the file. */
  lemma EmbeddedInAudioCut(samples: seq<i16>, data: seq<byte>, k: nat)
    requires |samples| <= k <= |data|
    ensures EmbeddedInAudio(samples, data[..k]) == EmbeddedInAudio(samples, data)
  {
    var a, b := EmbeddedInAudio(samples, data[..k]), EmbeddedInAudio(samples, data);
    forall i | 0 <= i < |samples|
      ensures a[i] == b[i]
    {
      assert data[..k][i] == data[i];
    }
  }

  /** `embed_in_audio`: the loop over the payload, stopping at the end of the file. */
  method EmbedInAudio(samples: seq<i16>, data: seq<byte>) returns (modified: seq<i16>)
    ensures modified == EmbeddedInAudio(samples, data)
  {
    modified := samples;
    var i := 0;
    while i < |data|
      invariant i <= |data| && i <= |samples|
      invariant modified == EmbeddedInAudio(samples, data[..i])
      decreases |data| - i
    {
      if i >= |modified| {
        break;
      }
      ghost var before := modified;
      modified := modified[i := WithSampleLsb(modified[i], data[i] % 2)];
      assert data[..i + 1][..i] == data[..i];
      assert modified == EmbeddedInAudio(samples, data[..i + 1]) by {
        var want := EmbeddedInAudio(samples, data[..i + 1]);
        forall j | 0 <= j < |samples|
          ensures modified[j] == want[j]
        {
          if j < i {
            assert data[..i + 1][j] == data[..i][j];
          }
        }
      }
      i := i + 1;
    }
    if i < |data| {
      EmbeddedInAudioCut(samples, data, i);
    } else {
      assert data[..i] == data;
    }
  }

  /** The four "length bytes" of `extract_from_audio`: bit 0 of samples 0..3 each. */
  function LengthBits(samples: seq<i16>): (r: seq<byte>)
    requires |samples| >= 4
    ensures |r| == 4
    ensures forall i :: 0 <= i < 4 ==> r[i] == SampleLsb(samples[i]) <= 1
  {
    seq(4, i requires 0 <= i < 4 => SampleLsb(samples[i]))
  }

  /** What `extract_from_audio` returns: an error for fewer than four samples or a length
      running past the end; otherwise byte `k` is bit 0 of sample `k + 4`, so every byte
      is 0 or 1. */
  function ExtractedFromAudio(samples: seq<i16>): (r: Result<seq<byte>>)
    ensures |samples| < 4 ==> r == Err(ExtractError)
    ensures r.Ok? ==> |r.value| == DecodeLE32(LengthBits(samples)) && |r.value| + 4 <= |samples|
    ensures r.Ok? ==> forall k :: 0 <= k < |r.value| ==> r.value[k] == SampleLsb(samples[k + 4]) <= 1
    ensures r.Err? ==> r.error == ExtractError
    ensures |samples| >= 4 && DecodeLE32(LengthBits(samples)) + 4 <= |samples| ==> r.Ok?
  {
    if |samples| < 4 then Err(ExtractError)
    else
      var dataLen := DecodeLE32(LengthBits(samples));
      if dataLen + 4 > |samples| then Err(ExtractError)
      else Ok(seq(dataLen, k requires 0 <= k < dataLen => SampleLsb(samples[k + 4])))
  }

  /** `extract_from_audio`: the four length bits, the bounds check, then one bit per byte. */
  method ExtractFromAudio(samples: seq<i16>) returns (r: Result<seq<byte>>)
    ensures r == ExtractedFromAudio(samples)
  {
    if |samples| < 4 {
      return Err(ExtractError);
    }
    var lenBytes: seq<byte> := [0, 0, 0, 0];
    for i := 0 to 4
      invariant |lenBytes| == 4
      invariant forall j :: 0 <= j < i ==> lenBytes[j] == SampleLsb(samples[j])
    {
      lenBytes := lenBytes[i := SampleLsb(samples[i])];
    }
    assert lenBytes == LengthBits(samples);
    var dataLen := DecodeLE32(lenBytes);
    if dataLen + 4 > |samples| {
      return Err(ExtractError);
    }
    var extractedData: seq<byte> := [];
    for i := 0 to dataLen
      invariant |extractedData| == i
      invariant forall k :: 0 <= k < i ==> extractedData[k] == SampleLsb(samples[k + 4])
    {
      extractedData := extractedData + [SampleLsb(samples[i + 4])];
    }
    assert extractedData == ExtractedFromAudio(samples).value;
    r := Ok(extractedData);
  }

  /** The legacy audio pair does not round-trip: a payload holding a byte other than 0 or 1
      never comes back. */
  lemma AudioLossy(samples: seq<i16>, data: seq<byte>, k: nat)
    requires k < |data| && data[k] > 1
    ensures ExtractedFromAudio(EmbeddedInAudio(samples, data)) != Ok(data)
  {
  }

  /** What the legacy audio pair does give back: the low bits of the payload, read as a
      "length" from its first four bytes and as data from the bytes after them. */
  lemma AudioReadsLowBits(samples: seq<i16>, data: seq<byte>)
    requires 4 <= |data| <= |samples|
    requires 4 + DecodeLE32(seq(4, i requires 0 <= i < 4 => data[i] % 2)) <= |data|
    ensures var n := DecodeLE32(seq(4, i requires 0 <= i < 4 => data[i] % 2));
      ExtractedFromAudio(EmbeddedInAudio(samples, data)) ==
        Ok(seq(n, k requires 0 <= k < n => data[k + 4] % 2))
  {
    var out := EmbeddedInAudio(samples, data);
    var n := DecodeLE32(seq(4, i requires 0 <= i < 4 => data[i] % 2));
    assert LengthBits(out) == seq(4, i requires 0 <= i < 4 => data[i] % 2);
    assert ExtractedFromAudio(out).value == seq(n, k requires 0 <= k < n => data[k + 4] % 2);
  }

  // Envelope

  /** What `encrypt_aes` returns: the library's envelope, or a panic when the cipher fails. */
  function EncryptedAes(m: Envelope.CryptoManager, seal: Envelope.Seal, nonce: Envelope.Nonce,
                        plaintext: seq<byte>): (r: Result<seq<byte>>)
    ensures r.Err? <==> seal(m.aesKey, nonce, plaintext).None?
    ensures r.Err? ==> r.error == Panic(Explicit)
    ensures r.Ok? ==> |r.value| == Envelope.HEADER_SIZE + |seal(m.aesKey, nonce, plaintext).value|
    ensures r.Ok? ==> DecodeLE32(r.value[..4]) == U32(|r.value| - 4) && r.value[4 .. Envelope.HEADER_SIZE] == nonce
    ensures r.Ok? ==> r.value[Envelope.HEADER_SIZE..] == seal(m.aesKey, nonce, plaintext).value
  {
    match seal(m.aesKey, nonce, plaintext)
    case None => Err(Panic(Explicit))
    case Some(ct) => Ok(Envelope.Frame(nonce, ct))
  }

  /** `encrypt_aes`: the nonce first, then the ciphertext, then the length in front. */
  method EncryptAes(m: Envelope.CryptoManager, seal: Envelope.Seal, nonceBytes: Envelope.Nonce,
                    plaintext: seq<byte>) returns (r: Result<seq<byte>>)
    ensures r == EncryptedAes(m, seal, nonceBytes, plaintext)
  {
    var result := nonceBytes;
    var encrypted := seal(m.aesKey, nonceBytes, plaintext);
    if encrypted.None? {
      return Err(Panic(Explicit));
    }
    result := result + encrypted.value;
    var lenBytes := LE32(U32(|result|));
    var finalResult := lenBytes + result;
    assert finalResult == Envelope.Frame(nonceBytes, encrypted.value);
    r := Ok(finalResult);
  }

  /** `encrypt_aes` writes the library's envelope, and panics exactly where `encrypt`
      returns an EncryptionError. */
  lemma EncryptAesMatchesLibrary(m: Envelope.CryptoManager, seal: Envelope.Seal,
                                 nonce: Envelope.Nonce, plaintext: seq<byte>)
    ensures EncryptedAes(m, seal, nonce, plaintext).Ok? <==>
      Envelope.Encrypted(m, seal, nonce, plaintext).Ok?
    ensures EncryptedAes(m, seal, nonce, plaintext).Ok? ==>
      EncryptedAes(m, seal, nonce, plaintext) == Envelope.Encrypted(m, seal, nonce, plaintext)
    ensures EncryptedAes(m, seal, nonce, plaintext).Err? ==>
      EncryptedAes(m, seal, nonce, plaintext).error == Panic(Explicit)
  {
  }

  /** What `decrypt_aes` returns: the same checks as the library's `decrypt`, each failure
      a panic. */
  function DecryptedAes(m: Envelope.CryptoManager, open: Envelope.Open, bytes: seq<byte>): (r: Result<seq<byte>>)
    ensures r.Err? ==> r.error == Panic(Explicit)
    ensures |bytes| < Envelope.HEADER_SIZE + 1 ==> r.Err?
    ensures |bytes| >= Envelope.HEADER_SIZE + 1 && DecodeLE32(bytes[..4]) != |bytes| - 4 ==> r.Err?
    ensures r.Ok? ==>
      Some(r.value) == open(m.aesKey, bytes[4 .. Envelope.HEADER_SIZE], bytes[Envelope.HEADER_SIZE..])
  {
    match Envelope.ParseFrame(bytes)
    case None => Err(Panic(Explicit))
    case Some((nonce, ct)) =>
      match open(m.aesKey, nonce, ct)
      case None => Err(Panic(Explicit))
      case Some(pt) => Ok(pt)
  }

  /** `decrypt_aes` accepts exactly the frames `decrypt` accepts, with the same plaintext,
      and panics where `decrypt` returns a DecryptionError. */
  lemma DecryptAesMatchesLibrary(m: Envelope.CryptoManager, open: Envelope.Open, bytes: seq<byte>)
    ensures DecryptedAes(m, open, bytes).Ok? <==> Envelope.Decrypted(m, open, bytes).Ok?
    ensures DecryptedAes(m, open, bytes).Ok? ==>
      DecryptedAes(m, open, bytes) == Envelope.Decrypted(m, open, bytes)
    ensures DecryptedAes(m, open, bytes).Err? ==> DecryptedAes(m, open, bytes).error == Panic(Explicit)
  {
  }

  // Image

  /** What `embed_in_image` does: a panic when `32 + 8|data|` exceeds the channel count
      `3wh`, a panic in `get_pixel` once a slot falls below the last row, otherwise the
      library's length-prefixed payload in slots 0 .. 32 + 8|data| - 1. */
  function EmbeddedInImage(img: ImageStego.Image, data: seq<byte>): (r: Result<ImageStego.Image>)
    requires ImageStego.Valid(img)
    ensures r == Err(Panic(Explicit)) <==> 3 * |img.pixels| < 32 + 8 * |data|
    ensures r.Ok? <==> 32 + 8 * |data| <= |img.pixels|
    ensures r.Ok? ==> ImageStego.Valid(r.value) && r.value.width == img.width && r.value.height == img.height
  {
    if 32 + 8 * |data| > 3 * ImageStego.Area(img.width, img.height) then Err(Panic(Explicit))
    else if 32 + 8 * |data| > |img.pixels| then Err(Panic(IndexOutOfBounds))
    else Ok(ImageStego.Stamp(img, Bits(LengthPrefixed(data))))
  }

  /** `embed_in_image`: the size check, then the library's two bit loops. */
  method EmbedInImage(img: ImageStego.Image, data: seq<byte>) returns (r: Result<ImageStego.Image>)
    requires ImageStego.Valid(img)
    ensures r == EmbeddedInImage(img, data)
  {
    var lenBytes := LE32(U32(|data|));
    var totalBitsNeeded := 32 + |data| * 8;
    var totalPixels := img.width * img.height;
    ImageStego.AreaIsProduct(img.width, img.height);
    if totalBitsNeeded > totalPixels * 3 {
      return Err(Panic(Explicit));
    }
    ghost var payload := LengthPrefixed(data);
    assert payload[..4] == lenBytes && payload[4..] == data;
    assert Bits(payload)[..0] == [];
    var written := ImageStego.WriteBytes(img, payload, img.pixels, 0, lenBytes);
    if written.None? {
      return Err(Panic(IndexOutOfBounds));
    }
    written := ImageStego.WriteBytes(img, payload, written.value, 4, data);
    if written.None? {
      return Err(Panic(IndexOutOfBounds));
    }
    assert Bits(payload)[..8 * |payload|] == Bits(payload);
    r := Ok(img.(pixels := written.value));
  }

  /** Wherever the payload fits the channels, `embed_in_image` does what the library's
      `embed` does; elsewhere it panics, where the library returns an error. */
  lemma EmbedInImageMatchesLibrary(img: ImageStego.Image, data: seq<byte>)
    requires ImageStego.Valid(img)
    ensures 32 + 8 * |data| <= 3 * |img.pixels| ==>
      EmbeddedInImage(img, data) == ImageStego.Embedded(img, data)
    ensures 32 + 8 * |data| > 3 * |img.pixels| ==>
      EmbeddedInImage(img, data) == Err(Panic(Explicit)) && ImageStego.Embedded(img, data).Err?
  {
    ImageStego.EmbedOutcome(img, data);
  }

  /** What `extract_from_image` returns: the library's panics, a length below 16 rejected,
      a length whose bits exceed the channel count rejected, otherwise the payload. */
  function ExtractedFromImage(img: ImageStego.Image): (r: Result<seq<byte>>)
    requires ImageStego.Valid(img)
    ensures r.Ok? ==> 16 <= |r.value| && 32 + 8 * |r.value| <= |img.pixels|
  {
    if img.width == 0 then Err(Panic(DivisionByZero))
    else if |img.pixels| < 32 then Err(Panic(IndexOutOfBounds))
    else PayloadOfLength(img, DecodeLE32(Unbits(ImageStego.SlotBits(img, 0, 32))))
  }

  /** What `extract_from_image` returns once it has read the length `dataLen`. */
  function PayloadOfLength(img: ImageStego.Image, dataLen: nat): (r: Result<seq<byte>>)
    requires ImageStego.Valid(img)
    ensures r.Err? ==> r.error == ExtractError || r.error == Panic(IndexOutOfBounds)
    ensures r.Err? <==> dataLen < 16 || |img.pixels| < 32 + 8 * dataLen
    ensures r.Ok? ==> |r.value| == dataLen
  {
    if dataLen < 16 then Err(ExtractError)
    else if 32 + 8 * dataLen > 3 * ImageStego.Area(img.width, img.height) then Err(ExtractError)
    else if 32 + 8 * dataLen > |img.pixels| then Err(Panic(IndexOutOfBounds))
    else Ok(Unbits(ImageStego.SlotBits(img, 32, 32 + 8 * dataLen)))
  }

  /** The last check of `extract_from_image`, on the length of the bytes read. */
  method RejectShort(extracted: seq<byte>) returns (r: Result<seq<byte>>)
    ensures |extracted| < 16 ==> r == Err(ExtractError)
    ensures |extracted| >= 16 ==> r == Ok(extracted)
  {
    if |extracted| < 16 {
      return Err(ExtractError);
    }
    r := Ok(extracted);
  }

  /** `extract_from_image`: the library's two read loops, with the bound on the length
      written as `32 + 8 len > 3wh`; the final check on the length never fails. */
  method ExtractFromImage(img: ImageStego.Image) returns (r: Result<seq<byte>>)
    requires ImageStego.Valid(img)
    ensures r == ExtractedFromImage(img)
  {
    var width, height := img.width, img.height;
    if width == 0 {
      return Err(Panic(DivisionByZero));
    }
    var lenBytes := ImageStego.ReadBytes(img, 0, 4);
    if lenBytes.None? {
      return Err(Panic(IndexOutOfBounds));
    }
    var dataLen := DecodeLE32(lenBytes.value);
    r := ReadPayload(img, dataLen);
  }

  /** The rest of `extract_from_image`: the checks on the length, the data loop and the
      final check. */
  method ReadPayload(img: ImageStego.Image, dataLen: nat) returns (r: Result<seq<byte>>)
    requires ImageStego.Valid(img) && img.width > 0 && 32 <= |img.pixels|
    ensures r == PayloadOfLength(img, dataLen)
  {
    if dataLen < 16 {
      return Err(ExtractError);
    }
    var totalBitsNeeded := 32 + dataLen * 8;
    var totalPixels := img.width * img.height;
    ImageStego.AreaIsProduct(img.width, img.height);
    if totalBitsNeeded > totalPixels * 3 {
      return Err(ExtractError);
    }
    var extracted := ImageStego.ReadBytes(img, 32, dataLen);
    if extracted.None? {
      return Err(Panic(IndexOutOfBounds));
    }
    r := RejectShort(extracted.value);
  }

  /** The bound `32 + 8 len <= 3wh` is the library's `len <= capacity` without the
      subtraction that can underflow, so `extract_from_image` and `extract` agree on every
      image. */
  lemma ExtractFromImageMatchesLibrary(img: ImageStego.Image)
    requires ImageStego.Valid(img)
    ensures ExtractedFromImage(img) == ImageStego.Extracted(img)
  {
    if img.width > 0 && |img.pixels| >= 32 {
      var cap := ImageStego.CalculateCapacity(img.width, img.height);
      assert cap.Ok?;
    }
  }

  /** Every payload `extract_from_image` returns is at least 16 bytes long, so its final
      length check is never taken. */
  lemma ExtractFromImageFinalCheckUnreachable(img: ImageStego.Image)
    requires ImageStego.Valid(img) && ExtractedFromImage(img).Ok?
    ensures |ExtractedFromImage(img).value| >= 16
  {
  }
}
