# stegano-vault: the steganographic engine, in Dafny

This project models the engine of stegano-vault, a Rust tool that hides an encrypted
payload inside a carrier file, and proves what the engine does with it. The engine has
four parts.

- **Image.** The payload goes into the least-significant bits of the colour channels,
  one bit per slot. Slot `i` is channel `i % 3` of the pixel at `(i % width, i / width)`.
  Slots 0..31 carry the payload length as a little-endian u32, least-significant bit
  first. The payload bytes follow in the same bit order.
- **Audio.** The same layout, one bit per 16-bit sample.
- **PDF.** A hidden section is appended after the last `%%EOF` marker the search
  examines. The section is a newline, the little-endian u32 length, the payload and the
  trailer `\n%%STEGANO%%\n`.
- **Envelope.** The encryption layer puts a frame around its AES-256-GCM output: the
  little-endian u32 length of what follows, the 12-byte nonce, then the ciphertext.

The older copy in `src/encryption.rs`, which the command-line binary uses, is modelled
beside the library. It writes the same image and envelope formats but fails by
panicking. Its audio scheme is a different, lossy one.

## How the model is built

Carriers are values that are already decoded:

- an image is its width, its height and its pixels in raster order;
- an audio file is its sequence of `i16` samples;
- a PDF is its sequence of bytes.

`embed` returns the new carrier instead of writing a file.

Modelling conventions:

- **Bytes and bits** are integer subsets. The bit operations of the source are written
  out arithmetically:
  - `c & 1` is `c % 2`;
  - `(c & 0xFE) | b` is `c - c % 2 + b`;
  - `(b >> k) & 1` is `b / 2^k % 2`;
  - `byte |= bit << k` is an addition, which is exact because bit `k` of `byte` is still
    clear at that point.
- **Samples.** On a signed sample, Dafny's `%` and `/` round towards minus infinity.
  This matches `& 1` and the arithmetic shift of a two's-complement `i16`.
- **Rust panics** are an error value, `Panic(cause)`, so that every path of the source
  is a result of the model. The causes are:
  - an unsigned subtraction below zero;
  - `% 0` on a zero width;
  - `get_pixel` outside the image;
  - `panic!`/`expect`.
- **`as u32`** truncation of lengths is written out as `U32(n) = n % 2^32`.

Every loop of the source is a method with its loop invariants, proved equal to a
specification function. The properties are lemmas about those functions. Modules:

- `Errors`: result and error types (`src/error/mod.rs`).
- `Bytes`: bit streams and the u32 prefix.
- `ImageStego`, `AudioStego`, `PdfStego`: the three carriers.
- `Envelope`: `src/crypto/encryption.rs`.
- `Legacy`: `src/encryption.rs`.
- `Steganography`: the trait of `src/steganography/traits.rs`, as a datatype over the
  three carriers.

Where verification showed that the source is wrong, the module holds the code as written
and, beside it, a corrected definition (see "Findings"). The corrected image code uses
*packed addressing*: three consecutive slots share one pixel, so slot `i` is channel
`i % 3` of pixel `i / 3`. That is the layout `calculate_capacity` counts on.

## Model

| member | source | states |
|---|---|---|
| Bytes.U32 | src/steganography/image.rs:33 | `n as u32` is below 2^32 and leaves every length below 2^32 as it is |
| Bytes.WithLsb | src/steganography/image.rs:46 | `(c & 0xFE) \| bit` carries `bit` in its least-significant bit, keeps the upper seven bits of `c`, and is `c` itself when `c` already carries `bit` |
| Bytes.ByteBits | src/steganography/image.rs:43 | a byte has eight bits, bit `k` being `(b >> k) & 1` |
| Bytes.Assemble | src/steganography/image.rs:92 | OR-ing `k` bits into place, least significant first, gives a value below `2^k`, so eight bits give a byte |
| Bytes.AssembleByteBits | src/steganography/image.rs:83-95 | assembling the eight bits of a byte, least significant first, gives the byte back |
| Bytes.AssembleStep | src/steganography/image.rs:84-94 | one more iteration of the bit loop adds bit `k` times `2^k` to the byte being assembled |
| Bytes.Bits | src/steganography/image.rs:37-68 | the bit stream of `s` has `8|s|` bits |
| Bytes.Unbits | src/steganography/image.rs:117-131 | regrouping bits eight at a time gives `floor(|bits| / 8)` bytes |
| Bytes.UnbitsStep | src/steganography/image.rs:117-131 | one more iteration of the byte loop appends the byte of the next eight bits |
| Bytes.UnbitsBits | src/steganography/image.rs:54-68 | regrouping the bit stream of `s` gives `s` back |
| Bytes.BitsAppend | src/steganography/image.rs:37-68 | the bit stream of the length bytes followed by the data is the stream of the length bytes followed by the stream of the data |
| Bytes.DecodeLE32 | src/steganography/image.rs:98 | `u32::from_le_bytes` is below 2^32 and its low byte is the first byte |
| Bytes.LE32 | src/steganography/image.rs:33 | `to_le_bytes` gives four bytes that decode to the number |
| Bytes.LE32Decode | src/steganography/image.rs:98 | encoding a decoded prefix gives the same four bytes, so the two are inverse |
| Bytes.LengthPrefixed | src/steganography/image.rs:33-68 | the written payload is four bytes that decode to `|d| as u32`, then `d` |
| Bytes.PrefixBits | src/steganography/image.rs:82-98 | the first 32 bits of the stream regroup into the length `|d| as u32` |
| Bytes.PayloadBits | src/steganography/image.rs:115-131 | the bits after the first 32 regroup into the payload |
| ImageStego.WithChannel | src/steganography/image.rs:46 | `pixel[c] = v` sets channel `c` to `v` and leaves every other channel unchanged |
| ImageStego.AreaIsProduct | src/steganography/image.rs:15 | the pixel count is `width * height` |
| ImageStego.CalculateCapacity | src/steganography/image.rs:12-17 | it panics exactly when `3wh < 32`; otherwise it is the largest `r` with `32 + 8r <= 3wh` |
| ImageStego.CanEmbed | src/steganography/image.rs:136-141 | it fails exactly as the capacity does; otherwise it answers whether `32 + 8 dataSize <= 3wh` |
| ImageStego.SlotAddress | src/steganography/image.rs:39-40 | slot `i` addresses raster index `i`, and that lies in the image exactly when `i < wh` |
| ImageStego.Locate | src/steganography/image.rs:39-45 | the pixel of slot `bitCount` is missing exactly when `bitCount >= wh`, and is otherwise raster index `bitCount` |
| ImageStego.SlotBits | src/steganography/image.rs:89-90 | bit `j` of the slots from `lo` is the least-significant bit of channel `(lo+j) % 3` of pixel `lo+j` |
| ImageStego.Stamp | src/steganography/image.rs:45-47 | writing bits into slots keeps the width, the height and the pixel count |
| ImageStego.StampOnlyTouchesSlots | src/steganography/image.rs:45-47 | writing bits replaces only the least-significant bit of each slot's channel: every other channel, the upper seven bits and every later pixel are unchanged, and slot `i` carries `bits[i]` |
| ImageStego.StampSlots | src/steganography/image.rs:45-47 | reading back slots just written gives the bits written |
| ImageStego.StampStep | src/steganography/image.rs:45-49 | one more iteration of the bit loop changes only pixel `k`, in channel `k % 3` |
| ImageStego.Embedded | src/steganography/image.rs:21-72 | a successful `embed` has written every slot inside the image, `32 + 8|d| <= wh`, and gives a well-formed image of the same dimensions |
| ImageStego.WriteByte | src/steganography/image.rs:55-67 | the bit loop writes the eight bits of a byte into the next eight slots, and panics exactly when one of them is below the last row |
| ImageStego.WriteBytes | src/steganography/image.rs:54-68 | the byte loop writes its bytes into consecutive groups of eight slots, and panics exactly when a slot is below the last row |
| ImageStego.Embed | src/steganography/image.rs:21-72 | `embed` returns what `Embedded` specifies: the capacity error, the `get_pixel` panic, or the stamped image |
| ImageStego.Extracted | src/steganography/image.rs:74-134 | every payload `extract` returns has at least 16 bytes, and its slots lie inside the image |
| ImageStego.ReadStep | src/steganography/image.rs:84-93 | one more slot read keeps the byte being assembled equal to the assembly of the slots read so far, and below 256 |
| ImageStego.ReadByte | src/steganography/image.rs:83-95 | the bit loop returns the byte the next eight slots carry, least significant first, and panics exactly when one of them is below the last row |
| ImageStego.ReadBytes | src/steganography/image.rs:115-131 | the byte loop returns the regrouped bits of `8 count` slots, and panics exactly when a slot is below the last row |
| ImageStego.ReadBytesStep | src/steganography/image.rs:117-130 | filling byte `k` of the buffer extends the bytes read so far by the byte of the next eight slots |
| ImageStego.Extract | src/steganography/image.rs:74-134 | `extract` returns what `Extracted` specifies: the division by zero, the `get_pixel` panic, the length errors, or the payload |
| ImageStego.EmbedOutcome | src/steganography/image.rs:26-30 | `embed` succeeds exactly when `32 + 8|d| <= wh`; it reports EmbedError exactly when `32 <= 3wh < 32 + 8|d|`, and underflows exactly when `3wh < 32` |
| ImageStego.EmbedOnlyTouchesLsbs | src/steganography/image.rs:32-68 | `embed` keeps the dimensions and changes only the least-significant bits of the channels its slots name; pixels from slot `32 + 8|d|` on are unchanged |
| ImageStego.StampedSlots | src/steganography/image.rs:33-68 | after embedding, slots 0..31 carry `|d| as u32` and the next `8|d|` slots carry `d` |
| ImageStego.WidthOfNonEmpty | src/steganography/image.rs:85 | an image with a pixel has a non-zero width, so `bit_count % width` does not divide by zero |
| ImageStego.ExtractedFromSlots | src/steganography/image.rs:98-133 | if the slots carry a length `n` and then `8n` bits of payload, `extract` rejects `n < 16` and otherwise returns the payload |
| ImageStego.StampedExtracts | src/steganography/image.rs:79-133 | extracting from an image whose slots were written gives the payload back if it has at least 16 bytes, and ExtractError otherwise |
| ImageStego.RoundTrip | src/steganography/image.rs:33-133 | `extract(embed(img, d)) == d` when `16 <= |d|` and `32 + 8|d| <= wh` |
| ImageStego.ShortPayloadRejected | src/steganography/image.rs:101-105 | a payload shorter than 16 bytes is embedded, but `extract` refuses it |
| ImageStego.CapacityOverstatesSlots | src/steganography/image.rs:12-17 | a 10 x 10 image has capacity 33, yet embedding 16 bytes panics in `get_pixel` |
| ImageStego.ExtractPanicsWithinCapacity | src/steganography/image.rs:107-124 | a 10 x 10 image claiming 16 bytes passes both length checks of `extract`, then panics |
| ImageStego.PackedAddress | src/steganography/image.rs:12-17 | under the addressing the capacity counts (three channel bits per pixel), slot `i` is raster index `i / 3`, inside the image exactly when `i < 3wh` |
| ImageStego.PackedStream | src/steganography/image.rs:85-90 | with that addressing, bit `i` is the least-significant bit of channel `i % 3` of pixel `i / 3`, for all `3wh` slots |
| ImageStego.PackedStamp | src/steganography/image.rs:38-49 | packed writing keeps the width, the height and the pixel count |
| ImageStego.PackedStampCarries | src/steganography/image.rs:45-47 | after packed writing, slot `i` carries `bits[i]` |
| ImageStego.PackedStampOnlyTouchesSlots | src/steganography/image.rs:45-47 | packed writing keeps the upper seven bits of every channel, the alpha channel, and every channel whose slot lies past the last bit |
| ImageStego.PackedSlots | src/steganography/image.rs:45-47 | reading back packed slots just written gives the bits written |
| ImageStego.EmbeddedPacked | src/steganography/image.rs:21-72 | with packed addressing, `embed` succeeds exactly when `32 + 8|d| <= 3wh`, which is what `can_embed` approves, and fails exactly as the original does |
| ImageStego.ExtractedPacked | src/steganography/image.rs:74-134 | with packed addressing, every payload `extract` returns has at least 16 bytes, and its slots lie inside the image |
| ImageStego.ExtractPackedNeverPanics | src/steganography/image.rs:107-133 | with packed addressing, `extract` on an image of at least 32 slots fails only with ExtractError |
| ImageStego.PackedStampedPrefix | src/steganography/image.rs:33-50 | after packed embedding, slots 0..31 carry `|d| as u32` |
| ImageStego.PackedStampedPayload | src/steganography/image.rs:52-68 | after packed embedding, the next `8|d|` slots carry `d` |
| ImageStego.PackedExtractedFromSlots | src/steganography/image.rs:98-133 | if the packed slots carry a length `n` and then `8n` bits of payload, `extract` rejects `n < 16` and otherwise returns the payload |
| ImageStego.PackedStampedExtracts | src/steganography/image.rs:79-133 | extracting from an image whose packed slots were written gives back every payload of at least 16 bytes |
| ImageStego.PackedRoundTrip | src/steganography/image.rs:12-133 | with packed addressing, every payload of at least 16 bytes within `calculate_capacity` is written, and `extract` gives it back |
| ImageStego.PackedPlacesBlank10x10 | src/steganography/image.rs:12-17 | the 16-byte payload that the original cannot place in a 10 x 10 image round-trips with packed addressing |
| AudioStego.WithSampleLsb | src/steganography/audio.rs:54-55 | `(s & !1) \| bit` carries `bit`, keeps the upper fifteen bits, and is `s` when `s` already carries `bit` |
| AudioStego.CalculateCapacity | src/steganography/audio.rs:12-20 | the capacity is 0 below 32 samples and otherwise the largest `r` with `32 + 8r <= n` |
| AudioStego.CanEmbed | src/steganography/audio.rs:131-136 | from 32 samples on, it answers whether `32 + 8 dataSize <= n`; below 32 samples, whether the payload is empty |
| AudioStego.LsbStream | src/steganography/audio.rs:98 | bit `i` of the stream is the least-significant bit of sample `i` |
| AudioStego.Stamp | src/steganography/audio.rs:53-56 | writing bits keeps the sample count |
| AudioStego.StampOnlyTouchesLsbs | src/steganography/audio.rs:51-68 | writing bits makes sample `i` carry `bits[i]`, keeps every upper fifteen bits and leaves every later sample unchanged |
| AudioStego.StampSlots | src/steganography/audio.rs:53-55 | reading back samples just written gives the bits written |
| AudioStego.StampStep | src/steganography/audio.rs:54-56 | one more iteration of the bit loop changes only sample `k` |
| AudioStego.Embedded | src/steganography/audio.rs:24-77 | `embed` fails only with EmbedError; a successful one keeps the sample count and has written only indices below `32 + 8|d| <= n` |
| AudioStego.WriteByte | src/steganography/audio.rs:62-67 | the bit loop writes the eight bits of a byte into the next eight samples |
| AudioStego.WriteBytes | src/steganography/audio.rs:51-68 | the byte loop writes its bytes into consecutive groups of eight samples |
| AudioStego.Embed | src/steganography/audio.rs:24-77 | `embed` returns what `Embedded` specifies; every index it writes is in bounds |
| AudioStego.Extracted | src/steganography/audio.rs:79-129 | `extract` fails only with ExtractError, and every payload it returns lies within the samples, `32 + 8|d| <= n` |
| AudioStego.ReadStep | src/steganography/audio.rs:97-101 | one more sample read keeps the byte being assembled equal to the assembly of the samples read so far, and below 256 |
| AudioStego.ReadByte | src/steganography/audio.rs:96-102 | the bit loop returns the byte the next eight samples carry, least significant first |
| AudioStego.ReadBytes | src/steganography/audio.rs:116-126 | the byte loop returns the regrouped bits of `8 count` samples |
| AudioStego.Extract | src/steganography/audio.rs:79-129 | `extract` returns what `Extracted` specifies: ExtractError for a short file or an excessive length, otherwise the payload |
| AudioStego.EmbedOutcome | src/steganography/audio.rs:32-43 | `embed` succeeds exactly when `32 + 8|d| <= n`, and otherwise fails with EmbedError |
| AudioStego.EmbedOnlyTouchesLsbs | src/steganography/audio.rs:45-68 | `embed` keeps the sample count, only changes least-significant bits and leaves every sample from `32 + 8|d|` on unchanged |
| AudioStego.EmbeddedCarries | src/steganography/audio.rs:47-68 | after embedding, samples 0..31 carry `|d| as u32` and the next `8|d|` samples carry `d` |
| AudioStego.ExtractedFromStream | src/steganography/audio.rs:91-128 | if the samples carry a length `n` and then `8n` bits of payload, `extract` returns the payload |
| AudioStego.StampedExtracts | src/steganography/audio.rs:47-128 | extracting from samples into which a payload was written gives it back |
| AudioStego.RoundTrip | src/steganography/audio.rs:24-129 | `extract(embed(s, d)) == d` for every payload `embed` accepts, the empty one included |
| AudioStego.CanEmbedEmptyInShortFile | src/steganography/audio.rs:131-136 | `can_embed` approves an empty payload for a file of fewer than 32 samples, which `embed` refuses |
| AudioStego.CanEmbedAgrees | src/steganography/audio.rs:131-136 | from 32 samples on, `can_embed` approves exactly the payloads `embed` accepts |
| PdfStego.LastMarkerBelow | src/steganography/pdf.rs:26-27 | the backward search finds the last window below the bound that holds `%%EOF`, or shows there is none |
| PdfStego.SkipWhitespace | src/steganography/pdf.rs:30-32 | the whitespace loop stops at the first byte that is not `\n`, `\r` or space, or at the end |
| PdfStego.SkipWhitespaceLoop | src/steganography/pdf.rs:113-119 | the whitespace loop computes `SkipWhitespace` |
| PdfStego.FindEof | src/steganography/pdf.rs:21-37 | a found position lies past the first five bytes and within the file |
| PdfStego.FindEofMarker | src/steganography/pdf.rs:21-37 | the reverse loop with its early return computes `FindEof` |
| PdfStego.FindEofResult | src/steganography/pdf.rs:21-37 | the search finds nothing exactly when no window below `len - 5` holds the marker; otherwise its result is the end of the whitespace after the last such marker |
| PdfStego.CanEmbed | src/steganography/pdf.rs:165-169 | `can_embed` approves exactly the payloads of at most 100 000 000 bytes, whatever the file size |
| PdfStego.HiddenSection | src/steganography/pdf.rs:66-79 | the section is `18 + |d|` bytes: a newline, `LE32(|d| as u32)`, `d`, then the trailer |
| PdfStego.BuildHiddenSection | src/steganography/pdf.rs:67-79 | pushing and extending the section piece by piece computes `HiddenSection` |
| PdfStego.Embedded | src/steganography/pdf.rs:41-88 | `embed` succeeds exactly when the file has the header, the payload is within capacity and the search finds a marker; it fails only with EmbedError, and its output is the search result plus `18 + |d|` bytes long |
| PdfStego.Embed | src/steganography/pdf.rs:41-88 | `embed` returns what `Embedded` specifies: the errors for a missing header, an excessive size or a missing marker, otherwise the truncated content followed by the section |
| PdfStego.EmbeddedAt | src/steganography/pdf.rs:59-82 | once the search stops at `p`, `embed` keeps `content[..p]` and appends the hidden section |
| PdfStego.TrailerMatches | src/steganography/pdf.rs:153-160 | the 15-byte comparison with the 13-byte trailer never succeeds |
| PdfStego.Extracted | src/steganography/pdf.rs:90-163 | `extract` fails only with ExtractError; every payload it returns is non-empty and lies after the header, the marker and the four length bytes |
| PdfStego.HeaderHoldsNoMarker | src/steganography/pdf.rs:21-26 | no `%%EOF` marker starts inside the five-byte `%PDF-` header, so a found marker lies past it |
| PdfStego.Extract | src/steganography/pdf.rs:90-163 | `extract` returns what `Extracted` specifies: ExtractError in each of the six failure cases, otherwise the `dataLen` bytes after the length |
| PdfStego.SkipWhitespaceAt | src/steganography/pdf.rs:30-32 | the whitespace loop from `a` stops at the first non-whitespace byte `b` |
| PdfStego.ExtractSkipIsNoop | src/steganography/pdf.rs:112-119 | the whitespace loop of `extract` never advances past the position `find_eof_marker` returned |
| PdfStego.NoLaterMarker | src/steganography/pdf.rs:26-27 | after a marker followed by whitespace and marker-free bytes, no later window holds a marker |
| PdfStego.FindEofAt | src/steganography/pdf.rs:21-37 | the last marker below the bound, and the whitespace after it, determine the search result |
| PdfStego.SectionAt | src/steganography/pdf.rs:80-82 | where the newline, the length bytes and the payload lie once the section is appended |
| PdfStego.SectionStart | src/steganography/pdf.rs:70-73 | the section opens with a newline followed by the low byte of the length |
| PdfStego.ExtractedAt | src/steganography/pdf.rs:121-151 | an `extract` whose search stops in front of `LE32(|d|)` and `d` returns `d` |
| PdfStego.LayoutFront | src/steganography/pdf.rs:60-64 | the truncated content keeps the header, the marker and the whitespace after it |
| PdfStego.FindEofOfLayout | src/steganography/pdf.rs:26-33 | in an embedded file, the search stops just after the separating newline |
| PdfStego.LayoutFindEof | src/steganography/pdf.rs:26-33 | in an embedded file, including one with extra whitespace left by an earlier embedding, the search stops right after the newline of the section |
| PdfStego.ExtractAfterLayout | src/steganography/pdf.rs:90-163 | such a file extracts to the payload |
| PdfStego.RoundTrip | src/steganography/pdf.rs:41-163 | `extract(embed(c, d)) == d` when `|d| >= 1`, `|d| mod 256` is not 10, 13 or 32, and the section holds no `%%EOF` |
| PdfStego.EmbeddedLayout | src/steganography/pdf.rs:59-82 | in a freshly embedded file the search stops after the newline that opens the section |
| PdfStego.ReEmbed | src/steganography/pdf.rs:63-64 | embedding again replaces the old section but leaves its newline behind |
| PdfStego.ReEmbedRoundTrip | src/steganography/pdf.rs:60-64 | after two embeddings, under the same side conditions, the second payload is extracted |
| PdfStego.ExtractedLengthNotWhitespace | src/steganography/pdf.rs:113-132 | every extracted payload has a length whose low byte is not whitespace |
| PdfStego.WhitespaceLengthLost | src/steganography/pdf.rs:29-32 | a payload whose length is 10, 13 or 32 mod 256 never comes back |
| PdfStego.EmptyPayloadNeverExtracts | src/steganography/pdf.rs:135-139 | an empty payload is embedded, but `extract` rejects its zero length |
| PdfStego.ZeroLengthAt | src/steganography/pdf.rs:132-139 | an `extract` whose search stops in front of a zero length fails with ExtractError |
| PdfStego.EmptySectionHasNoMarker | src/steganography/pdf.rs:66-79 | the section of an empty payload holds no `%%EOF` |
| PdfStego.LastWindowNeverExamined | src/steganography/pdf.rs:26 | `%PDF-%%EOF` has its marker in the last window, which is never examined, so `embed` fails |
| PdfStego.TenBytesLost | src/steganography/pdf.rs:29-32 | `%PDF-%%EOF\n` accepts a ten-byte payload, which then does not extract |
| PdfStego.HijackedEmbedding | src/steganography/pdf.rs:64-82 | embedding `%%EOF` into `%PDF-%%EOF\n` gives the file that the next two lemmas examine |
| PdfStego.HijackedSearch | src/steganography/pdf.rs:26-33 | in that file, the search stops at the `%%EOF` inside the payload |
| PdfStego.HijackedLength | src/steganography/pdf.rs:141-148 | the length read there runs past the end of the file |
| PdfStego.MarkerInPayloadHijacks | src/steganography/pdf.rs:26-33 | a payload holding `%%EOF` embeds but does not extract |
| PdfStego.TrailerHasNoMarker | src/steganography/pdf.rs:79 | the trailer holds no `%%EOF` |
| PdfStego.LastMarker | src/steganography/pdf.rs:26-27 | the corrected search finds the last marker anywhere in the file, or shows there is none |
| PdfStego.LastMarkerIs | src/steganography/pdf.rs:26-27 | a marker with no marker after it is the one the corrected search finds |
| PdfStego.EmbeddedFixed | src/steganography/pdf.rs:41-88 | the corrected `embed` succeeds exactly when there is a header, a payload within capacity and a marker; its output is the content up to the end of the marker, then the `18 + |d|` bytes of the section |
| PdfStego.ExtractedFixed | src/steganography/pdf.rs:90-163 | the corrected `extract` fails only with ExtractError; every payload it returns is non-empty and lies after the last marker, its newline and the four length bytes |
| PdfStego.FixedLayout | src/steganography/pdf.rs:60-82 | the corrected output keeps the header and the marker, after which only the section follows |
| PdfStego.FixedExtractedAt | src/steganography/pdf.rs:121-151 | the corrected `extract` reads the length right after the newline that follows the marker |
| PdfStego.FixedRoundTrip | src/steganography/pdf.rs:41-163 | the corrected pair round-trips every non-empty, marker-free payload, whatever its length |
| PdfStego.FixedReEmbed | src/steganography/pdf.rs:60-64 | a second corrected embedding gives what a single embedding into the original file gives |
| PdfStego.FixedFindsFinalMarker | src/steganography/pdf.rs:26 | the corrected search finds a marker in the last window |
| PdfStego.NewlineEndedMarker | src/steganography/pdf.rs:26-27 | the only marker of `%PDF-%%EOF\n` is the last one the corrected search finds |
| PdfStego.FixedHijackedEmbedding | src/steganography/pdf.rs:64-82 | the corrected `embed` of `%%EOF` into `%PDF-%%EOF\n` gives the file the next two lemmas examine |
| PdfStego.FixedHijackedSearch | src/steganography/pdf.rs:26-27 | in that file, the corrected search finds the `%%EOF` inside the payload |
| PdfStego.FixedHijackedLength | src/steganography/pdf.rs:141-148 | the length the corrected `extract` reads there runs past the end of the file |
| PdfStego.FixedMarkerInPayloadHijacks | src/steganography/pdf.rs:26-33 | with the corrected code too, a payload holding `%%EOF` embeds but does not extract |
| Envelope.WithKey | src/crypto/encryption.rs:21-28 | `get_key(with_key(k)) == k`; the row covers `get_key` too, which `Envelope.GetKey` models and which carries no contract of its own |
| Envelope.WithGetKey | src/crypto/encryption.rs:21-28 | a manager is rebuilt from its own key |
| Envelope.Frame | src/crypto/encryption.rs:45-53 | the frame is `16 + |ct|` bytes, with the nonce at 4..16 and the ciphertext after it; its prefix decodes to `(len - 4) as u32` |
| Envelope.Encrypted | src/crypto/encryption.rs:31-56 | `encrypt` fails with EncryptionError exactly when the cipher fails, and otherwise returns the frame of the ciphertext |
| Envelope.Encrypt | src/crypto/encryption.rs:31-56 | the nonce, the ciphertext and the length prefix, assembled by appending, give `Encrypted` |
| Envelope.ParseFrame | src/crypto/encryption.rs:59-84 | a frame parses exactly when it has at least 17 bytes and its prefix equals `len - 4`; it then splits into `bytes[4..16]` and `bytes[16..]` |
| Envelope.Decrypted | src/crypto/encryption.rs:59-93 | `decrypt` fails with DecryptionError on short input, on a length mismatch or when the cipher fails; otherwise it returns what the cipher opens from exactly `bytes[4..16]` and `bytes[16..]` |
| Envelope.ParseFrameOfFrame | src/crypto/encryption.rs:46-78 | parsing the frame of `(nonce, ct)`, where `ct` is not empty, gives `(nonce, ct)` back |
| Envelope.FrameOfParseFrame | src/crypto/encryption.rs:68-84 | a frame that parses is the frame of what it parses to |
| Envelope.OversizedFrameRejected | src/crypto/encryption.rs:50-78 | a frame longer than a u32 can count gets a truncated prefix and is rejected |
| Envelope.EncryptDecrypt | src/crypto/encryption.rs:31-93 | `decrypt(encrypt(p)) == p` for any cipher whose opening undoes its non-empty sealing |
| Legacy.EmbeddedInAudio | src/encryption.rs:22-28 | sample `i < |d|` carries `d[i] & 1` and keeps its upper bits; every later sample is unchanged |
| Legacy.EmbeddedInAudioCut | src/encryption.rs:23-26 | only the first `n` payload bytes reach a file of `n` samples |
| Legacy.EmbedInAudio | src/encryption.rs:17-35 | the loop with its `break` computes `EmbeddedInAudio` |
| Legacy.LengthBits | src/encryption.rs:44-47 | the four "length bytes" are single bits, of samples 0..3 |
| Legacy.ExtractedFromAudio | src/encryption.rs:37-58 | ExtractError for fewer than four samples or a length past the end; otherwise exactly that many bytes, byte `k` being bit 0 of sample `k + 4` |
| Legacy.ExtractFromAudio | src/encryption.rs:37-58 | the two loops compute `ExtractedFromAudio` |
| Legacy.AudioLossy | src/encryption.rs:27 | a payload holding a byte other than 0 or 1 never comes back |
| Legacy.AudioReadsLowBits | src/encryption.rs:41-57 | what does come back: the low bits of the payload, its first four read as the length |
| Legacy.EncryptedAes | src/encryption.rs:79-101 | `encrypt_aes` panics exactly when the cipher fails; otherwise it returns the u32 length of the rest, the nonce, then the ciphertext |
| Legacy.EncryptAes | src/encryption.rs:79-101 | `encrypt_aes` computes `EncryptedAes` |
| Legacy.EncryptAesMatchesLibrary | src/encryption.rs:79-101 | `encrypt_aes` writes the library's frame, and panics exactly where `encrypt` returns EncryptionError |
| Legacy.DecryptedAes | src/encryption.rs:103-130 | `decrypt_aes` fails only by panicking; it panics on fewer than 17 bytes and on a length prefix that disagrees with the size, and returns what the cipher opens from bytes 4..15 as nonce and the rest as ciphertext |
| Legacy.DecryptAesMatchesLibrary | src/encryption.rs:103-130 | `decrypt_aes` accepts exactly the frames `decrypt` accepts, returns the same plaintext, and panics where `decrypt` returns DecryptionError |
| Legacy.EmbeddedInImage | src/encryption.rs:133-184 | `embed_in_image` panics at its size check exactly when `32 + 8|d| > 3wh`, succeeds exactly when `32 + 8|d| <= wh`, and then keeps the dimensions |
| Legacy.EmbedInImage | src/encryption.rs:133-184 | `embed_in_image` computes `EmbeddedInImage`: a panic when `32 + 8|d| > 3wh`, the `get_pixel` panic, or the library's stamped image |
| Legacy.EmbedInImageMatchesLibrary | src/encryption.rs:141-145 | where the payload fits the channels, `embed_in_image` is the library's `embed`; elsewhere it panics where the library errs |
| Legacy.ExtractedFromImage | src/encryption.rs:186-249 | every payload `extract_from_image` returns has at least 16 bytes, and its slots lie inside the image |
| Legacy.PayloadOfLength | src/encryption.rs:212-248 | once the length is read, `extract_from_image` fails exactly when it is below 16 or its slots leave the image, with ExtractError or the `get_pixel` panic, and otherwise returns that many bytes |
| Legacy.RejectShort | src/encryption.rs:244-248 | the final check refuses fewer than 16 bytes and returns the rest as they are |
| Legacy.ExtractFromImage | src/encryption.rs:186-249 | `extract_from_image` computes `ExtractedFromImage` |
| Legacy.ReadPayload | src/encryption.rs:212-248 | the checks on the length, the data loop and the final check compute `PayloadOfLength` |
| Legacy.ExtractFromImageMatchesLibrary | src/encryption.rs:212-223 | `32 + 8 len > 3wh` is the library's `len > capacity` without the underflow, so `extract_from_image` equals `extract` on every image |
| Legacy.ExtractFromImageFinalCheckUnreachable | src/encryption.rs:244-246 | every payload returned has at least 16 bytes, so the final check is never taken |
| Steganography.Embed | src/steganography/traits.rs:7 | `embed` on a carrier gives a carrier of the same kind, with the same dimensions or sample count |
| Steganography.Extract | src/steganography/traits.rs:10 | `extract` on a carrier is that carrier's extraction |
| Steganography.CanEmbed | src/steganography/traits.rs:13 | `can_embed` compares against each carrier's capacity, approves only the empty payload for an audio file shorter than the prefix, and fails only on an image too small for the prefix |
| Steganography.EmbedImpliesCanEmbed | src/steganography/traits.rs:5-14 | whatever `embed` accepts, `can_embed` approves |
| Steganography.RoundTrip | src/steganography/traits.rs:5-14 | every recoverable payload comes back through the common interface |

## Left out

- Decoding and encoding of files (`image::open`/`save`, `WavReader`/`WavWriter`, `fs::read`/`write`/`metadata`) are left out; carriers are decoded values. A lossy re-save (such as JPEG) would destroy the bits the model writes.
- Only the RGBA pixel `get_pixel` returns is modelled; the conversions the `image` crate makes for other colour types are not.
- hound's `samples::<i16>()` on files that are not 16-bit is left out. `AudioStego.RoundTrip` requires fewer than 2^32 samples, because hound counts samples in a u32.
- AES-256-GCM and the random nonce and key (`rng().fill_bytes`, `CryptoManager::new`, `Default`) are not modelled. Sealing and opening are the parameters `Seal` and `Open`, and the nonce is a parameter of `Encrypt`. No relation between plaintext and ciphertext length is assumed.
- The legacy `CrytpoManager::with_key` and `get_key` (src/encryption.rs:70-77) are the library's, so `Envelope.WithKey` and `Envelope.GetKey` stand for both.
- Error messages are dropped; only the error variant is kept. The I/O, image and audio error variants never arise, since no file is read.
- Release builds wrap the underflow of `calculate_capacity` in image.rs instead of panicking. The model follows debug builds.
- The legacy `width * height` is a u32 product and `data.len() * 8` is a usize product; their overflow is not modelled. `ImageStego.Valid` bounds the image so that `3wh < 2^32`.
- The command-line interface, key file handling, prompts and `catch_unwind` (src/cli/mod.rs, src/main.rs, src/utils.rs, src/crypto/key_manager.rs) are outside the engine.
- `Bytes.Unbits` drops a trailing group of fewer than eight bits. The model only applies it to multiples of eight, as the source only reads whole bytes.
- `PdfStego.RoundTrip` and `Steganography.RoundTrip` carry side conditions: a non-empty payload, a length whose low byte is not whitespace, and no `%%EOF` in the hidden section. The source needs these: `PdfStego.EmptyPayloadNeverExtracts` shows that an empty payload never comes back, and the findings below show the same for a length whose low byte is whitespace.
- A `%%EOF` inside the payload takes over the search of both the original and the corrected PDF code (`PdfStego.MarkerInPayloadHijacks`, `PdfStego.FixedMarkerInPayloadHijacks`), so the corrected round trip keeps that side condition.
- The carrier-level `Steganography` functions keep the code as written. The corrected definitions under "Findings" sit beside the as-written ones in their modules.

## Findings

| source | as written | input that shows it | evidently intended | confidence | as-written member | corrected member |
|---|---|---|---|---|---|---|
| src/steganography/image.rs:39-41 | the capacity counts three channel bits per pixel and `embed` picks channel `bit_count % 3`, yet slot `i` is addressed at pixel `(i % w, i / w)`, one slot per pixel; the same addressing recurs at lines 56-58, 85-87 and 120-122 | a blank 10 x 10 image and a 16-byte payload: capacity 33, then `get_pixel` panics at slot 100 | three slots per pixel, as the comment at image.rs:13 says: slot `i` is channel `i % 3` of pixel `i / 3`, so every payload that passes the capacity check is written and extracted | not executed | ImageStego.CapacityOverstatesSlots | ImageStego.PackedRoundTrip |
| src/steganography/pdf.rs:26 | the backward search starts below `len - 5`, so the last window is never examined | `%PDF-%%EOF`: `embed` reports no marker | a file ending in `%%EOF` is accepted | not executed | PdfStego.LastWindowNeverExamined | PdfStego.FixedFindsFinalMarker |
| src/steganography/pdf.rs:29-32 | the whitespace loop after the marker also skips the section's newline, and then a first length byte of 10, 13 or 32 | `%PDF-%%EOF\n` with a ten-byte payload: it embeds, but does not extract | every embedded payload extracts | not executed | PdfStego.TenBytesLost | PdfStego.FixedRoundTrip |
| src/steganography/pdf.rs:63-64 | truncating after the whitespace keeps the newline of an earlier hidden section, so each re-embedding adds one more | any file `embed` accepts, embedded twice: the output holds `\n\n` before the new section | embedding again replaces the old section completely | not executed | PdfStego.ReEmbed | PdfStego.FixedReEmbed |
