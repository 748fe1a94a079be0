/** The common interface of the three carriers (src/steganography/traits.rs): embed a
    payload, extract it, and ask whether a payload of a given size fits. Here a carrier is
    the decoded file itself rather than a path, and `embed` returns the new carrier instead
    of writing it out. */
module Steganography {
  import opened Errors
  import opened Bytes
  import ImageStego
  import AudioStego
  import PdfStego

  datatype Carrier =
    | ImageFile(img: ImageStego.Image)
    | AudioFile(samples: seq<AudioStego.i16>)
    | PdfFile(content: seq<byte>)

  /** A decoded image has one pixel per grid cell. */
  predicate Valid(c: Carrier)
  {
    c.ImageFile? ==> ImageStego.Valid(c.img)
  }

  /** `Steganography::embed` on each kind of carrier. The result is a carrier of the same
      kind; an image keeps its dimensions and an audio file its sample count. */
  function Embed(c: Carrier, data: seq<byte>): (r: Result<Carrier>)
    requires Valid(c)
    ensures r.Ok? ==> Valid(r.value)
    ensures r.Ok? && c.ImageFile? ==>
      r.value.ImageFile? && r.value.img.width == c.img.width && r.value.img.height == c.img.height
    ensures r.Ok? && c.AudioFile? ==> r.value.AudioFile? && |r.value.samples| == |c.samples|
    ensures r.Ok? && c.PdfFile? ==> r.value.PdfFile?
  {
    match c
    case ImageFile(img) =>
      (match ImageStego.Embedded(img, data)
       case Err(e) => Err(e)
       case Ok(out) => Ok(ImageFile(out)))
    case AudioFile(samples) =>
      (match AudioStego.Embedded(samples, data)
       case Err(e) => Err(e)
       case Ok(out) => Ok(AudioFile(out)))
    case PdfFile(content) =>
      (match PdfStego.Embedded(content, data)
       case Err(e) => Err(e)
       case Ok(out) => Ok(PdfFile(out)))
  }

  /** `Steganography::extract` on each kind of carrier. */
  function Extract(c: Carrier): (r: Result<seq<byte>>)
    requires Valid(c)
    ensures c.ImageFile? ==> r == ImageStego.Extracted(c.img)
    ensures c.AudioFile? ==> r == AudioStego.Extracted(c.samples)
    ensures c.PdfFile? ==> r == PdfStego.Extracted(c.content)
  {
    match c
    case ImageFile(img) => ImageStego.Extracted(img)
    case AudioFile(samples) => AudioStego.Extracted(samples)
    case PdfFile(content) => PdfStego.Extracted(content)
  }

  /** `Steganography::can_embed`: `dataSize <= capacity`, where the capacity of an image is
      the channel count less the prefix, that of an audio file the sample count less the
      prefix, and that of a PDF a fixed 100 000 000 bytes. Only an image too small for the
      prefix makes it fail; an audio file shorter than the prefix approves only the empty
      payload. */
  function CanEmbed(c: Carrier, dataSize: nat): (r: Result<bool>)
    requires Valid(c)
    ensures r.Err? <==> c.ImageFile? && 3 * |c.img.pixels| < 32
    ensures r.Ok? && c.ImageFile? ==> (r.value <==> 32 + 8 * dataSize <= 3 * |c.img.pixels|)
    ensures r.Ok? && c.AudioFile? && |c.samples| >= 32 ==>
      (r.value <==> 32 + 8 * dataSize <= |c.samples|)
    ensures r.Ok? && c.AudioFile? && |c.samples| < 32 ==> (r.value <==> dataSize == 0)
    ensures r.Ok? && c.PdfFile? ==> (r.value <==> dataSize <= PdfStego.MAX_CAPACITY)
  {
    match c
    case ImageFile(img) => ImageStego.CanEmbed(img, dataSize)
    case AudioFile(samples) => Ok(AudioStego.CanEmbed(|samples|, dataSize))
    case PdfFile(content) => Ok(PdfStego.CanEmbed(|content|, dataSize))
  }

  /** Whatever `embed` accepts, `can_embed` approves: a "no" from `can_embed` means `embed`
      fails. */
  lemma EmbedImpliesCanEmbed(c: Carrier, data: seq<byte>)
    requires Valid(c) && Embed(c, data).Ok?
    ensures CanEmbed(c, |data|) == Ok(true)
  {
    match c
    case ImageFile(img) => ImageStego.EmbedOutcome(img, data);
    case AudioFile(samples) => AudioStego.EmbedOutcome(samples, data);
    case PdfFile(content) =>
  }

  /** The conditions under which each carrier gives its payload back: an image payload of
      at least 16 bytes whose slots lie inside the image; an audio payload that fits after
      the prefix, in a file of fewer than 2^32 samples; a PDF payload that `embed` accepts,
      is not empty, has a length that does not end in a whitespace byte and leaves no
      `%%EOF` in the hidden section. */
  predicate Recoverable(c: Carrier, data: seq<byte>)
    requires Valid(c)
  {
    match c
    case ImageFile(img) => 16 <= |data| && 32 + 8 * |data| <= |img.pixels|
    case AudioFile(samples) => |samples| < TWO_POW_32 && 32 + 8 * |data| <= |samples|
    case PdfFile(content) =>
      && PdfStego.Embedded(content, data).Ok?
      && 1 <= |data|
      && !PdfStego.IsWhitespace(|data| % 256)
      && PdfStego.NoMarkerIn(PdfStego.HiddenSection(data))
  }

  /** Through the common interface, extraction gives back every recoverable payload. */
  lemma RoundTrip(c: Carrier, data: seq<byte>)
    requires Valid(c) && Recoverable(c, data)
    ensures Embed(c, data).Ok?
    ensures Extract(Embed(c, data).value) == Ok(data)
  {
    match c
    case ImageFile(img) => ImageStego.RoundTrip(img, data);
    case AudioFile(samples) =>
      AudioStego.EmbedOutcome(samples, data);
      AudioStego.RoundTrip(samples, data);
    case PdfFile(content) => PdfStego.RoundTrip(content, data);
  }
}
