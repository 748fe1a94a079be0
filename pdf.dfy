/** Hiding data after the `%%EOF` marker of a PDF (src/steganography/pdf.rs).

    The hidden section `\n`, the little-endian u32 payload length, the payload and the
    trailer `\n%%STEGANO%%\n` replaces whatever follows the last examined `%%EOF` marker
    and the whitespace after it. */
module PdfStego {
  import opened Errors
  import opened Bytes

  /** `%PDF-` */
  const PDF_HEADER: seq<byte> := [37, 80, 68, 70, 45]
  /** `%%EOF` */
  const EOF_PATTERN: seq<byte> := [37, 37, 69, 79, 70]
  /** `\n%%STEGANO%%\n`, thirteen bytes. */
  const STEGANO_MARKER: seq<byte> := [10, 37, 37, 83, 84, 69, 71, 65, 78, 79, 37, 37, 10]
  /** `calculate_capacity` returns 100 MB whatever the size of the file. */
  const MAX_CAPACITY: nat := 100_000_000

  /** `\n`, `\r` or a space: the bytes skipped after the marker. */
  predicate IsWhitespace(b: byte)
  {
    b == 10 || b == 13 || b == 32
  }

  /** `starts_with(b"%PDF-")` */
  predicate StartsWithHeader(content: seq<byte>)
  {
    |content| >= 5 && content[..5] == PDF_HEADER
  }

  /** `content[i..i + 5] == b"%%EOF"` */
  predicate IsMarkerAt(content: seq<byte>, i: nat)
  {
    i + 5 <= |content| && content[i .. i + 5] == EOF_PATTERN
  }

  /** No marker starts inside the header: `%PDF-` has no `%` followed by `%`. */
  lemma HeaderHoldsNoMarker(content: seq<byte>)
    requires StartsWithHeader(content)
    ensures forall i :: 0 <= i < 5 ==> !IsMarkerAt(content, i)
  {
    forall i | 0 <= i < 5 && i + 5 <= |content|
      ensures !IsMarkerAt(content, i)
    {
      assert content[i] == content[..5][i];
      assert content[i .. i + 5][0] == content[i] && content[i .. i + 5][1] == content[i + 1];
      if i < 4 {
        assert content[i + 1] == content[..5][i + 1];
      }
    }
  }

  /** The last marker starting below `n`, if any. */
  function LastMarkerBelow(content: seq<byte>, n: nat): (r: Option<nat>)
    ensures r.Some? ==> r.value < n && IsMarkerAt(content, r.value)
    ensures r.Some? ==> forall j :: r.value < j < n ==> !IsMarkerAt(content, j)
    ensures r.None? ==> forall j :: 0 <= j < n ==> !IsMarkerAt(content, j)
    decreases n
  {
    if n == 0 then None
    else if IsMarkerAt(content, n - 1) then Some(n - 1)
    else LastMarkerBelow(content, n - 1)
  }

  /** The first position at or after `pos` that does not hold whitespace. */
  function SkipWhitespace(content: seq<byte>, pos: nat): (r: nat)
    requires pos <= |content|
    ensures pos <= r <= |content|
    ensures forall j :: pos <= j < r ==> IsWhitespace(content[j])
    ensures r < |content| ==> !IsWhitespace(content[r])
    decreases |content| - pos
  {
    if pos < |content| && IsWhitespace(content[pos]) then SkipWhitespace(content, pos + 1)
    else pos
  }

  /** The loop `while pos < len && content[pos] is whitespace { pos += 1 }`, which both
      `find_eof_marker` and `extract` run. */
  method SkipWhitespaceLoop(content: seq<byte>, start: nat) returns (pos: nat)
    requires start <= |content|
    ensures pos == SkipWhitespace(content, start)
  {
    pos := start;
    while pos < |content| && IsWhitespace(content[pos])
      invariant start <= pos <= |content|
      invariant SkipWhitespace(content, pos) == SkipWhitespace(content, start)
      decreases |content| - pos
    {
      pos := pos + 1;
    }
  }

  /** `content.len().saturating_sub(5)`: the bound of the backward search. The window at
      `len - 5` itself is never examined. */
  function SearchBound(content: seq<byte>): nat
  {
    if |content| < 5 then 0 else |content| - 5
  }

  /** `find_eof_marker`: the position after the last examined marker and the whitespace
      that follows it. */
  function FindEof(content: seq<byte>): (r: Option<nat>)
    ensures r.Some? ==> 5 <= r.value <= |content|
  {
    match LastMarkerBelow(content, SearchBound(content))
    case None => None
    case Some(i) => Some(SkipWhitespace(content, i + 5))
  }

  /** `find_eof_marker`: the backward search over the windows below `len - 5`, then the
      whitespace loop after the marker found. */
  method FindEofMarker(content: seq<byte>) returns (r: Option<nat>)
    ensures r == FindEof(content)
  {
    var bound := if |content| < 5 then 0 else |content| - 5;
    var i := bound;
    while i > 0
      invariant 0 <= i <= bound
      invariant LastMarkerBelow(content, i) == LastMarkerBelow(content, bound)
      decreases i
    {
      i := i - 1;
      if content[i .. i + 5] == EOF_PATTERN {
        var pos := SkipWhitespaceLoop(content, i + 5);
        return Some(pos);
      }
    }
    return None;
  }

  /** `calculate_capacity` and `can_embed`: whether `dataSize` bytes may be hidden; the
      size of the file plays no part. */
  function CanEmbed(pdfSize: nat, dataSize: nat): (r: bool)
    ensures r <==> dataSize <= MAX_CAPACITY
  {
    dataSize <= MAX_CAPACITY
  }

  /** The section `embed` appends: a newline, the length `data.len() as u32` little-endian,
      the payload and the trailer. */
  function HiddenSection(data: seq<byte>): (r: seq<byte>)
    ensures |r| == 18 + |data|
    ensures r[0] == 10 && r[1..5] == LE32(U32(|data|))
    ensures r[5 .. 5 + |data|] == data && r[5 + |data|..] == STEGANO_MARKER
  {
    [10] + LE32(U32(|data|)) + data + STEGANO_MARKER
  }

  /** What `embed` writes: an EmbedError for a file without the header, a payload above the
      capacity or a file without a marker; otherwise the content up to the end of the
      marker's whitespace, followed by the hidden section. */
  function Embedded(content: seq<byte>, data: seq<byte>): (r: Result<seq<byte>>)
    ensures r.Ok? <==> StartsWithHeader(content) && |data| <= MAX_CAPACITY && FindEof(content).Some?
    ensures r.Err? ==> r.error == EmbedError
    ensures r.Ok? ==> |r.value| == FindEof(content).value + 18 + |data|
  {
    if !StartsWithHeader(content) then Err(EmbedError)
    else if !CanEmbed(|content|, |data|) then Err(EmbedError)
    else match FindEof(content)
      case None => Err(EmbedError)
      case Some(eofPos) => Ok(content[..eofPos] + HiddenSection(data))
  }

  /** `embed`: the checks, the truncation at the marker, then the hidden section built
      piece by piece and appended. */
  method Embed(content: seq<byte>, data: seq<byte>) returns (r: Result<seq<byte>>)
    ensures r == Embedded(content, data)
  {
    var pdfContent := content;
    if !(|pdfContent| >= 5 && pdfContent[..5] == PDF_HEADER) {
      return Err(EmbedError);
    }
    if !CanEmbed(|content|, |data|) {
      return Err(EmbedError);
    }
    var found := FindEofMarker(pdfContent);
    if found.None? {
      return Err(EmbedError);
    }
    var eofPos := found.value;
    pdfContent := pdfContent[..eofPos];
    var hiddenSection := BuildHiddenSection(data);
    pdfContent := pdfContent + hiddenSection;
    r := Ok(pdfContent);
  }

  /** The hidden section of `embed`, built piece by piece. */
  method BuildHiddenSection(data: seq<byte>) returns (hiddenSection: seq<byte>)
    ensures hiddenSection == HiddenSection(data)
  {
    hiddenSection := [];
    hiddenSection := hiddenSection + [10];
    hiddenSection := hiddenSection + LE32(U32(|data|));
    hiddenSection := hiddenSection + data;
    hiddenSection := hiddenSection + STEGANO_MARKER;
  }

  /** What `extract` returns: an ExtractError for a missing header, a missing marker,
      nothing after it, fewer than four bytes for the length, a zero length or a length
      running past the end; otherwise the `dataLen` bytes after the length. */
  function Extracted(content: seq<byte>): (r: Result<seq<byte>>)
    ensures r.Err? ==> r.error == ExtractError
    ensures r.Ok? ==> 1 <= |r.value| && 14 + |r.value| <= |content|
  {
    if !StartsWithHeader(content) then Err(ExtractError)
    else match FindEof(content)
      case None => Err(ExtractError)
      case Some(eofPos) =>
        HeaderHoldsNoMarker(content);
        if eofPos >= |content| then Err(ExtractError)
        else
          var dataStart := SkipWhitespace(content, eofPos);
          if dataStart + 4 > |content| then Err(ExtractError)
          else
            var dataLen := DecodeLE32(content[dataStart .. dataStart + 4]);
            if dataLen == 0 then Err(ExtractError)
            else if dataStart + 4 + dataLen > |content| then Err(ExtractError)
            else Ok(content[dataStart + 4 .. dataStart + 4 + dataLen])
  }

  /** The trailer check of `extract`, which compares fifteen bytes with the thirteen-byte
      trailer and so never succeeds; its outcome is not used. */
  function TrailerMatches(content: seq<byte>, end: nat): (r: bool)
    requires end + 15 <= |content|
    ensures !r
  {
    var marker := content[end .. end + 15];
    assert |marker| != |STEGANO_MARKER|;
    marker == STEGANO_MARKER
  }

  /** `extract`: the header, the marker, the whitespace loop, the length, the bounds
      checks, the copy of the payload and the trailer comparison. */
  method Extract(content: seq<byte>) returns (r: Result<seq<byte>>)
    ensures r == Extracted(content)
  {
    if !(|content| >= 5 && content[..5] == PDF_HEADER) {
      return Err(ExtractError);
    }
    var found := FindEofMarker(content);
    if found.None? {
      return Err(ExtractError);
    }
    var eofPos := found.value;
    if eofPos >= |content| {
      return Err(ExtractError);
    }
    var dataStart := SkipWhitespaceLoop(content, eofPos);
    if dataStart + 4 > |content| {
      return Err(ExtractError);
    }
    var lenBytes := content[dataStart .. dataStart + 4];
    var dataLen := DecodeLE32(lenBytes);
    if dataLen == 0 {
      return Err(ExtractError);
    }
    var dataStartPos := dataStart + 4;
    var dataEndPos := dataStartPos + dataLen;
    if dataEndPos > |content| {
      return Err(ExtractError);
    }
    var extractedData := content[dataStartPos .. dataEndPos];
    var markerMatches := true;
    if dataEndPos + 15 <= |content| {
      markerMatches := TrailerMatches(content, dataEndPos);
    }
    r := Ok(extractedData);
  }

  /** No `%%EOF` window anywhere in `s`. */
  predicate NoMarkerIn(s: seq<byte>)
  {
    forall i :: 0 <= i < |s| ==> !IsMarkerAt(s, i)
  }

  /** The whitespace search stops at the first non-whitespace byte. */
  lemma SkipWhitespaceAt(content: seq<byte>, a: nat, b: nat)
    requires a <= b <= |content|
    requires forall j :: a <= j < b ==> IsWhitespace(content[j])
    requires b < |content| ==> !IsWhitespace(content[b])
    ensures SkipWhitespace(content, a) == b
  {
  }

  /** `find_eof_marker` finds nothing exactly when no window below `len - 5` holds the
      marker; otherwise its result lies past a marker and the whitespace after it. */
  lemma FindEofResult(content: seq<byte>)
    ensures FindEof(content).None? <==>
      forall i :: 0 <= i < SearchBound(content) ==> !IsMarkerAt(content, i)
    ensures FindEof(content).Some? ==>
      var i := LastMarkerBelow(content, SearchBound(content)).value;
      && i < SearchBound(content) && IsMarkerAt(content, i)
      && (forall j :: i < j < SearchBound(content) ==> !IsMarkerAt(content, j))
      && FindEof(content).value == SkipWhitespace(content, i + 5)
  {
  }

  /** The whitespace loop of `extract` never moves: `find_eof_marker` already stopped at
      a byte that is not whitespace, or at the end. */
  lemma ExtractSkipIsNoop(content: seq<byte>)
    requires FindEof(content).Some?
    ensures SkipWhitespace(content, FindEof(content).value) == FindEof(content).value
  {
    var p := FindEof(content).value;
    SkipWhitespaceAt(content, p, p);
  }

  /** A file ending in `%%EOF` with nothing after it: the marker occupies the last window,
      which the search never examines, so `embed` finds no marker. */
  lemma LastWindowNeverExamined(data: seq<byte>)
    ensures var content := PDF_HEADER + EOF_PATTERN;
      && IsMarkerAt(content, 5)
      && FindEof(content) == None
      && Embedded(content, data) == Err(EmbedError)
  {
    var content := PDF_HEADER + EOF_PATTERN;
    assert content[5..10] == EOF_PATTERN;
    forall i | 0 <= i < 5
      ensures !IsMarkerAt(content, i)
    {
      assert content[i .. i + 5][1] == content[i + 1];
    }
  }

  /** The windows after a marker at `m`, followed by whitespace up to `L` and then by bytes
      free of markers, hold no marker. */
  lemma NoLaterMarker(x: seq<byte>, m: nat, L: nat)
    requires IsMarkerAt(x, m) && m + 5 <= L <= |x|
    requires forall j :: m + 5 <= j < L ==> IsWhitespace(x[j])
    requires NoMarkerIn(x[L..])
    ensures forall j :: m < j ==> !IsMarkerAt(x, j)
  {
    forall j | m < j
      ensures !IsMarkerAt(x, j)
    {
      if j + 5 <= |x| {
        var w := x[j .. j + 5];
        if j < m + 5 {
          assert x[m .. m + 5][j - m] == x[j] == w[0];
          assert x[m .. m + 5][2] == x[m + 2];
          assert j == m + 1 ==> w[1] == x[m + 2];
        } else if j < L {
          assert w[0] == x[j];
        } else {
          assert x[L..][j - L .. j - L + 5] == w;
          assert !IsMarkerAt(x[L..], j - L);
        }
      }
    }
  }

  /** The search result once the last marker below the bound and the whitespace after it
      are known. */
  lemma FindEofAt(x: seq<byte>, m: nat, p: nat)
    requires IsMarkerAt(x, m) && m < SearchBound(x)
    requires forall j :: m < j ==> !IsMarkerAt(x, j)
    requires m + 5 <= p <= |x|
    requires forall j :: m + 5 <= j < p ==> IsWhitespace(x[j])
    requires p < |x| ==> !IsWhitespace(x[p])
    ensures FindEof(x) == Some(p)
  {
    var r := LastMarkerBelow(x, SearchBound(x));
    assert r == Some(m);
    SkipWhitespaceAt(x, m + 5, p);
  }

  /** Where the pieces of a hidden section appended to `front` lie. */
  lemma SectionAt(x: seq<byte>, front: seq<byte>, data: seq<byte>)
    requires |data| <= MAX_CAPACITY && x == front + HiddenSection(data)
    ensures |x| == |front| + 18 + |data|
    ensures x[..|front|] == front && x[|front|..] == HiddenSection(data)
    ensures x[|front|] == 10 && x[|front| + 1] == |data| % 256
    ensures x[|front| + 1 .. |front| + 5] == LE32(|data|)
    ensures x[|front| + 5 .. |front| + 5 + |data|] == data
  {
    var section := HiddenSection(data);
    var L := |front|;
    assert U32(|data|) == |data|;
    assert x[L + 1 .. L + 5] == section[1..5];
    assert x[L + 5 .. L + 5 + |data|] == section[5 .. 5 + |data|];
  }

  /** What `extract` does once the search has stopped at `p` in front of the length `n`
      and `n` bytes follow the length. */
  lemma ExtractedAt(x: seq<byte>, p: nat, data: seq<byte>)
    requires StartsWithHeader(x) && FindEof(x) == Some(p)
    requires 1 <= |data| < TWO_POW_32 && p + 4 + |data| <= |x|
    requires x[p .. p + 4] == LE32(|data|) && x[p + 4 .. p + 4 + |data|] == data
    ensures Extracted(x) == Ok(data)
  {
    ExtractSkipIsNoop(x);
  }

  /** What `embed` does once the search has stopped at `p`. */
  lemma EmbeddedAt(x: seq<byte>, p: nat, data: seq<byte>)
    requires StartsWithHeader(x) && FindEof(x) == Some(p) && |data| <= MAX_CAPACITY
    ensures Embedded(x, data) == Ok(x[..p] + HiddenSection(data))
  {
  }

  /** The contents after `embed`, possibly with extra whitespace left by an earlier
      embedding between the truncation point and the hidden section: the search stops at
      the marker of the original file, and the whitespace after it runs on through the
      newline of the section, as the first length byte is not whitespace. */
  lemma LayoutFindEof(content: seq<byte>, pos: nat, gap: seq<byte>, front: seq<byte>,
                      section: seq<byte>, x: seq<byte>)
    requires StartsWithHeader(content) && FindEof(content) == Some(pos)
    requires forall j :: 0 <= j < |gap| ==> IsWhitespace(gap[j])
    requires 6 <= |section| && section[0] == 10 && !IsWhitespace(section[1])
    requires NoMarkerIn(section)
    requires front == content[..pos] + gap && x == front + section
    ensures StartsWithHeader(x) && FindEof(x) == Some(|front| + 1)
  {
    Concat(front, section, x);
    var m := LayoutFront(content, pos, gap, front, x);
    FindEofOfLayout(x, m, |front|);
  }

  /** Where the two parts of a concatenation lie. */
  lemma Concat(front: seq<byte>, section: seq<byte>, x: seq<byte>)
    requires x == front + section && 2 <= |section|
    ensures |x| == |front| + |section|
    ensures x[..|front|] == front && x[|front|..] == section
    ensures x[|front|] == section[0] && x[|front| + 1] == section[1]
    ensures x[..|front| + 1] == front + [section[0]]
  {
    assert x[..|front| + 1] == x[..|front|] + [x[|front|]];
  }

  /** The hidden section opens with a newline and the low byte of the length. */
  lemma SectionStart(data: seq<byte>)
    requires |data| <= MAX_CAPACITY
    ensures 6 <= |HiddenSection(data)| && HiddenSection(data)[0] == 10
    ensures HiddenSection(data)[1] == |data| % 256
  {
    var section := HiddenSection(data);
    assert U32(|data|) == |data|;
    assert section[1] == section[1..5][0];
  }

  /** The part of the contents in front of the hidden section keeps the header, the last
      examined marker `m` and the whitespace after it, and the gap adds only whitespace. */
  lemma LayoutFront(content: seq<byte>, pos: nat, gap: seq<byte>, front: seq<byte>, x: seq<byte>)
    returns (m: nat)
    requires StartsWithHeader(content) && FindEof(content) == Some(pos)
    requires forall j :: 0 <= j < |gap| ==> IsWhitespace(gap[j])
    requires front == content[..pos] + gap && |front| <= |x| && x[..|front|] == front
    ensures |front| == pos + |gap| && m + 5 <= |front|
    ensures StartsWithHeader(x) && IsMarkerAt(x, m)
    ensures forall j :: m + 5 <= j < |front| ==> IsWhitespace(x[j])
  {
    FindEofResult(content);
    m := LastMarkerBelow(content, SearchBound(content)).value;
    assert x[..5] == front[..5] == content[..5];
    assert x[m .. m + 5] == front[m .. m + 5] == content[m .. m + 5];
    forall j | m + 5 <= j < |front|
      ensures IsWhitespace(x[j])
    {
      assert x[j] == front[j];
      if j < pos {
        assert front[j] == content[j];
      } else {
        assert front[j] == gap[j - pos];
      }
    }
  }

  /** A marker at `m`, whitespace up to and including position `L`, then a byte that is not
      whitespace and no marker from `L` on: the search stops just after `L`. */
  lemma FindEofOfLayout(x: seq<byte>, m: nat, L: nat)
    requires IsMarkerAt(x, m) && m + 5 <= L && L + 6 <= |x|
    requires forall j :: m + 5 <= j < L ==> IsWhitespace(x[j])
    requires x[L] == 10 && !IsWhitespace(x[L + 1])
    requires NoMarkerIn(x[L..])
    ensures FindEof(x) == Some(L + 1)
  {
    NoLaterMarker(x, m, L);
    FindEofAt(x, m, L + 1);
  }

  /** The same contents: extraction returns the payload when it is not empty. */
  lemma ExtractAfterLayout(content: seq<byte>, pos: nat, gap: seq<byte>, front: seq<byte>,
                           data: seq<byte>, x: seq<byte>)
    requires StartsWithHeader(content) && FindEof(content) == Some(pos)
    requires forall j :: 0 <= j < |gap| ==> IsWhitespace(gap[j])
    requires 1 <= |data| <= MAX_CAPACITY && !IsWhitespace(|data| % 256)
    requires NoMarkerIn(HiddenSection(data))
    requires front == content[..pos] + gap && x == front + HiddenSection(data)
    ensures Extracted(x) == Ok(data)
  {
    SectionAt(x, front, data);
    SectionStart(data);
    LayoutFindEof(content, pos, gap, front, HiddenSection(data), x);
    ExtractedAt(x, |front| + 1, data);
  }

  /** Extraction gives back what `embed` hid, provided the payload is not empty, its length
      does not end in a whitespace byte and the hidden section holds no `%%EOF`. */
  lemma RoundTrip(content: seq<byte>, data: seq<byte>)
    requires Embedded(content, data).Ok?
    requires 1 <= |data| && !IsWhitespace(|data| % 256) && NoMarkerIn(HiddenSection(data))
    ensures Extracted(Embedded(content, data).value) == Ok(data)
  {
    var pos := FindEof(content).value;
    var x := Embedded(content, data).value;
    assert content[..pos] + [] == content[..pos];
    ExtractAfterLayout(content, pos, [], content[..pos], data, x);
  }

  /** The search in a freshly embedded file stops after the newline that opens the hidden
      section. */
  lemma EmbeddedLayout(content: seq<byte>, pos: nat, section: seq<byte>, out: seq<byte>)
    requires StartsWithHeader(content) && FindEof(content) == Some(pos)
    requires 6 <= |section| && section[0] == 10 && !IsWhitespace(section[1])
    requires NoMarkerIn(section)
    requires out == content[..pos] + section
    ensures StartsWithHeader(out) && FindEof(out) == Some(pos + 1)
    ensures out[..pos + 1] == content[..pos] + [10]
  {
    var front := content[..pos];
    assert front == front + [];
    LayoutFindEof(content, pos, [], front, section, out);
    Concat(front, section, out);
  }

  /** Embedding into an embedded file replaces the old section but leaves its newline
      behind. */
  lemma ReEmbed(content: seq<byte>, first: seq<byte>, second: seq<byte>)
    requires Embedded(content, first).Ok?
    requires !IsWhitespace(|first| % 256) && NoMarkerIn(HiddenSection(first))
    requires |second| <= MAX_CAPACITY
    ensures var pos := FindEof(content).value;
      Embedded(Embedded(content, first).value, second) ==
        Ok(content[..pos] + [10] + HiddenSection(second))
  {
    var pos := FindEof(content).value;
    var once := Embedded(content, first).value;
    assert once == content[..pos] + HiddenSection(first);
    SectionStart(first);
    EmbeddedLayout(content, pos, HiddenSection(first), once);
    EmbeddedAt(once, pos + 1, second);
  }

  /** After two embeddings the second payload is the one extracted. */
  lemma ReEmbedRoundTrip(content: seq<byte>, first: seq<byte>, second: seq<byte>)
    requires Embedded(content, first).Ok?
    requires !IsWhitespace(|first| % 256) && NoMarkerIn(HiddenSection(first))
    requires 1 <= |second| <= MAX_CAPACITY && !IsWhitespace(|second| % 256)
    requires NoMarkerIn(HiddenSection(second))
    ensures Embedded(Embedded(content, first).value, second).Ok?
    ensures Extracted(Embedded(Embedded(content, first).value, second).value) == Ok(second)
  {
    ReEmbed(content, first, second);
    var pos := FindEof(content).value;
    ExtractAfterLayout(content, pos, [10], content[..pos] + [10], second,
      content[..pos] + [10] + HiddenSection(second));
  }

  /** Whatever `extract` returns has a length whose low byte is not whitespace: the length
      is read where the whitespace search stopped. */
  lemma ExtractedLengthNotWhitespace(content: seq<byte>)
    requires Extracted(content).Ok?
    ensures !IsWhitespace(|Extracted(content).value| % 256)
  {
    var eofPos := FindEof(content).value;
    var dataStart := SkipWhitespace(content, eofPos);
    assert content[dataStart .. dataStart + 4][0] == content[dataStart];
  }

  /** As written, a payload whose length is 10, 13 or 32 modulo 256 never comes back:
      `find_eof_marker` skips its first length byte as whitespace. */
  lemma WhitespaceLengthLost(content: seq<byte>, data: seq<byte>)
    requires Embedded(content, data).Ok? && IsWhitespace(|data| % 256)
    ensures Extracted(Embedded(content, data).value) != Ok(data)
  {
    var out := Embedded(content, data).value;
    if Extracted(out).Ok? {
      ExtractedLengthNotWhitespace(out);
    }
  }

  /** An empty payload is embedded but never comes back: the search stops at its length
      bytes, which read as zero, and `extract` rejects a zero length. */
  lemma EmptyPayloadNeverExtracts(content: seq<byte>)
    requires Embedded(content, []).Ok?
    ensures Extracted(Embedded(content, []).value) == Err(ExtractError)
  {
    var pos := FindEof(content).value;
    var front := content[..pos];
    var x := Embedded(content, []).value;
    assert front + [] == front;
    EmptySectionHasNoMarker();
    SectionStart([]);
    LayoutFindEof(content, pos, [], front, HiddenSection([]), x);
    SectionAt(x, front, []);
    ZeroLengthAt(x, pos + 1);
  }

  /** What `extract` does once the search has stopped at `p` in front of a zero length. */
  lemma ZeroLengthAt(x: seq<byte>, p: nat)
    requires StartsWithHeader(x) && FindEof(x) == Some(p)
    requires p + 4 <= |x| && x[p .. p + 4] == LE32(0)
    ensures Extracted(x) == Err(ExtractError)
  {
    ExtractSkipIsNoop(x);
  }

  /** The section of an empty payload, `\n`, four zero bytes and the trailer, holds no
      `%%EOF`. */
  lemma EmptySectionHasNoMarker()
    ensures NoMarkerIn(HiddenSection([]))
  {
    var section := HiddenSection([]);
    assert section == [10, 0, 0, 0, 0] + STEGANO_MARKER;
    forall i | 0 <= i < |section|
      ensures !IsMarkerAt(section, i)
    {
      if i + 5 <= |section| {
        var w := section[i .. i + 5];
        assert w[0] == section[i] && w[1] == section[i + 1] && w[2] == section[i + 2];
      }
    }
  }

  /** The file `%PDF-%%EOF\n` accepts a ten-byte payload, which then never comes back. */
  lemma TenBytesLost()
    ensures var content := PDF_HEADER + EOF_PATTERN + [10];
      var data: seq<byte> := [65, 65, 65, 65, 65, 65, 65, 65, 65, 65];
      && Embedded(content, data).Ok?
      && Extracted(Embedded(content, data).value) != Ok(data)
  {
    var content := PDF_HEADER + EOF_PATTERN + [10];
    var data: seq<byte> := [65, 65, 65, 65, 65, 65, 65, 65, 65, 65];
    assert IsMarkerAt(content, 5) by {
      assert content[5..10] == EOF_PATTERN;
    }
    assert LastMarkerBelow(content, SearchBound(content)).Some?;
    WhitespaceLengthLost(content, data);
  }

  /** The file `%PDF-%%EOF\n` after `embed` with the payload `%%EOF`. */
  const HIJACKED: seq<byte> := PDF_HEADER + EOF_PATTERN + [10] + [10, 5, 0, 0, 0] + EOF_PATTERN + STEGANO_MARKER

  /** Embedding `%%EOF` into `%PDF-%%EOF\n` gives HIJACKED. */
  lemma HijackedEmbedding()
    ensures Embedded(PDF_HEADER + EOF_PATTERN + [10], EOF_PATTERN) == Ok(HIJACKED)
  {
    var content := PDF_HEADER + EOF_PATTERN + [10];
    assert content[5..10] == EOF_PATTERN;
    assert LastMarkerBelow(content, SearchBound(content)) == Some(5);
    SkipWhitespaceAt(content, 10, 11);
    assert content[..5] == PDF_HEADER;
    assert FindEof(content) == Some(11);
    assert content[..11] == content;
    assert U32(5) == 5 && LE32(5) == [5, 0, 0, 0];
    assert HiddenSection(EOF_PATTERN) == [10, 5, 0, 0, 0] + EOF_PATTERN + STEGANO_MARKER;
    assert HIJACKED == content + HiddenSection(EOF_PATTERN);
  }

  /** In HIJACKED the search stops at the `%%EOF` of the payload, and the whitespace after
      it runs through the newline that opens the trailer. */
  lemma HijackedSearch()
    ensures StartsWithHeader(HIJACKED) && FindEof(HIJACKED) == Some(22)
  {
    var out := HIJACKED;
    assert out[..5] == PDF_HEADER;
    assert out[16..21] == EOF_PATTERN;
    assert out[21..] == STEGANO_MARKER;
    TrailerHasNoMarker();
    NoLaterMarker(out, 16, 21);
    FindEofAt(out, 16, 22);
  }

  /** A payload holding `%%EOF` takes over the search, which then reads the length from the
      trailer: the file `%PDF-%%EOF\n` with the payload `%%EOF` embeds but does not extract. */
  lemma MarkerInPayloadHijacks()
    ensures var content := PDF_HEADER + EOF_PATTERN + [10];
      && Embedded(content, EOF_PATTERN).Ok?
      && Extracted(Embedded(content, EOF_PATTERN).value) == Err(ExtractError)
  {
    HijackedEmbedding();
    HijackedSearch();
    HijackedLength();
  }

  /** The search in the hijacked file stops in front of the trailer, whose first bytes
      read as a length far beyond the end of the file. */
  lemma HijackedLength()
    ensures SkipWhitespace(HIJACKED, 22) == 22
    ensures 22 + 4 <= |HIJACKED| && DecodeLE32(HIJACKED[22..26]) > |HIJACKED|
  {
    assert HIJACKED[22..26] == [37, 37, 83, 84];
  }

  /** The trailer `\n%%STEGANO%%\n` holds no `%%EOF`. */
  lemma TrailerHasNoMarker()
    ensures NoMarkerIn(STEGANO_MARKER)
  {
    forall i | 0 <= i < |STEGANO_MARKER|
      ensures !IsMarkerAt(STEGANO_MARKER, i)
    {
      if i + 5 <= |STEGANO_MARKER| {
        var w := STEGANO_MARKER[i .. i + 5];
        assert w[0] == STEGANO_MARKER[i] && w[1] == STEGANO_MARKER[i + 1] && w[2] == STEGANO_MARKER[i + 2];
      }
    }
  }

  // The corrected search and layout. The search examines every window, the length is read
  // right after the newline that follows the marker, and embedding truncates right after
  // the marker, so that neither length bytes nor earlier separators count as whitespace.

  /** The number of five-byte windows of `content`. */
  function WindowCount(content: seq<byte>): nat
  {
    if |content| < 5 then 0 else |content| - 4
  }

  /** The last marker anywhere in `content`. */
  function LastMarker(content: seq<byte>): (r: Option<nat>)
    ensures r.None? <==> NoMarkerIn(content)
    ensures r.Some? ==> IsMarkerAt(content, r.value)
    ensures r.Some? ==> forall j :: r.value < j ==> !IsMarkerAt(content, j)
  {
    LastMarkerBelow(content, WindowCount(content))
  }

  /** A marker with no marker after it is the last one. */
  lemma LastMarkerIs(x: seq<byte>, m: nat)
    requires IsMarkerAt(x, m)
    requires forall j :: m < j ==> !IsMarkerAt(x, j)
    ensures LastMarker(x) == Some(m)
  {
    var r := LastMarker(x);
    assert !NoMarkerIn(x) by {
      assert m < |x| && IsMarkerAt(x, m);
    }
    assert r.value <= m;
    assert m < WindowCount(x);
  }

  /** Corrected `embed`: the same checks, the truncation right after the last marker. */
  function EmbeddedFixed(content: seq<byte>, data: seq<byte>): (r: Result<seq<byte>>)
    ensures r.Ok? <==> StartsWithHeader(content) && |data| <= MAX_CAPACITY && !NoMarkerIn(content)
    ensures r.Ok? ==> |r.value| == LastMarker(content).value + 23 + |data|
  {
    if !StartsWithHeader(content) then Err(EmbedError)
    else if !CanEmbed(|content|, |data|) then Err(EmbedError)
    else match LastMarker(content)
      case None => Err(EmbedError)
      case Some(m) => Ok(content[..m + 5] + HiddenSection(data))
  }

  /** Corrected `extract`: the length is the four bytes after the newline that follows the
      last marker. */
  function ExtractedFixed(content: seq<byte>): (r: Result<seq<byte>>)
    ensures r.Err? ==> r.error == ExtractError
    ensures r.Ok? ==> 1 <= |r.value| && LastMarker(content).Some?
    ensures r.Ok? ==> LastMarker(content).value + 10 + |r.value| <= |content|
  {
    if !StartsWithHeader(content) then Err(ExtractError)
    else match LastMarker(content)
      case None => Err(ExtractError)
      case Some(m) =>
        if m + 10 > |content| || content[m + 5] != 10 then Err(ExtractError)
        else
          var dataLen := DecodeLE32(content[m + 6 .. m + 10]);
          if dataLen == 0 then Err(ExtractError)
          else if m + 10 + dataLen > |content| then Err(ExtractError)
          else Ok(content[m + 10 .. m + 10 + dataLen])
  }

  /** The output of the corrected `embed` keeps the header and the marker, after which only
      the hidden section follows. */
  lemma FixedLayout(content: seq<byte>, m: nat, data: seq<byte>, out: seq<byte>)
    requires StartsWithHeader(content) && LastMarker(content) == Some(m)
    requires |data| <= MAX_CAPACITY && NoMarkerIn(HiddenSection(data))
    requires out == content[..m + 5] + HiddenSection(data)
    ensures StartsWithHeader(out) && LastMarker(out) == Some(m)
    ensures out[..m + 5] == content[..m + 5] && out[m + 5] == 10
    ensures out[m + 6 .. m + 10] == LE32(|data|) && out[m + 10 .. m + 10 + |data|] == data
  {
    SectionAt(out, content[..m + 5], data);
    assert out[..5] == content[..5];
    assert out[m .. m + 5] == content[m .. m + 5];
    NoLaterMarker(out, m, m + 5);
    LastMarkerIs(out, m);
  }

  /** The corrected pair round-trips every non-empty payload whose hidden section holds no
      `%%EOF`, whatever its length. */
  lemma FixedRoundTrip(content: seq<byte>, data: seq<byte>)
    requires EmbeddedFixed(content, data).Ok?
    requires 1 <= |data| && NoMarkerIn(HiddenSection(data))
    ensures ExtractedFixed(EmbeddedFixed(content, data).value) == Ok(data)
  {
    var m := LastMarker(content).value;
    var out := EmbeddedFixed(content, data).value;
    FixedLayout(content, m, data, out);
    FixedExtractedAt(out, m, data);
  }

  /** What the corrected `extract` does once the last marker and the section after it are
      known. */
  lemma FixedExtractedAt(x: seq<byte>, m: nat, data: seq<byte>)
    requires StartsWithHeader(x) && LastMarker(x) == Some(m)
    requires 1 <= |data| < TWO_POW_32 && m + 10 + |data| <= |x| && x[m + 5] == 10
    requires x[m + 6 .. m + 10] == LE32(|data|) && x[m + 10 .. m + 10 + |data|] == data
    ensures ExtractedFixed(x) == Ok(data)
  {
  }

  /** Embedding again with the corrected `embed` replaces the old section completely: the
      result is the same as embedding into the original file. */
  lemma FixedReEmbed(content: seq<byte>, first: seq<byte>, second: seq<byte>)
    requires EmbeddedFixed(content, first).Ok? && NoMarkerIn(HiddenSection(first))
    ensures EmbeddedFixed(EmbeddedFixed(content, first).value, second) ==
      EmbeddedFixed(content, second)
  {
    var m := LastMarker(content).value;
    var once := EmbeddedFixed(content, first).value;
    FixedLayout(content, m, first, once);
  }

  /** The corrected `embed` finds a marker in the last window too. */
  lemma FixedFindsFinalMarker(data: seq<byte>)
    requires |data| <= MAX_CAPACITY
    ensures EmbeddedFixed(PDF_HEADER + EOF_PATTERN, data).Ok?
  {
    var content := PDF_HEADER + EOF_PATTERN;
    assert content[5..10] == EOF_PATTERN;
    assert IsMarkerAt(content, 5);
  }

  /** The file `%PDF-%%EOF\n` after the corrected `embed` with the payload `%%EOF`. */
  const FIXED_HIJACKED: seq<byte> := PDF_HEADER + EOF_PATTERN + [10, 5, 0, 0, 0] + EOF_PATTERN + STEGANO_MARKER

  /** The last marker of `%PDF-%%EOF\n` is its only one, at 5. */
  lemma NewlineEndedMarker()
    ensures var content := PDF_HEADER + EOF_PATTERN + [10];
      StartsWithHeader(content) && LastMarker(content) == Some(5)
  {
    var content := PDF_HEADER + EOF_PATTERN + [10];
    assert content[..5] == PDF_HEADER;
    assert content[5..10] == EOF_PATTERN;
    assert content[11..] == [];
    NoLaterMarker(content, 5, 11);
    LastMarkerIs(content, 5);
  }

  /** Embedding `%%EOF` into `%PDF-%%EOF\n` with the corrected `embed` gives FIXED_HIJACKED. */
  lemma FixedHijackedEmbedding()
    ensures EmbeddedFixed(PDF_HEADER + EOF_PATTERN + [10], EOF_PATTERN) == Ok(FIXED_HIJACKED)
  {
    var content := PDF_HEADER + EOF_PATTERN + [10];
    NewlineEndedMarker();
    assert content[..10] == PDF_HEADER + EOF_PATTERN;
    assert U32(5) == 5 && LE32(5) == [5, 0, 0, 0];
    assert HiddenSection(EOF_PATTERN) == [10, 5, 0, 0, 0] + EOF_PATTERN + STEGANO_MARKER;
    assert FIXED_HIJACKED == (PDF_HEADER + EOF_PATTERN) + ([10, 5, 0, 0, 0] + EOF_PATTERN + STEGANO_MARKER);
  }

  /** In FIXED_HIJACKED the last marker is the one in the payload. */
  lemma FixedHijackedSearch()
    ensures StartsWithHeader(FIXED_HIJACKED) && LastMarker(FIXED_HIJACKED) == Some(15)
  {
    var out := FIXED_HIJACKED;
    assert out[..5] == PDF_HEADER;
    assert out[15..20] == EOF_PATTERN;
    assert out[20..] == STEGANO_MARKER;
    TrailerHasNoMarker();
    NoLaterMarker(out, 15, 20);
    LastMarkerIs(out, 15);
  }

  /** A payload holding `%%EOF` takes over the corrected search too: the last marker is
      then the payload's, and the length is read from the trailer. The file `%PDF-%%EOF\n`
      with the payload `%%EOF` embeds but does not extract. */
  lemma FixedMarkerInPayloadHijacks()
    ensures var content := PDF_HEADER + EOF_PATTERN + [10];
      && EmbeddedFixed(content, EOF_PATTERN).Ok?
      && ExtractedFixed(EmbeddedFixed(content, EOF_PATTERN).value) == Err(ExtractError)
  {
    FixedHijackedEmbedding();
    FixedHijackedSearch();
    FixedHijackedLength();
  }

  /** After the payload's marker in FIXED_HIJACKED comes the trailer's newline, and then
      bytes of the trailer that read as a length far beyond the end of the file. */
  lemma FixedHijackedLength()
    ensures 25 <= |FIXED_HIJACKED| && FIXED_HIJACKED[20] == 10
    ensures DecodeLE32(FIXED_HIJACKED[21..25]) > |FIXED_HIJACKED|
  {
    assert FIXED_HIJACKED[20..25] == [10, 37, 37, 83, 84];
    assert FIXED_HIJACKED[21..25] == [37, 37, 83, 84];
  }
}
