/** The helpers of the HTTP server (`server/app/main.py`) that decide what
    an audio request gets: reading a `Range` header, streaming the bytes of
    the range in chunks, and turning a `gs://` URI into a public URL. The
    audio file is a byte sequence held in memory. */
module Server {
  import opened Wrappers
  import opened Text
  import opened GcsMirror

  type Byte = bv8

  // ---------------------------------------------------------------------
  // Range headers
  // ---------------------------------------------------------------------

  /** The unit before `=` reads `bytes` once trimmed and lowercased. */
  predicate BytesUnit(units: string) {
    Lower(Strip(units)) == "bytes"
  }

  /** One end of a range: `int()` of its text, or the default when the
      text is empty. */
  function Bound(text: string, default: int): Option<int> {
    if text != [] then ParseInt(text) else Some(default)
  }

  /** The range after `bytes=`: cut at its first `-`, a missing start is 0
      and a missing end the last byte; an end before the start or past the
      file, or a part `int()` refuses, gives no range. */
  function RangeBounds(ranges: string, fileSize: int): (r: Option<(int, int)>)
    ensures r.Some? ==> 0 <= r.value.0 <= r.value.1 < fileSize
  {
    var (startText, _, endText) := Partition(ranges, "-");
    StartNotNegative(startText);
    var start := Bound(startText, 0);
    var end := Bound(endText, fileSize - 1);
    if start.None? || end.None? then None
    else if start.value > end.value || end.value >= fileSize then None
    else Some((start.value, end.value))
  }

  /** `_parse_range_header`: a unit other than `bytes` gives no range;
      otherwise the range after `=` is read. */
  function ParseRangeHeader(rangeHeader: string, fileSize: int): (r: Option<(int, int)>)
    ensures r.Some? ==> 0 <= r.value.0 <= r.value.1 < fileSize
    ensures !BytesUnit(Partition(rangeHeader, "=").0) ==> r.None?
  {
    var (units, _, ranges) := Partition(rangeHeader, "=");
    if !BytesUnit(units) then None else RangeBounds(ranges, fileSize)
  }

  /** The start of a range has no minus sign in it, so it is never
      negative. */
  lemma StartNotNegative(s: string)
    requires !Contains(s, "-")
    ensures Bound(s, 0).Some? ==> Bound(s, 0).value >= 0
  {
    if s != [] {
      var t := Strip(s);
      if |t| > 0 && t[0] == '-' {
        var k := StripHead(s);
        CharContained(s, k);
        assert false;
      }
      assert ParseInt(s).Some? ==> ParseInt(s).value >= 0;
    }
  }

  /** Where the first character left by `strip` sits in the text. */
  lemma StripHead(s: string) returns (k: nat)
    requires Strip(s) != []
    ensures k < |s| && s[k] == Strip(s)[0]
  {
    var l := LStrip(s);
    var t := RStrip(l);
    LStripShape(s);
    RStripShape(l);
    assert t == l[..|t|];
    k := |s| - |l|;
    assert l[0] == s[k];
  }

  /** A header with the `bytes` unit is read by its range. */
  lemma BytesHeader(ranges: string, fileSize: int)
    ensures ParseRangeHeader("bytes=" + ranges, fileSize) == RangeBounds(ranges, fileSize)
  {
    assert "bytes=" + ranges == "bytes" + "=" + ranges;
    PartitionAt("bytes", "=", ranges);
    BytesIsUnit();
  }

  lemma BytesIsUnit()
    ensures BytesUnit("bytes")
  {
    StripTrimmed("bytes");
    var l := Lower("bytes");
    assert l[0] == 'b' && l[1] == 'y' && l[2] == 't' && l[3] == 'e' && l[4] == 's';
    assert l == "bytes";
  }

  /** The range a well-behaved client sends for bytes `a` to `b` reads back
      as those bytes. */
  lemma BoundsWritten(a: nat, b: nat, fileSize: nat)
    requires a <= b < fileSize
    ensures RangeBounds(NatToString(a) + "-" + NatToString(b), fileSize) == Some((a, b))
  {
    DigitsLack(NatToString(a), '-');
    PartitionAt(NatToString(a), "-", NatToString(b));
    ParseIntOfNat(a);
    ParseIntOfNat(b);
  }

  lemma {:induction false} RangeHeaderWritten(a: nat, b: nat, fileSize: nat)
    requires a <= b < fileSize
    ensures ParseRangeHeader("bytes=" + (NatToString(a) + "-" + NatToString(b)), fileSize) == Some((a, b))
  {
    BytesHeader(NatToString(a) + "-" + NatToString(b), fileSize);
    BoundsWritten(a, b, fileSize);
  }

  /** `bytes=a-` runs from `a` to the last byte. */
  lemma OpenEndedRange(a: nat, fileSize: nat)
    requires a < fileSize
    ensures ParseRangeHeader("bytes=" + (NatToString(a) + "-"), fileSize) == Some((a, fileSize - 1))
  {
    BytesHeader(NatToString(a) + "-", fileSize);
    OpenEndedBounds(a, fileSize);
  }

  lemma OpenEndedBounds(a: nat, fileSize: nat)
    requires a < fileSize
    ensures RangeBounds(NatToString(a) + "-", fileSize) == Some((a, fileSize - 1))
  {
    DigitsLack(NatToString(a), '-');
    assert NatToString(a) + "-" == NatToString(a) + "-" + "";
    PartitionAt(NatToString(a), "-", "");
    ParseIntOfNat(a);
  }

  /** `bytes=-n` is read as bytes 0 to `n`, not as the last `n` bytes. */
  lemma SuffixRangeFromStart(n: nat, fileSize: nat)
    requires n < fileSize
    ensures ParseRangeHeader("bytes=" + ("-" + NatToString(n)), fileSize) == Some((0, n))
  {
    BytesHeader("-" + NatToString(n), fileSize);
    SuffixBounds(n, fileSize);
  }

  lemma SuffixBounds(n: nat, fileSize: nat)
    requires n < fileSize
    ensures RangeBounds("-" + NatToString(n), fileSize) == Some((0, n))
  {
    assert "-" + NatToString(n) == "" + "-" + NatToString(n);
    PartitionAt("", "-", NatToString(n));
    ParseIntOfNat(n);
  }

  /** A header naming a second range after a comma is refused: the end of
      the first range is not a number. */
  lemma MultipleRangesRefused(a: nat, b: nat, more: string, fileSize: int)
    ensures ParseRangeHeader("bytes=" + (NatToString(a) + "-" + (NatToString(b) + "," + more)), fileSize).None?
  {
    var endText := NatToString(b) + "," + more;
    BytesHeader(NatToString(a) + "-" + endText, fileSize);
    DigitsLack(NatToString(a), '-');
    PartitionAt(NatToString(a), "-", endText);
    assert endText[|NatToString(b)|] == ',';
    NotIntWithComma(endText, |NatToString(b)|);
  }

  /** `int()` refuses text with a comma in it. */
  lemma NotIntWithComma(s: string, i: nat)
    requires i < |s| && s[i] == ','
    ensures ParseInt(s).None?
  {
    var l := LStrip(s);
    var t := Strip(s);
    LStripShape(s);
    RStripShape(l);
    var cut := |s| - |l|;
    assert forall k :: 0 <= k < cut ==> s[..cut][k] == s[k];
    assert i >= cut;
    assert l[i - cut] == ',';
    assert forall k :: |t| <= k < |l| ==> l[|t|..][k - |t|] == l[k];
    assert i - cut < |t|;
    assert t[i - cut] == ',';
    if |t| > 0 && (t[0] == '-' || t[0] == '+') {
      assert t[1..][i - cut - 1] == ',';
    }
  }

  // ---------------------------------------------------------------------
  // Streaming a range
  // ---------------------------------------------------------------------

  /** The bytes from `start` to `end` inclusive that the file has. */
  function Span(file: seq<Byte>, start: nat, end: int): (r: seq<Byte>)
    ensures start <= end < |file| ==> r == file[start..end + 1] && |r| == end - start + 1
    ensures |r| <= |file|
  {
    var lo := if start < |file| then start else |file|;
    var hi := if end + 1 < lo then lo else if end + 1 < |file| then end + 1 else |file|;
    file[lo..hi]
  }

  /** The chunks laid end to end. */
  function Concat(chunks: seq<seq<Byte>>): seq<Byte> {
    if chunks == [] then [] else Concat(chunks[..|chunks| - 1]) + chunks[|chunks| - 1]
  }

  /** `handle.read(n)` after the handle has reached `pos`. */
  function Read(file: seq<Byte>, pos: nat, n: nat): (r: seq<Byte>)
    ensures |r| <= n
    ensures pos < |file| && n > 0 ==> |r| > 0
    ensures pos <= |file| ==> pos + |r| <= |file| && r == file[pos..pos + |r|]
  {
    if pos >= |file| then []
    else if pos + n <= |file| then file[pos..pos + n]
    else file[pos..]
  }

  /** `_iter_file`: from `start`, chunks of at most `chunkSize` bytes until
      `end` is reached or the file runs out; the chunks together are the
      bytes of the range that the file has. */
  method IterFile(file: seq<Byte>, start: nat, end: int, chunkSize: nat) returns (chunks: seq<seq<Byte>>)
    ensures Chunked(chunks, chunkSize)
    ensures Concat(chunks) == if chunkSize == 0 then [] else Span(file, start, end)
  {
    chunks := [];
    var pos := start;
    var remaining := end - start + 1;
    while remaining > 0
      invariant pos >= start && remaining == end + 1 - pos
      invariant pos == start || (pos <= |file| && pos <= end + 1)
      invariant Concat(chunks) == Span(file, start, pos - 1)
      invariant chunkSize == 0 ==> chunks == []
      invariant Chunked(chunks, chunkSize)
      decreases remaining
    {
      var readSize := if chunkSize < remaining then chunkSize else remaining;
      var chunk := Read(file, pos, readSize);
      if chunk == [] {
        break;
      }
      ChunkStep(file, start, pos, chunks, chunk, readSize, chunkSize);
      chunks := chunks + [chunk];
      pos := pos + |chunk|;
      remaining := remaining - |chunk|;
    }
    if chunkSize > 0 {
      SpanDone(file, start, pos, end);
    }
  }

  /** Every chunk is non-empty and at most `chunkSize` bytes long. */
  predicate Chunked(chunks: seq<seq<Byte>>, chunkSize: nat) {
    forall k :: 0 <= k < |chunks| ==> 0 < |chunks[k]| <= chunkSize
  }

  /** One more non-empty read extends the span read so far. */
  lemma ChunkStep(file: seq<Byte>, start: nat, pos: nat, chunks: seq<seq<Byte>>, chunk: seq<Byte>,
                  readSize: nat, chunkSize: nat)
    requires start <= pos && readSize <= chunkSize
    requires chunk == Read(file, pos, readSize) && chunk != []
    requires Concat(chunks) == Span(file, start, pos - 1)
    requires Chunked(chunks, chunkSize)
    ensures Concat(chunks + [chunk]) == Span(file, start, pos + |chunk| - 1)
    ensures Chunked(chunks + [chunk], chunkSize)
    ensures pos + |chunk| <= |file| && |chunk| <= readSize
  {
    assert (chunks + [chunk])[..|chunks|] == chunks;
    SpanGrows(file, start, pos, chunk);
  }

  /** Reading stops with the whole span read: either the end was reached or
      the file ran out before it. */
  lemma SpanDone(file: seq<Byte>, start: nat, pos: nat, end: int)
    requires start <= pos
    requires pos > end ==> pos == end + 1 || pos == start
    requires pos <= end ==> pos >= |file|
    ensures Span(file, start, pos - 1) == Span(file, start, end)
  {
  }

  lemma SpanGrows(file: seq<Byte>, start: nat, pos: nat, chunk: seq<Byte>)
    requires start <= pos < |file| && pos + |chunk| <= |file| && chunk == file[pos..pos + |chunk|]
    ensures Span(file, start, pos - 1) + chunk == Span(file, start, pos + |chunk| - 1)
  {
  }

  // ---------------------------------------------------------------------
  // Partial responses
  // ---------------------------------------------------------------------

  /** The answer to a satisfiable range request: status, the
      `Content-Range` and `Content-Length` headers, and the body. */
  datatype Partial = Partial(status: nat, contentRange: string, contentLength: nat, body: seq<Byte>)

  /** `bytes start-end/size` */
  function ContentRange(start: nat, end: nat, size: nat): string {
    "bytes " + NatToString(start) + "-" + NatToString(end) + "/" + NatToString(size)
  }

  /** The range branch of `stream_chapter_audio`: an unreadable range is
      answered with 416; otherwise 206 with the range's bytes. */
  function PartialResponse(file: seq<Byte>, rangeHeader: string): (r: Result<Partial, nat>)
    ensures r.Err? <==> ParseRangeHeader(rangeHeader, |file|).None?
    ensures r.Err? ==> r.error == 416
    ensures r.Ok? ==>
      var start, end := ParseRangeHeader(rangeHeader, |file|).value.0, ParseRangeHeader(rangeHeader, |file|).value.1;
      r.value == Partial(206, ContentRange(start, end, |file|), |r.value.body|, file[start..end + 1])
  {
    var range := ParseRangeHeader(rangeHeader, |file|);
    if range.None? then Err(416)
    else
      var start, end := range.value.0, range.value.1;
      Ok(Partial(206, ContentRange(start, end, |file|), end - start + 1, Span(file, start, end)))
  }

  const Riff: seq<Byte> := [0x52, 0x49, 0x46, 0x46]

  /** A request for the first four bytes of a WAV file gets its `RIFF`
      tag. */
  lemma RiffRange(file: seq<Byte>)
    requires |file| >= 4 && file[..4] == Riff
    ensures PartialResponse(file, "bytes=" + (NatToString(0) + "-" + NatToString(3))) ==
      Ok(Partial(206, ContentRange(0, 3, |file|), 4, Riff))
  {
    RangeHeaderWritten(0, 3, |file|);
  }

  // ---------------------------------------------------------------------
  // Public URLs
  // ---------------------------------------------------------------------

  const PublicHost: string := "https://storage.googleapis.com/"

  /** `_as_public_gcs_url`: web URLs pass through, `gs://` URIs become
      public storage URLs, anything else has none. */
  function PublicGcsUrl(uri: string): (r: Option<string>)
    ensures r.Some? <==> uri != [] && (IsWebUrl(uri) || IsGcsUri(uri))
    ensures IsWebUrl(uri) ==> r == Some(uri)
  {
    if uri == [] then None
    else if IsWebUrl(uri) then Some(uri)
    else if IsGcsUri(uri) then
      var (bucket, objectPath) := ParseGcsUri(uri).value;
      Some(PublicUrl(bucket, objectPath))
    else None
  }

  predicate IsWebUrl(uri: string) {
    "http://" <= uri || "https://" <= uri
  }

  /** The public URL of a bucket, or of an object in it. */
  function PublicUrl(bucket: string, objectPath: string): string {
    if objectPath == [] then PublicHost + bucket else PublicHost + bucket + "/" + objectPath
  }

  /** A `gs://` URI is not a web URL. */
  lemma GcsNotWeb(uri: string)
    requires IsGcsUri(uri)
    ensures !IsWebUrl(uri)
  {
    assert uri[0] == 'g';
  }

  /** An object URI maps to the public URL of the same bucket and path. */
  lemma PublicObjectUrl(bucket: string, path: string)
    requires Lacks(bucket, '/') && path != [] && path[|path| - 1] != '/'
    ensures PublicGcsUrl(Scheme + bucket + "/" + path) == Some(PublicHost + bucket + "/" + path)
  {
    var uri := Scheme + bucket + "/" + path;
    ParseObjectUri(bucket, path);
    assert IsGcsUri(uri);
    GcsNotWeb(uri);
  }

  /** A bucket URI maps to the public URL of the bucket. */
  lemma PublicBucketUrl(bucket: string)
    requires Lacks(bucket, '/')
    ensures PublicGcsUrl(Scheme + bucket) == Some(PublicHost + bucket)
  {
    ParseBucketUri(bucket);
    assert IsGcsUri(Scheme + bucket);
    GcsNotWeb(Scheme + bucket);
  }
}
