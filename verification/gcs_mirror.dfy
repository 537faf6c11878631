/** The read side of the Cloud Storage mirror of
    `server/app/services/gcs_mirror.py`: reading `gs://` URIs, mapping blob
    names to paths relative to the mirrored prefix and back, listing the
    cached manifest, and deciding whether a blob must be downloaded again.
    The manifest is the mirror's record of what it downloaded, one metadata
    map per relative path. */
module GcsMirror {
  import opened Wrappers
  import opened Text
  import opened NaturalSort

  const Scheme: string := "gs://"

  /** `is_gcs_uri` */
  predicate IsGcsUri(value: string) {
    Scheme <= value
  }

  datatype UriError = UnsupportedUri(uri: string)

  /** `rstrip("/")` */
  function TrimSlashes(s: string): (r: string)
    ensures |r| <= |s| && r == s[..|r|] && (r == [] || r[|r| - 1] != '/')
    ensures forall i :: |r| <= i < |s| ==> s[i] == '/'
  {
    if |s| > 0 && s[|s| - 1] == '/' then TrimSlashes(s[..|s| - 1]) else s
  }

  /** `parse_gcs_uri`: the bucket up to the first slash after the scheme,
      and the rest without its trailing slashes as the prefix. */
  function ParseGcsUri(uri: string): (r: Result<(string, string), UriError>)
    ensures r.Err? <==> !IsGcsUri(uri)
    ensures r.Err? ==> r.error == UnsupportedUri(uri)
    ensures r.Ok? ==> Lacks(r.value.0, '/')
    ensures r.Ok? ==> r.value.1 == [] || r.value.1[|r.value.1| - 1] != '/'
    ensures r.Ok? && Lacks(uri[|Scheme|..], '/') ==> r.value == (uri[|Scheme|..], "")
  {
    if !IsGcsUri(uri) then Err(UnsupportedUri(uri))
    else
      var body := uri[|Scheme|..];
      var (bucket, found, prefix) := Partition(body, "/");
      SlashFree(body);
      if !found then Ok((body, ""))
      else
        SlashFree(bucket);
        Ok((bucket, TrimSlashes(prefix)))
  }

  /** A string lacks the slash character exactly when it does not contain
      the one-character string `/`. */
  lemma SlashFree(s: string)
    ensures Lacks(s, '/') <==> !Contains(s, "/")
  {
    if Lacks(s, '/') {
      LacksNotContains(s, '/');
    } else {
      var i :| 0 <= i < |s| && s[i] == '/';
      assert OccursAt(s, "/", i);
    }
  }

  /** The URI of a bucket alone reads back as that bucket and no prefix. */
  lemma ParseBucketUri(bucket: string)
    requires Lacks(bucket, '/')
    ensures ParseGcsUri(Scheme + bucket) == Ok((bucket, ""))
  {
    assert (Scheme + bucket)[|Scheme|..] == bucket;
  }

  /** A URI written from a bucket and a path reads back as them. */
  lemma ParseObjectUri(bucket: string, path: string)
    requires Lacks(bucket, '/')
    requires path == [] || path[|path| - 1] != '/'
    ensures ParseGcsUri(Scheme + bucket + "/" + path) == Ok((bucket, path))
  {
    var uri := Scheme + bucket + "/" + path;
    assert uri[|Scheme|..] == bucket + "/" + path;
    PartitionAt(bucket, "/", path);
  }

  /** The metadata the mirror records for one blob (`etag`, `generation`,
      `updated`, `size`, all as text). */
  type Metadata = map<string, string>

  /** A `GCSMirror` once constructed: its bucket, its prefix and the
      manifest it loaded. */
  datatype Mirror = Mirror(bucket: string, prefix: string, manifest: map<string, Metadata>)

  /** `__post_init__`: the URI is parsed, which raises for a URI that is
      not `gs://`. */
  function OpenMirror(gcsUri: string, manifest: map<string, Metadata>): (r: Result<Mirror, UriError>)
    ensures r.Err? <==> !IsGcsUri(gcsUri)
    ensures r.Ok? ==> (r.value.bucket, r.value.prefix) == ParseGcsUri(gcsUri).value && r.value.manifest == manifest
  {
    match ParseGcsUri(gcsUri)
    case Err(e) => Err(e)
    case Ok((bucket, prefix)) => Ok(Mirror(bucket, prefix, manifest))
  }

  /** A relative path with backslashes read as slashes. */
  function ManifestKey(relPath: string): (key: string)
    ensures |key| == |relPath| && Lacks(key, '\\')
    ensures Lacks(relPath, '\\') ==> key == relPath
  {
    ReplaceChar(relPath, '\\', '/')
  }

  /** Paths that differ only in the kind of slash name the same entry. */
  lemma ManifestKeyIdempotent(relPath: string)
    ensures ManifestKey(ManifestKey(relPath)) == ManifestKey(relPath)
  {
  }

  /** `get_manifest_entry` */
  function ManifestEntry(m: Mirror, relPath: string): (r: Option<Metadata>)
    ensures r.Some? <==> ManifestKey(relPath) in m.manifest
    ensures r.Some? ==> r.value == m.manifest[ManifestKey(relPath)]
  {
    var key := ManifestKey(relPath);
    if key in m.manifest then Some(m.manifest[key]) else None
  }

  /** The object path of a manifest key under the mirror's prefix. */
  function FullPath(prefix: string, key: string): (r: string)
    ensures prefix == [] ==> r == key
    ensures prefix != [] && key != [] ==> r == prefix + "/" + key
    ensures prefix != [] && key == [] ==> r == prefix
  {
    if prefix != [] then (if key != [] then prefix + "/" + key else prefix)
    else key
  }

  /** `get_gcs_uri`: the `gs://` URI of a path in the manifest. */
  function GetGcsUri(m: Mirror, relPath: string): (r: Option<string>)
    ensures r.Some? <==> ManifestKey(relPath) in m.manifest
  {
    var key := ManifestKey(relPath);
    if key !in m.manifest then None
    else
      var full := FullPath(m.prefix, key);
      if full != [] then Some(Scheme + m.bucket + "/" + full) else Some(Scheme + m.bucket)
  }

  /** The URI of a manifest entry reads back as the mirror's bucket and the
      entry's full object path. */
  lemma GetGcsUriParses(m: Mirror, relPath: string)
    requires ManifestKey(relPath) in m.manifest
    requires Lacks(m.bucket, '/')
    requires var full := FullPath(m.prefix, ManifestKey(relPath)); full == [] || full[|full| - 1] != '/'
    ensures ParseGcsUri(GetGcsUri(m, relPath).value) == Ok((m.bucket, FullPath(m.prefix, ManifestKey(relPath))))
  {
    var full := FullPath(m.prefix, ManifestKey(relPath));
    if full != [] {
      ParseObjectUri(m.bucket, full);
    } else {
      ParseBucketUri(m.bucket);
    }
  }

  /** `_relative_path`: a blob name relative to the mirrored prefix, or
      `None` for a blob outside it. */
  function RelativePath(prefix: string, blobName: string): (r: Option<string>)
    ensures prefix == [] ==> r == Some(blobName)
    ensures prefix != [] ==> (r.Some? <==> prefix + "/" <= blobName || blobName == prefix)
    ensures prefix != [] && r.Some? ==>
      blobName == prefix + "/" + r.value || (blobName == prefix && r.value == [])
  {
    if prefix == [] then Some(blobName)
    else if prefix + "/" <= blobName then
      assert blobName == prefix + "/" + blobName[|prefix| + 1..];
      Some(blobName[|prefix| + 1..])
    else if blobName == prefix then Some([])
    else None
  }

  /** A blob under the prefix, whose relative path is in the manifest,
      maps back to its own URI. */
  lemma RelativePathRoundTrip(m: Mirror, rel: string)
    requires m.prefix != [] && rel != [] && Lacks(rel, '\\')
    requires rel in m.manifest
    ensures RelativePath(m.prefix, m.prefix + "/" + rel) == Some(rel)
    ensures GetGcsUri(m, rel) == Some(Scheme + m.bucket + "/" + (m.prefix + "/" + rel))
  {
    var name := m.prefix + "/" + rel;
    assert m.prefix + "/" <= name;
    assert name[|m.prefix| + 1..] == rel;
  }

  /** With no prefix the blob name is the relative path, and maps back to
      its own URI. */
  lemma RelativePathRoundTripAtRoot(m: Mirror, name: string)
    requires m.prefix == [] && name != [] && Lacks(name, '\\')
    requires name in m.manifest
    ensures RelativePath(m.prefix, name) == Some(name)
    ensures GetGcsUri(m, name) == Some(Scheme + m.bucket + "/" + name)
  {
  }

  // ---------------------------------------------------------------------
  // Listing the manifest
  // ---------------------------------------------------------------------

  /** Strictly increasing in Python's string order. */
  predicate StrictlySorted(xs: seq<string>) {
    forall i, j :: 0 <= i < j < |xs| ==> StrLess(xs[i], xs[j])
  }

  /** The relative directory a listing asks for: backslashes read as
      slashes and the outer slashes removed; empty means everything. */
  function ListingPrefix(prefix: Option<string>): (r: string)
    ensures prefix.None? || prefix == Some([]) ==> r == []
    ensures r == [] || (r[0] != '/' && r[|r| - 1] != '/')
  {
    match prefix
    case None => []
    case Some(p) => StripChars(ManifestKey(p), {'/'})
  }

  /** A key the listing keeps: every key for an empty directory, else the
      directory itself and the keys under it. */
  predicate Listed(normalized: string, key: string) {
    normalized == [] || key == normalized || normalized + "/" <= key
  }

  /** `x` placed into a strictly sorted list that lacks it. */
  function InsertSorted(sorted: seq<string>, x: string): (r: seq<string>)
    requires StrictlySorted(sorted) && x !in sorted
    ensures StrictlySorted(r)
    ensures forall y :: y in r <==> y in sorted || y == x
  {
    if sorted == [] then [x]
    else if StrLess(x, sorted[0]) then
      InsertBefore(sorted, x);
      [x] + sorted
    else
      StrLessTotal(x, sorted[0]);
      var rest := InsertSorted(sorted[1..], x);
      InsertAfter(sorted, x, rest);
      [sorted[0]] + rest
  }

  lemma InsertBefore(sorted: seq<string>, x: string)
    requires StrictlySorted(sorted) && sorted != [] && StrLess(x, sorted[0])
    ensures StrictlySorted([x] + sorted)
  {
    forall j | 0 < j < |sorted|
      ensures StrLess(x, sorted[j])
    {
      StrLessTransitive(x, sorted[0], sorted[j]);
    }
  }

  lemma InsertAfter(sorted: seq<string>, x: string, rest: seq<string>)
    requires StrictlySorted(sorted) && sorted != [] && StrLess(sorted[0], x)
    requires StrictlySorted(rest) && forall y :: y in rest <==> y in sorted[1..] || y == x
    ensures StrictlySorted([sorted[0]] + rest)
  {
    forall j | 0 <= j < |rest|
      ensures StrLess(sorted[0], rest[j])
    {
      assert rest[j] in rest;
      if rest[j] != x {
        var k :| 0 <= k < |sorted[1..]| && sorted[1..][k] == rest[j];
        assert sorted[k + 1] == rest[j];
      }
    }
  }

  /** `iter_relative_paths`: the manifest keys the listing keeps, sorted.
      The manifest's keys are visited in the set's order and each kept
      key is placed into the sorted result. */
  method IterRelativePaths(m: Mirror, prefix: Option<string>) returns (r: seq<string>)
    ensures StrictlySorted(r)
    ensures forall key :: key in r <==> key in m.manifest && Listed(ListingPrefix(prefix), key)
  {
    r := [];
    if m.manifest == map[] {
      return;
    }
    var normalized := ListingPrefix(prefix);
    var rest := m.manifest.Keys;
    while rest != {}
      invariant rest <= m.manifest.Keys
      invariant StrictlySorted(r)
      invariant forall key :: key in r <==> key in m.manifest.Keys - rest && Listed(normalized, key)
      decreases |rest|
    {
      var key :| key in rest;
      if key == normalized || normalized == [] || normalized + "/" <= key {
        r := InsertSorted(r, key);
      }
      rest := rest - {key};
    }
  }

  /** A listing is determined by the keys it holds: two strictly sorted
      lists of the same strings are the same list. */
  lemma {:induction false} SortedListingUnique(a: seq<string>, b: seq<string>)
    requires StrictlySorted(a) && StrictlySorted(b)
    requires forall x :: x in a <==> x in b
    ensures a == b
  {
    assert a != [] ==> a[0] in b;
    assert b != [] ==> b[0] in a;
    if a != [] && b != [] {
      if a[0] != b[0] {
        var i :| 0 <= i < |b| && b[i] == a[0];
        var j :| 0 <= j < |a| && a[j] == b[0];
        assert i > 0 && j > 0;
        StrLessAsymmetric(b[0], a[0]);
      }
      assert a[0] == b[0];
      assert a == [a[0]] + a[1..] && b == [b[0]] + b[1..];
      forall x
        ensures x in a[1..] <==> x in b[1..]
      {
        if x in a[1..] {
          var k :| 0 <= k < |a[1..]| && a[1..][k] == x;
          assert StrLess(a[0], a[k + 1]);
          StrLessIrreflexive(a[0]);
          assert x in b && x != b[0];
        }
        if x in b[1..] {
          var k :| 0 <= k < |b[1..]| && b[1..][k] == x;
          assert StrLess(b[0], b[k + 1]);
          StrLessIrreflexive(b[0]);
          assert x in a && x != a[0];
        }
      }
      SortedListingUnique(a[1..], b[1..]);
    }
  }

  // ---------------------------------------------------------------------
  // Deciding downloads
  // ---------------------------------------------------------------------

  /** What `stat` says about the local copy: missing, or present with its
      size (`None` when reading the size fails). */
  datatype LocalFile = Missing | Present(size: Option<nat>)

  datatype DownloadError = BadRemoteSize(text: string)

  function Get(d: Metadata, key: string): Option<string> {
    if key in d then Some(d[key]) else None
  }

  /** The remote size as recorded, `-1` when it is missing. */
  function SizeText(metadata: Metadata): string {
    if "size" in metadata then metadata["size"] else "-1"
  }

  /** `_should_download`: a blob is fetched unless the local copy exists, a
      non-empty manifest entry matches its etag and generation, and the
      local size equals the remote one; a remote size that is not an
      integer raises `ValueError`. */
  function ShouldDownload(m: Mirror, relPath: string, metadata: Metadata, local: LocalFile): (r: Result<bool, DownloadError>)
    ensures r == Ok(false) <==>
      local.Present? && relPath in m.manifest && m.manifest[relPath] != map[] &&
      Get(m.manifest[relPath], "etag") == Get(metadata, "etag") &&
      Get(m.manifest[relPath], "generation") == Get(metadata, "generation") &&
      local.size.Some? && ParseInt(SizeText(metadata)) == Some(local.size.value as int)
    ensures r.Err? <==>
      local.Present? && relPath in m.manifest && m.manifest[relPath] != map[] &&
      Get(m.manifest[relPath], "etag") == Get(metadata, "etag") &&
      Get(m.manifest[relPath], "generation") == Get(metadata, "generation") &&
      local.size.Some? && ParseInt(SizeText(metadata)).None?
    ensures local.Missing? || relPath !in m.manifest ==> r == Ok(true)
  {
    if local.Missing? then Ok(true)
    else if relPath !in m.manifest || m.manifest[relPath] == map[] then Ok(true)
    else
      var cached := m.manifest[relPath];
      if Get(cached, "etag") != Get(metadata, "etag") then Ok(true)
      else if Get(cached, "generation") != Get(metadata, "generation") then Ok(true)
      else if local.size.None? then Ok(true)
      else
        match ParseInt(SizeText(metadata))
        case None => Err(BadRemoteSize(SizeText(metadata)))
        case Some(remote) => Ok(local.size.value as int != remote)
  }

  /** A local copy whose recorded etag, generation and size all match is
      kept. */
  lemma UnchangedBlobKept(m: Mirror, relPath: string, metadata: Metadata, size: nat)
    requires relPath in m.manifest && m.manifest[relPath] == metadata
    requires "size" in metadata && metadata["size"] == NatToString(size)
    ensures ShouldDownload(m, relPath, metadata, Present(Some(size))) == Ok(false)
  {
    ParseIntOfNat(size);
  }
}
