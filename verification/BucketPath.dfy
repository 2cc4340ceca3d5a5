/** From a public image URL to the object path inside the bucket. */
module BucketPath {
  import opened Basics
  import opened Text
  import opened PercentEncoding

  const BUCKET := "raffle-images"

  const MARKER := "/" + BUCKET + "/"

  /** None stands for null; an input of None is null or undefined. */
  function ExtractBucketPath(url: Option<string>): Option<string> {
    if url.None? || url.value == "" then None
    else
      var idx := IndexOf(url.value, MARKER);
      if idx.None? then None
      else
        var raw := Before(Before(url.value[idx.value + |MARKER|..], '?'), '#');
        var path := if Decode(raw).Some? then Decode(raw).value else raw;
        if |path| > 0 then Some(path) else None
  }

  /** The bucket marker does not occur in the URL before its proper place. */
  predicate FirstMarker(base: string) {
    forall j | 0 <= j < |base| :: !OccursAt(base + MARKER, MARKER, j)
  }

  predicate QueryOrFragment(suffix: string) {
    suffix == "" || suffix[0] in {'?', '#'}
  }

  lemma MarkerFound(base: string, rest: string)
    requires FirstMarker(base)
    ensures IndexOf(base + MARKER + rest, MARKER) == Some(|base|)
    ensures (base + MARKER + rest)[|base| + |MARKER|..] == rest
  {
    var url := base + MARKER + rest;
    assert OccursAt(url, MARKER, |base|);
    forall j | 0 <= j < |base|
      ensures !OccursAt(url, MARKER, j)
    {
      assert url[j..j + |MARKER|] == (base + MARKER)[j..j + |MARKER|];
      assert !OccursAt(base + MARKER, MARKER, j);
    }
  }

  lemma SuffixStripped(e: string, suffix: string)
    requires '?' !in e && '#' !in e && QueryOrFragment(suffix)
    ensures Before(Before(e + suffix, '?'), '#') == e
  {
    BeforeConcat(e, suffix, '?');
    BeforeConcat(e, Before(suffix, '?'), '#');
    assert e + "" == e;
  }

  /** Whatever encoder wrote the URL, and with any query or fragment, the object's path comes back. */
  lemma ExtractInvertsPublicUrl(base: string, encoded: string, path: string, suffix: string)
    requires FirstMarker(base) && path != "" && Encodes(encoded, path) && QueryOrFragment(suffix)
    ensures ExtractBucketPath(Some(base + MARKER + (encoded + suffix))) == Some(path)
  {
    MarkerFound(base, encoded + suffix);
    DecodeInvertsEncode(encoded, path);
    SuffixStripped(encoded, suffix);
  }

  /** The path is what the part between the first marker and any query or fragment spells, or that part itself. */
  ghost predicate Reads(url: string, base: string, raw: string, suffix: string, path: string) {
    && url == base + MARKER + (raw + suffix) && FirstMarker(base)
    && '?' !in raw && '#' !in raw && QueryOrFragment(suffix)
    && path != "" && (Spells(raw, path) || (path == raw && forall p :: !Spells(raw, p)))
  }

  lemma ReadsIsExtracted(url: string, base: string, raw: string, suffix: string, path: string)
    requires Reads(url, base, raw, suffix, path)
    ensures ExtractBucketPath(Some(url)) == Some(path)
  {
    MarkerFound(base, raw + suffix);
    SuffixStripped(raw, suffix);
    DecodeIff(raw, path);
    if Decode(raw).Some? {
      DecodeIff(raw, Decode(raw).value);
    }
  }

  lemma SplitAtMarker(url: string, i: nat)
    requires IndexOf(url, MARKER) == Some(i)
    ensures url == url[..i] + MARKER + url[i + |MARKER|..] && FirstMarker(url[..i])
  {
    var base := url[..i];
    assert url[i..i + |MARKER|] == MARKER;
    var rest := url[i + |MARKER|..];
    assert url == (base + MARKER) + rest;
    forall j | 0 <= j < i
      ensures !OccursAt(base + MARKER, MARKER, j)
    {
      if OccursAt(base + MARKER, MARKER, j) {
        OccursInLonger(base + MARKER, rest, MARKER, j);
      }
    }
  }

  lemma RawPart(rest: string)
    ensures var raw := Before(Before(rest, '?'), '#');
            && |raw| <= |rest| && rest == raw + rest[|raw|..] && QueryOrFragment(rest[|raw|..])
            && '?' !in raw && '#' !in raw
  {
    var path, raw := Before(rest, '?'), Before(Before(rest, '?'), '#');
    hide *;
    assert raw <= path <= rest;
    assert rest == raw + rest[|raw|..];
    assert forall c | c in raw :: c in path;
    if raw == path {
      assert rest[|raw|..] == "" || rest[|raw|..][0] == '?';
    } else {
      assert rest[|raw|..][0] == path[|raw|] == '#';
    }
    QueryOrFragmentIff(rest[|raw|..]);
  }

  lemma QueryOrFragmentIff(suffix: string)
    ensures QueryOrFragment(suffix) <==> suffix == "" || suffix[0] == '?' || suffix[0] == '#'
  {
  }

  lemma ExtractedReads(url: string, path: string) returns (base: string, raw: string, suffix: string)
    requires ExtractBucketPath(Some(url)) == Some(path)
    ensures Reads(url, base, raw, suffix, path)
  {
    var i := IndexOf(url, MARKER).value;
    var rest := url[i + |MARKER|..];
    base, raw := url[..i], Before(Before(rest, '?'), '#');
    suffix := rest[|raw|..];
    SplitAtMarker(url, i);
    RawPart(rest);
    forall p ensures Spells(raw, p) <==> Decode(raw) == Some(p) {
      DecodeIff(raw, p);
    }
    assert path != "" && (Decode(raw) == Some(path) || (path == raw && Decode(raw).None?));
  }

  /** Exactly what a URL is read as. */
  lemma ExtractIff(url: string, path: string)
    ensures ExtractBucketPath(Some(url)) == Some(path) <==>
            exists base, raw, suffix :: Reads(url, base, raw, suffix, path)
  {
    if ExtractBucketPath(Some(url)) == Some(path) {
      var base, raw, suffix := ExtractedReads(url, path);
    }
    forall base, raw, suffix | Reads(url, base, raw, suffix, path)
      ensures ExtractBucketPath(Some(url)) == Some(path)
    {
      ReadsIsExtracted(url, base, raw, suffix, path);
    }
  }

  /**
   A URL written without any encoding is read back exactly when the path holds no `?` and no `#`, and
   holds no percent sign either unless the percent signs do not form valid escapes.
   */
  lemma ExtractOfRawUrl(base: string, path: string)
    requires FirstMarker(base) && path != ""
    ensures ExtractBucketPath(Some(base + MARKER + path)) == Some(path)
            <==> '?' !in path && '#' !in path && ('%' !in path || Decode(path).None?)
  {
    MarkerFound(base, path);
    var raw := Before(Before(path, '?'), '#');
    DecodeFixes(path);
    DecodeFixes(raw);
    hide Decode;
    hide FirstMarker;
    hide Before;
    if '?' in path || '#' in path {
      assert |raw| < |path|;
    } else {
      assert Before(path, '?') == path;
      assert raw == path;
    }
  }

  /** The first bucket marker is at i, and a path of at least one character follows it. */
  ghost predicate PathFollowsMarker(url: string, i: nat) {
    && OccursAt(url, MARKER, i)
    && (forall j | 0 <= j < i :: !OccursAt(url, MARKER, j))
    && i + |MARKER| < |url| && url[i + |MARKER|] !in {'?', '#'}
  }

  /**
   A URL is accepted exactly when the first marker in it is followed by a character that starts neither a
   query nor a fragment. Neither the host nor the bucket is looked at.
   */
  lemma ExtractsIff(url: Option<string>)
    ensures ExtractBucketPath(url).Some? <==> url.Some? && exists i :: PathFollowsMarker(url.value, i)
  {
    if url.Some? && IndexOf(url.value, MARKER).Some? {
      var i := IndexOf(url.value, MARKER).value;
      assert forall k | PathFollowsMarker(url.value, k) :: k == i;
      assert PathFollowsMarker(url.value, i) <==> Before(Before(url.value[i + |MARKER|..], '?'), '#') != "";
    }
  }

  /** The marker has slashes at its ends only, so it cannot start in `base` and reach past the slash. */
  lemma MarkerStaysInside(base: string, rest: string, j: nat)
    requires j < |base| && OccursAt(base + "/" + rest, MARKER, j)
    ensures OccursAt(base + MARKER, MARKER, j)
  {
    var url := base + "/" + rest;
    if |base| - j < |MARKER| {
      assert url[j..j + |MARKER|][|base| - j] == '/';
    }
    assert j + |MARKER| <= |base| + 1;
    assert (base + MARKER)[j..j + |MARKER|] == url[j..j + |MARKER|];
  }

  lemma MarkerShifts(base: string, tail: string, i: nat)
    ensures OccursAt(base + tail, MARKER, |base| + i) <==> OccursAt(tail, MARKER, i)
  {
    if i + |MARKER| <= |tail| {
      assert (base + tail)[|base| + i..|base| + i + |MARKER|] == tail[i..i + |MARKER|];
    }
  }

  lemma PathFollowsShifted(base: string, rest: string, k: nat)
    requires FirstMarker(base)
    ensures PathFollowsMarker(base + "/" + rest, k) <==>
            k >= |base| && PathFollowsMarker("/" + rest, k - |base|)
  {
    var url, tail := base + "/" + rest, "/" + rest;
    assert url == base + tail;
    forall j: nat
      ensures OccursAt(url, MARKER, j) <==> j >= |base| && OccursAt(tail, MARKER, j - |base|)
    {
      if j < |base| {
        if OccursAt(url, MARKER, j) { MarkerStaysInside(base, rest, j); }
      } else {
        MarkerShifts(base, tail, j - |base|);
      }
    }
    hide OccursAt;
    hide FirstMarker;
    if k >= |base| && PathFollowsMarker(tail, k - |base|) {
      forall j | 0 <= j < k
        ensures !OccursAt(url, MARKER, j)
      {
        assert j >= |base| ==> !OccursAt(tail, MARKER, j - |base|);
      }
    }
    if PathFollowsMarker(url, k) {
      forall j | 0 <= j < k - |base|
        ensures !OccursAt(tail, MARKER, j)
      {
        assert !OccursAt(url, MARKER, |base| + j);
      }
    }
  }

  /** When no marker starts in `base`, what follows it decides. */
  lemma AcceptedAfterBase(base: string, rest: string)
    requires FirstMarker(base)
    ensures ExtractBucketPath(Some(base + "/" + rest)).Some? <==> exists i :: PathFollowsMarker("/" + rest, i)
  {
    ExtractsIff(Some(base + "/" + rest));
    hide ExtractBucketPath;
    hide PathFollowsMarker;
    hide FirstMarker;
    if k: nat :| PathFollowsMarker(base + "/" + rest, k) {
      PathFollowsShifted(base, rest, k);
    }
    if i: nat :| PathFollowsMarker("/" + rest, i) {
      PathFollowsShifted(base, rest, |base| + i);
    }
  }

  lemma MarkerEndsSegment(segment: string, m: string)
    requires '/' !in segment && |m| == |MARKER| && m == MARKER
    requires forall k | 1 <= k <= |segment| + 1 && k < |m| :: m[k] == (segment + "/")[k - 1]
    ensures segment == BUCKET
  {
    assert m[|BUCKET| + 1] == '/';
    assert |segment| <= |BUCKET|;
    assert m[|segment| + 1] == '/';
    assert forall k | 1 <= k <= |BUCKET| :: MARKER[k] == BUCKET[k - 1] != '/';
    assert |segment| == |BUCKET|;
    assert forall k | 0 <= k < |BUCKET| :: segment[k] == m[k + 1] == BUCKET[k];
  }

  /** Where a marker can start when a segment is appended. */
  lemma MarkerInAppended(base: string, segment: string, j: nat)
    requires '/' !in segment && j <= |base| + |segment|
    requires OccursAt(base + "/" + segment + MARKER, MARKER, j)
    ensures (j < |base| && OccursAt(base + MARKER, MARKER, j)) || (j == |base| && segment == BUCKET)
  {
    var url := base + "/" + segment + MARKER;
    assert url[j..j + |MARKER|][0] == url[j];
    assert forall k | |base| < k <= |base| + |segment| :: url[k] == segment[k - |base| - 1];
    assert j <= |base|;
    if j < |base| {
      assert url == base + "/" + (segment + MARKER);
      MarkerStaysInside(base, segment + MARKER, j);
    } else {
      MarkerEndsSegment(segment, url[j..j + |MARKER|]);
    }
  }

  /** Appending a segment other than the bucket's name puts no marker into the base. */
  lemma SegmentKeepsFirstMarker(base: string, segment: string)
    requires FirstMarker(base) && '/' !in segment && segment != BUCKET
    ensures FirstMarker(base + "/" + segment)
  {
    forall j | 0 <= j < |base + "/" + segment|
      ensures !OccursAt(base + "/" + segment + MARKER, MARKER, j)
    {
      if OccursAt(base + "/" + segment + MARKER, MARKER, j) {
        MarkerInAppended(base, segment, j);
      }
    }
  }

  lemma {:induction false} FirstMarkerOfSegments(segments: seq<string>)
    requires segments != [] && forall i | 0 <= i < |segments| :: '/' !in segments[i] && segments[i] != BUCKET
    ensures FirstMarker(Join(segments, '/'))
  {
    var n := |segments| - 1;
    if n == 0 {
      var base := segments[0];
      assert forall j | 0 <= j < |base| :: OccursAt(base + MARKER, MARKER, j) ==> (base + MARKER)[j] == MARKER[0];
    } else {
      FirstMarkerOfSegments(segments[..n]);
      JoinSnoc(segments[..n], segments[n], '/');
      assert segments == segments[..n] + [segments[n]];
      SegmentKeepsFirstMarker(Join(segments[..n], '/'), segments[n]);
    }
  }

  /** What the public URLs of a bucket start with. */
  function PublicBase(host: string, bucket: string): string {
    Join(["https:", "", host, "storage", "v1", "object", "public", bucket], '/')
  }

  lemma PublicBaseHasNoMarker(host: string, bucket: string)
    requires '/' !in host && '/' !in bucket && host != BUCKET && bucket != BUCKET
    ensures FirstMarker(PublicBase(host, bucket))
  {
    FirstMarkerOfSegments(["https:", "", host, "storage", "v1", "object", "public", bucket]);
  }

  /**
   Of the public URLs of another bucket, exactly those are accepted whose path, query or fragment contains
   the marker and where something other than a query or fragment follows the first such marker.
   */
  lemma OtherBucketAcceptedIff(host: string, bucket: string, rest: string)
    requires '/' !in host && '/' !in bucket && host != BUCKET && bucket != BUCKET
    ensures ExtractBucketPath(Some(PublicBase(host, bucket) + "/" + rest)).Some? <==>
            exists i :: PathFollowsMarker("/" + rest, i)
  {
    PublicBaseHasNoMarker(host, bucket);
    AcceptedAfterBase(PublicBase(host, bucket), rest);
  }

  /** Every plain path below such a folder is read as a path in this bucket. */
  lemma OtherBucketIsMisread(host: string, bucket: string, path: string)
    requires '/' !in host && '/' !in bucket && host != BUCKET && bucket != BUCKET
    requires path != "" && '?' !in path && '#' !in path && '%' !in path
    ensures ExtractBucketPath(Some(PublicBase(host, bucket) + MARKER + path)) == Some(path)
  {
    PublicBaseHasNoMarker(host, bucket);
    ExtractOfRawUrl(PublicBase(host, bucket), path);
  }

  /** Against the documented "null for anything that is not an object in this bucket". */
  lemma OtherBucketsCanBeAccepted()
    ensures var url := PublicBase("p.supabase.co", "other-bucket") + "/raffle-images/" + "a.webp";
            ExtractBucketPath(Some(url)) == Some("a.webp")
  {
    assert MARKER == "/raffle-images/";
    hide ExtractBucketPath;
    hide PublicBase;
    OtherBucketIsMisread("p.supabase.co", "other-bucket", "a.webp");
  }
}
