/** The orphan-image cleanup: paged scans of the bucket and the metadata table, the partition, and the deletion. */
module OrphanCleanup {
  import opened Basics
  import opened BucketTree
  import opened BucketPath

  const LIST_PAGE_SIZE := 100
  const DELETE_BATCH_SIZE := 100
  const ROW_PAGE_SIZE := 1000

  type NonNegative = r: real | 0.0 <= r witness 0.0

  datatype MetadataRow = MetadataRow(imageUrl: Option<string>, imageUrls: Option<seq<string>>)

  datatype Options = Options(delete: bool, graceHours: NonNegative, limit: Option<NonNegative>)

  datatype Report = Report(scanned: nat, skippedByGrace: nat, found: nat, selected: seq<string>, deleted: nat)

  /** The pages whose request fails, for each of the three services. */
  datatype Faults = Faults(rowPages: set<nat>, listings: set<(string, nat)>, batches: set<nat>)

  function Page<T>(all: seq<T>, offset: nat, limit: nat): (page: seq<T>)
    ensures |page| == if offset >= |all| then 0 else if offset + limit <= |all| then limit else |all| - offset
    ensures forall i | 0 <= i < |page| :: page[i] == all[offset + i]
  {
    if offset >= |all| then []
    else if offset + limit <= |all| then all[offset..offset + limit]
    else all[offset..]
  }

  function PathSet(paths: seq<string>): set<string> { set p | p in paths }

  lemma PathSetConcat(a: seq<string>, b: seq<string>)
    ensures PathSet(a + b) == PathSet(a) + PathSet(b)
  {
  }

  class Bucket {
    var root: seq<Entry>

    ghost predicate Valid()
      reads this
    {
      WellFormed(root)
    }

    /** Every file in the bucket. */
    ghost function Objects(): seq<StorageObject>
      reads this
    {
      Walk("", root)
    }

    constructor (entries: seq<Entry>)
      requires WellFormed(entries)
      ensures Valid() && root == entries
    {
      root := entries;
    }

    /** One page of one directory level. */
    function List(prefix: string, limit: nat, offset: nat): (page: seq<Entry>)
      reads this
      ensures var es := ContentsAt(root, prefix);
              && |page| == (if offset >= |es| then 0 else if offset + limit <= |es| then limit else |es| - offset)
              && forall i | 0 <= i < |page| :: page[i] == es[offset + i]
    {
      Page(ContentsAt(root, prefix), offset, limit)
    }

    method Remove(paths: seq<string>, fails: bool) returns (ok: bool)
      requires Valid()
      modifies this
      ensures Valid() && ok == !fails
      ensures Objects() == if ok then Surviving(old(Objects()), PathSet(paths)) else old(Objects())
      ensures !ok ==> root == old(root)
    {
      ok := !fails;
      if ok {
        var gone := PathSet(paths);
        RemovalKeepsShape("", root, gone);
        WalkAfterRemoval("", root, gone);
        root := RemoveFiles("", root, gone);
      }
    }
  }

  // ---------------------------------------------------------------------------
  // Scanning
  // ---------------------------------------------------------------------------

  lemma WalkStep(prefix: string, es: seq<Entry>, k: nat)
    requires k < |es|
    ensures Walk(prefix, es[..k + 1]) == Walk(prefix, es[..k]) + WalkEntry(prefix, es[k])
  {
    assert es[..k + 1] == es[..k] + [es[k]];
    WalkConcat(prefix, es[..k], [es[k]]);
    assert Walk(prefix, [es[k]]) == WalkEntry(prefix, es[k]) + Walk(prefix, []);
  }

  /** The requests at `from`, `from + size`, ... below `end` all succeed. */
  ghost predicate AllSucceed(from: nat, end: nat, size: nat, faults: set<nat>)
    requires size > 0
    decreases end - from
  {
    from < end ==> from !in faults && AllSucceed(from + size, end, size, faults)
  }

  /** Where the k-th request starts. */
  ghost function RequestStart(k: nat, size: nat): nat { k * size }

  lemma {:induction false} StartsGrow(i: nat, k: nat, size: nat)
    requires i <= k
    ensures RequestStart(i, size) <= RequestStart(k, size)
    ensures RequestStart(k + 1, size) == RequestStart(k, size) + size
    decreases k - i
  {
    if i < k {
      StartsGrow(i, k - 1, size);
    }
  }

  /** None of the requests from the k-th on fails. */
  lemma {:induction false} AllSucceedIff(k: nat, end: nat, size: nat, faults: set<nat>)
    requires size > 0
    ensures AllSucceed(RequestStart(k, size), end, size, faults) <==>
            forall i: nat | i >= k && RequestStart(i, size) < end :: RequestStart(i, size) !in faults
    decreases end - RequestStart(k, size)
  {
    StartsGrow(k, k, size);
    if RequestStart(k, size) < end {
      AllSucceedIff(k + 1, end, size, faults);
    } else {
      forall i: nat | i >= k ensures RequestStart(i, size) >= end {
        StartsGrow(k, i, size);
      }
    }
  }

  lemma SucceedFrom(from: nat, end: nat, size: nat, faults: set<nat>)
    requires size > 0
    ensures from >= end ==> AllSucceed(from, end, size, faults)
    ensures from < end ==> (AllSucceed(from, end, size, faults) <==>
                              from !in faults && AllSucceed(from + size, end, size, faults))
  {
  }

  /** A page that is not full is the last one asked for. */
  lemma PageSucceeds(from: nat, n: nat, size: nat, faults: set<nat>)
    requires size > 0 && from <= n
    ensures from in faults ==> !AllSucceed(from, n + 1, size, faults)
    ensures from !in faults ==>
              if from + size > n then AllSucceed(from, n + 1, size, faults)
              else AllSucceed(from, n + 1, size, faults) <==> AllSucceed(from + size, n + 1, size, faults)
  {
  }

  ghost function FailingPages(prefix: string, faults: set<(string, nat)>): (r: set<nat>)
    ensures forall k :: k in r <==> (prefix, k) in faults
  {
    set f | f in faults && f.0 == prefix :: f.1
  }

  ghost predicate EntrySucceeds(prefix: string, e: Entry, faults: set<(string, nat)>)
    decreases e, 2
  {
    e.Folder? ==> ListingSucceeds(Child(prefix, e.name), e.children, faults)
  }

  ghost predicate EntriesSucceed(prefix: string, es: seq<Entry>, faults: set<(string, nat)>)
    decreases es, 0
  {
    es != [] ==> EntriesSucceed(prefix, es[..|es| - 1], faults) && EntrySucceeds(prefix, es[|es| - 1], faults)
  }

  /** Every listing request of the walk below a prefix succeeds; a full last page costs one more request. */
  ghost predicate ListingSucceeds(prefix: string, es: seq<Entry>, faults: set<(string, nat)>)
    decreases es, 1
  {
    && AllSucceed(0, |es| + 1, LIST_PAGE_SIZE, FailingPages(prefix, faults))
    && EntriesSucceed(prefix, es, faults)
  }

  /** In requests: one for every hundred entries of the folder, and one more, succeed, and so do all nested ones. */
  lemma ListingSucceedsIff(prefix: string, es: seq<Entry>, faults: set<(string, nat)>)
    ensures ListingSucceeds(prefix, es, faults) <==>
            && (forall k: nat | RequestStart(k, 100) <= |es| :: (prefix, RequestStart(k, 100)) !in faults)
            && (forall i | 0 <= i < |es| && es[i].Folder? ::
                  ListingSucceeds(Child(prefix, es[i].name), es[i].children, faults))
  {
    AllSucceedIff(0, |es| + 1, LIST_PAGE_SIZE, FailingPages(prefix, faults));
    EntriesSucceedIff(prefix, es, faults);
  }

  lemma {:induction false} EntriesSucceedIff(prefix: string, es: seq<Entry>, faults: set<(string, nat)>)
    ensures EntriesSucceed(prefix, es, faults) <==> forall i | 0 <= i < |es| :: EntrySucceeds(prefix, es[i], faults)
  {
    hide EntrySucceeds;
    if es != [] {
      EntriesSucceedIff(prefix, es[..|es| - 1], faults);
    }
  }

  /** One delete request for every hundred paths succeeds. */
  lemma DeletionSucceedsIff(n: nat, faults: set<nat>)
    ensures AllSucceed(0, n, DELETE_BATCH_SIZE, faults) <==>
            forall k: nat | RequestStart(k, 100) < n :: RequestStart(k, 100) !in faults
  {
    AllSucceedIff(0, n, DELETE_BATCH_SIZE, faults);
  }

  lemma EntriesStep(prefix: string, es: seq<Entry>, k: nat, faults: set<(string, nat)>)
    requires k < |es|
    ensures EntriesSucceed(prefix, es[..k + 1], faults) <==>
            EntriesSucceed(prefix, es[..k], faults) && EntrySucceeds(prefix, es[k], faults)
  {
    assert es[..k + 1][..k] == es[..k];
  }

  lemma {:induction false} EachSucceeds(prefix: string, es: seq<Entry>, k: nat, faults: set<(string, nat)>)
    requires k < |es| && EntriesSucceed(prefix, es, faults)
    ensures EntrySucceeds(prefix, es[k], faults)
  {
    var n := |es| - 1;
    if k < n {
      EachSucceeds(prefix, es[..n], k, faults);
    }
  }

  /** The first k entries have been listed without a failure. */
  ghost predicate Listed(prefix: string, es: seq<Entry>, k: nat, objs: seq<StorageObject>, faults: set<(string, nat)>)
    requires k <= |es|
  {
    objs == Walk(prefix, es[..k]) && EntriesSucceed(prefix, es[..k], faults)
  }

  lemma ListedStep(prefix: string, es: seq<Entry>, k: nat, objs: seq<StorageObject>, faults: set<(string, nat)>)
    requires k < |es| && Listed(prefix, es, k, objs, faults) && EntrySucceeds(prefix, es[k], faults)
    ensures Listed(prefix, es, k + 1, objs + WalkEntry(prefix, es[k]), faults)
  {
    WalkStep(prefix, es, k);
    EntriesStep(prefix, es, k, faults);
  }

  lemma ListedEnds(prefix: string, es: seq<Entry>, objs: seq<StorageObject>, faults: set<(string, nat)>)
    ensures Listed(prefix, es, 0, [], faults)
    ensures Listed(prefix, es, |es|, objs, faults) <==> objs == Walk(prefix, es) && EntriesSucceed(prefix, es, faults)
  {
    assert es[..0] == [] && es[..|es|] == es;
  }

  method ListAllObjects(bucket: Bucket, prefix: string, faults: set<(string, nat)>)
    returns (r: Result<seq<StorageObject>, string>)
    requires bucket.Valid()
    ensures r.Ok? ==> r.value == Walk(prefix, ContentsAt(bucket.root, prefix))
    ensures r.Ok? <==> ListingSucceeds(prefix, ContentsAt(bucket.root, prefix), faults)
    decreases ContentsAt(bucket.root, prefix), 2
  {
    var objects := [];
    var offset := 0;
    ghost var es := ContentsAt(bucket.root, prefix);
    ghost var failing := FailingPages(prefix, faults);
    assert ListingSucceeds(prefix, es, faults) <==>
           AllSucceed(0, |es| + 1, LIST_PAGE_SIZE, failing) && EntriesSucceed(prefix, es, faults);
    ListedEnds(prefix, es, [], faults);
    hide *;
    while true
      invariant offset <= |es| && Listed(prefix, es, offset, objects, faults)
      invariant AllSucceed(0, |es| + 1, LIST_PAGE_SIZE, failing)
                <==> AllSucceed(offset, |es| + 1, LIST_PAGE_SIZE, failing)
      decreases |es| - offset
    {
      PageSucceeds(offset, |es|, LIST_PAGE_SIZE, failing);
      var data := bucket.List(prefix, LIST_PAGE_SIZE, offset);
      if (prefix, offset) in faults {
        return Err("Failed to list");
      }
      if |data| == 0 {
        break;
      }
      var grown := PushEntries(bucket, prefix, data, objects, offset, faults);
      if grown.Err? {
        return grown;
      }
      objects := grown.value;
      if |data| < LIST_PAGE_SIZE {
        break;
      }
      offset := offset + LIST_PAGE_SIZE;
    }
    ListedEnds(prefix, es, objects, faults);
    return Ok(objects);
  }

  /** The loop over one page of entries. */
  method PushEntries(bucket: Bucket, prefix: string, data: seq<Entry>, before: seq<StorageObject>, ghost offset: nat,
                     faults: set<(string, nat)>)
    returns (r: Result<seq<StorageObject>, string>)
    requires bucket.Valid()
    requires var es := ContentsAt(bucket.root, prefix);
             && offset + |data| <= |es| && (forall i | 0 <= i < |data| :: data[i] == es[offset + i])
             && Listed(prefix, es, offset, before, faults)
    ensures var es := ContentsAt(bucket.root, prefix);
            if r.Ok? then Listed(prefix, es, offset + |data|, r.value, faults)
            else !EntriesSucceed(prefix, es, faults)
    decreases ContentsAt(bucket.root, prefix), 1
  {
    var objects := before;
    ghost var es := ContentsAt(bucket.root, prefix);
    assert WellFormed(bucket.root);
    hide Listed;
    hide EntriesSucceed;
    hide EntrySucceeds;
    hide WalkEntry;
    hide ContentsAt;
    hide WellFormed;
    for i := 0 to |data|
      invariant Listed(prefix, es, offset + i, objects, faults)
    {
      var more := ListEntry(bucket, prefix, data[i], offset + i, faults);
      if more.Err? {
        if EntriesSucceed(prefix, es, faults) { EachSucceeds(prefix, es, offset + i, faults); }
        return more;
      }
      ListedStep(prefix, es, offset + i, objects, faults);
      objects := objects + more.value;
    }
    return Ok(objects);
  }

  /** A file, or everything below a folder. */
  method ListEntry(bucket: Bucket, prefix: string, entry: Entry, ghost k: nat, faults: set<(string, nat)>)
    returns (r: Result<seq<StorageObject>, string>)
    requires bucket.Valid() && k < |ContentsAt(bucket.root, prefix)| && entry == ContentsAt(bucket.root, prefix)[k]
    ensures r.Ok? ==> r.value == WalkEntry(prefix, entry)
    ensures r.Ok? <==> EntrySucceeds(prefix, entry, faults)
    decreases ContentsAt(bucket.root, prefix), 0
  {
    var childPath := Child(prefix, entry.name);
    match entry
    case Folder(_, children) =>
      ChildContents(bucket.root, prefix, k);
      r := ListAllObjects(bucket, childPath, faults);
    case File(_, createdAt) =>
      r := Ok([StorageObject(childPath, createdAt)]);
  }

  function Urls(row: MetadataRow): seq<Option<string>> {
    [row.imageUrl] +
    if row.imageUrls.None? then []
    else var more := row.imageUrls.value; seq(|more|, i requires 0 <= i < |more| => Some(more[i]))
  }

  function PathsIn(urls: seq<Option<string>>): set<string> {
    if urls == [] then {}
    else
      var path := ExtractBucketPath(urls[|urls| - 1]);
      PathsIn(urls[..|urls| - 1]) + if path.Some? then {path.value} else {}
  }

  /** Every object path that some URL of some row points at. */
  function ReferencedPaths(table: seq<MetadataRow>): set<string> {
    if table == [] then {} else ReferencedPaths(table[..|table| - 1]) + PathsIn(Urls(table[|table| - 1]))
  }

  lemma {:induction false} PathsInIff(urls: seq<Option<string>>, path: string)
    ensures path in PathsIn(urls) <==> exists k | 0 <= k < |urls| :: ExtractBucketPath(urls[k]) == Some(path)
  {
    hide ExtractBucketPath;
    if urls != [] {
      var n := |urls| - 1;
      PathsInIff(urls[..n], path);
      if path in PathsIn(urls[..n]) {
        var k :| 0 <= k < n && ExtractBucketPath(urls[..n][k]) == Some(path);
        assert ExtractBucketPath(urls[k]) == Some(path);
      } else if path in PathsIn(urls) {
        assert ExtractBucketPath(urls[n]) == Some(path);
      } else {
        forall k | 0 <= k < n ensures ExtractBucketPath(urls[k]) != Some(path) {
          assert urls[..n][k] == urls[k];
        }
      }
    }
  }

  lemma {:induction false} ReferencedByUrls(table: seq<MetadataRow>, path: string)
    ensures path in ReferencedPaths(table) <==>
            exists i | 0 <= i < |table| :: path in PathsIn(Urls(table[i]))
  {
    hide ExtractBucketPath;
    if table != [] {
      var n := |table| - 1;
      ReferencedByUrls(table[..n], path);
      if path in ReferencedPaths(table[..n]) {
        var i :| 0 <= i < n && path in PathsIn(Urls(table[..n][i]));
        assert path in PathsIn(Urls(table[i]));
      }
    }
  }

  lemma UrlsIff(row: MetadataRow, url: Option<string>)
    ensures url in Urls(row) <==>
            url == row.imageUrl || (row.imageUrls.Some? && url.Some? && url.value in row.imageUrls.value)
  {
    if url == row.imageUrl { assert Urls(row)[0] == url; }
    if row.imageUrls.Some? && url.Some? && url.value in row.imageUrls.value {
      var k :| 0 <= k < |row.imageUrls.value| && row.imageUrls.value[k] == url.value;
      assert Urls(row)[k + 1] == url;
    }
  }

  /** A path is referenced exactly when the main URL of some row, or one of its gallery URLs, leads to it. */
  lemma ReferencedIff(table: seq<MetadataRow>, path: string)
    ensures path in ReferencedPaths(table) <==>
            exists i | 0 <= i < |table| ::
              || ExtractBucketPath(table[i].imageUrl) == Some(path)
              || (table[i].imageUrls.Some? &&
                  exists url | url in table[i].imageUrls.value :: ExtractBucketPath(Some(url)) == Some(path))
  {
    hide ExtractBucketPath;
    ReferencedByUrls(table, path);
    forall i | 0 <= i < |table|
      ensures path in PathsIn(Urls(table[i])) <==>
              || ExtractBucketPath(table[i].imageUrl) == Some(path)
              || (table[i].imageUrls.Some? &&
                  exists url | url in table[i].imageUrls.value :: ExtractBucketPath(Some(url)) == Some(path))
    {
      MentionedIff(table[i], path);
    }
  }

  lemma MentionedIff(row: MetadataRow, path: string)
    ensures path in PathsIn(Urls(row)) <==>
            || ExtractBucketPath(row.imageUrl) == Some(path)
            || (row.imageUrls.Some? &&
                exists url | url in row.imageUrls.value :: ExtractBucketPath(Some(url)) == Some(path))
  {
    hide ExtractBucketPath;
    var urls := Urls(row);
    PathsInIff(urls, path);
    forall url: Option<string> ensures url in urls <==>
      url == row.imageUrl || (row.imageUrls.Some? && url.Some? && url.value in row.imageUrls.value)
    {
      UrlsIff(row, url);
    }
    hide Urls;
    assert path in PathsIn(urls) <==> exists url | url in urls :: ExtractBucketPath(url) == Some(path);
    assert ExtractBucketPath(None) == None by { NoUrlNoPath(); }
    if row.imageUrls.Some? {
      forall url: string | url in row.imageUrls.value ensures Some(url) in urls {
      }
    }
  }

  lemma NoUrlNoPath()
    ensures ExtractBucketPath(None) == None
  {
  }

  method AddPaths(urls: seq<Option<string>>, before: set<string>) returns (referenced: set<string>)
    ensures referenced == before + PathsIn(urls)
  {
    referenced := before;
    for j := 0 to |urls|
      invariant referenced == before + PathsIn(urls[..j])
    {
      assert urls[..j + 1][..j] == urls[..j];
      var path := ExtractBucketPath(urls[j]);
      if path.Some? {
        referenced := referenced + {path.value};
      }
    }
    assert urls[..|urls|] == urls;
  }

  lemma ReferencedGrow(table: seq<MetadataRow>, n: nat)
    requires n < |table|
    ensures ReferencedPaths(table[..n + 1]) == ReferencedPaths(table[..n]) + PathsIn(Urls(table[n]))
  {
    hide ExtractBucketPath;
    assert table[..n + 1][..n] == table[..n];
  }

  lemma PageCount(k: nat, got: nat, n: nat)
    requires var from := RequestStart(k, ROW_PAGE_SIZE);
             from <= n && got == if from + ROW_PAGE_SIZE <= n then ROW_PAGE_SIZE else n - from
    ensures RequestStart(k + 1, ROW_PAGE_SIZE) == RequestStart(k, ROW_PAGE_SIZE) + ROW_PAGE_SIZE
    ensures k <= n / ROW_PAGE_SIZE && (got < ROW_PAGE_SIZE ==> k == n / ROW_PAGE_SIZE)
  {
  }

  /** Adds the references of `data`, the rows that follow the first `from` of the table. */
  method AddRows(table: seq<MetadataRow>, from: nat, data: seq<MetadataRow>, before: set<string>)
    returns (referenced: set<string>)
    requires from + |data| <= |table| && data == table[from..from + |data|]
    requires before == ReferencedPaths(table[..from])
    ensures referenced == ReferencedPaths(table[..from + |data|])
  {
    hide ReferencedPaths;
    hide PathsIn;
    hide Urls;
    referenced := before;
    for i := 0 to |data|
      invariant referenced == ReferencedPaths(table[..from + i])
    {
      ReferencedGrow(table, from + i);
      referenced := AddPaths(Urls(data[i]), referenced);
    }
  }

  method CollectReferencedPaths(table: seq<MetadataRow>, faults: set<nat>)
    returns (r: Result<set<string>, string>, requests: nat)
    ensures r.Ok? <==> AllSucceed(0, |table| + 1, ROW_PAGE_SIZE, faults)
    ensures r.Ok? ==> r.value == ReferencedPaths(table) && requests == |table| / 1000 + 1
    ensures r.Err? ==> 0 < requests <= |table| / 1000 + 1 && RequestStart(requests - 1, 1000) in faults
  {
    var referenced: set<string> := {};
    var from := 0;
    requests := 0;
    assert ReferencedPaths(table[..0]) == {};
    hide ReferencedPaths;
    hide Page;
    hide RequestStart;
    hide AllSucceed;
    while true
      invariant from <= |table| && referenced == ReferencedPaths(table[..from])
      invariant from == RequestStart(requests, ROW_PAGE_SIZE)
      invariant AllSucceed(0, |table| + 1, ROW_PAGE_SIZE, faults)
                <==> AllSucceed(from, |table| + 1, ROW_PAGE_SIZE, faults)
      decreases |table| - from
    {
      var data := Page(table, from, ROW_PAGE_SIZE);
      PageCount(requests, |data|, |table|);
      PageSucceeds(from, |table|, ROW_PAGE_SIZE, faults);
      requests := requests + 1;
      if from in faults {
        return Err("Failed to read raffle_metadata"), requests;
      }
      if |data| == 0 {
        assert table[..from] == table;
        break;
      }
      referenced := AddRows(table, from, data, referenced);
      if |data| < ROW_PAGE_SIZE {
        assert table[..from + |data|] == table;
        break;
      }
      from := from + ROW_PAGE_SIZE;
    }
    return Ok(referenced), requests;
  }

  // ---------------------------------------------------------------------------
  // The partition
  // ---------------------------------------------------------------------------

  function Cutoff(now: int, options: Options): real {
    now as real - options.graceHours * 60.0 * 60.0 * 1000.0
  }

  /** A known creation time, at or before the cutoff. */
  predicate Settled(o: StorageObject, cutoff: real) {
    o.createdAt.At? && o.createdAt.ms as real <= cutoff
  }

  predicate IsOrphan(o: StorageObject, referenced: set<string>, cutoff: real) {
    o.path !in referenced && Settled(o, cutoff)
  }

  /** In rows and hours: no URL of any row leads to the object, and it is at least as old as the grace window. */
  lemma OrphanIff(o: StorageObject, table: seq<MetadataRow>, options: Options, now: int)
    ensures IsOrphan(o, ReferencedPaths(table), Cutoff(now, options)) <==>
            && o.createdAt.At? && now as real - o.createdAt.ms as real >= options.graceHours * 3600000.0
            && forall i | 0 <= i < |table| ::
                 && ExtractBucketPath(table[i].imageUrl) != Some(o.path)
                 && (table[i].imageUrls.Some? ==>
                       forall url | url in table[i].imageUrls.value :: ExtractBucketPath(Some(url)) != Some(o.path))
  {
    ReferencedIff(table, o.path);
    hide ExtractBucketPath;
    hide ReferencedPaths;
  }

  function Orphans(objs: seq<StorageObject>, referenced: set<string>, cutoff: real): (r: seq<StorageObject>)
    ensures forall o :: o in r <==> o in objs && IsOrphan(o, referenced, cutoff)
  {
    if objs == [] then []
    else
      var last := objs[|objs| - 1];
      assert objs == objs[..|objs| - 1] + [last];
      Orphans(objs[..|objs| - 1], referenced, cutoff) + if IsOrphan(last, referenced, cutoff) then [last] else []
  }

  /** The orphans keep the order of the listing, so a limit takes the first of them. */
  lemma {:induction false} OrphansKeepOrder(
    a: seq<StorageObject>, b: seq<StorageObject>, o: StorageObject, referenced: set<string>, cutoff: real)
    ensures Orphans(a + b, referenced, cutoff) == Orphans(a, referenced, cutoff) + Orphans(b, referenced, cutoff)
    ensures Orphans([o], referenced, cutoff) == if IsOrphan(o, referenced, cutoff) then [o] else []
  {
    hide IsOrphan;
    assert [o][..0] == [];
    if b == [] {
      assert a + b == a;
    } else {
      var n := |b| - 1;
      assert (a + b)[..|a + b| - 1] == a + b[..n] && (a + b)[|a + b| - 1] == b[n];
      OrphansKeepOrder(a, b[..n], o, referenced, cutoff);
    }
  }

  function PresentReferences(objs: seq<StorageObject>, referenced: set<string>): nat {
    if objs == [] then 0
    else PresentReferences(objs[..|objs| - 1], referenced) + if objs[|objs| - 1].path in referenced then 1 else 0
  }

  function GraceSkips(objs: seq<StorageObject>, referenced: set<string>, cutoff: real): nat {
    if objs == [] then 0
    else
      var last := objs[|objs| - 1];
      GraceSkips(objs[..|objs| - 1], referenced, cutoff)
      + if last.path !in referenced && !Settled(last, cutoff) then 1 else 0
  }

  lemma {:induction false} PartitionConserves(objs: seq<StorageObject>, referenced: set<string>, cutoff: real)
    ensures |objs| ==
            PresentReferences(objs, referenced) + GraceSkips(objs, referenced, cutoff)
            + |Orphans(objs, referenced, cutoff)|
  {
    if objs != [] {
      PartitionConserves(objs[..|objs| - 1], referenced, cutoff);
    }
  }

  method Partition(objs: seq<StorageObject>, referenced: set<string>, cutoff: real)
    returns (orphans: seq<StorageObject>, skippedByGrace: nat)
    ensures orphans == Orphans(objs, referenced, cutoff)
    ensures skippedByGrace == GraceSkips(objs, referenced, cutoff)
    ensures |objs| == PresentReferences(objs, referenced) + skippedByGrace + |orphans|
  {
    orphans := [];
    skippedByGrace := 0;
    for i := 0 to |objs|
      invariant orphans == Orphans(objs[..i], referenced, cutoff)
      invariant skippedByGrace == GraceSkips(objs[..i], referenced, cutoff)
    {
      var obj := objs[i];
      assert objs[..i + 1][..i] == objs[..i];
      if obj.path in referenced {
        continue;
      }
      if !obj.createdAt.At? || obj.createdAt.ms as real > cutoff {
        skippedByGrace := skippedByGrace + 1;
        continue;
      }
      orphans := orphans + [obj];
    }
    assert objs[..|objs|] == objs;
    PartitionConserves(objs, referenced, cutoff);
  }

  // ---------------------------------------------------------------------------
  // Deletion
  // ---------------------------------------------------------------------------

  function Min(a: int, b: int): int { if a < b then a else b }

  /** `reached` is `from` plus a multiple of the size. */
  ghost predicate Reaches(from: nat, reached: nat, size: nat)
    requires size > 0
    decreases reached - from
  {
    from == reached || (from < reached && Reaches(from + size, reached, size))
  }

  lemma {:induction false} SucceedOneMore(from: nat, reached: nat, end: nat, size: nat, faults: set<nat>)
    requires 0 < size && Reaches(from, reached, size) && reached < end <= reached + size
    ensures AllSucceed(from, end, size, faults) <==> AllSucceed(from, reached, size, faults) && reached !in faults
    ensures Reaches(from, reached + size, size)
    decreases reached - from
  {
    if from < reached {
      SucceedOneMore(from + size, reached, end, size, faults);
    }
  }

  lemma {:induction false} ReachesMultiples(from: nat, reached: nat)
    requires from % DELETE_BATCH_SIZE == 0 && Reaches(from, reached, DELETE_BATCH_SIZE)
    ensures reached % DELETE_BATCH_SIZE == 0
    decreases reached - from
  {
    if from < reached {
      ReachesMultiples(from + DELETE_BATCH_SIZE, reached);
    }
  }

  /** One batch of `n` paths, from `done` to `next`. */
  lemma BatchSucceeds(done: nat, next: nat, n: nat, faults: set<nat>)
    requires Reaches(0, done, DELETE_BATCH_SIZE) && AllSucceed(0, done, DELETE_BATCH_SIZE, faults)
    requires done < n && next == Min(done + DELETE_BATCH_SIZE, n)
    ensures done % DELETE_BATCH_SIZE == 0
    ensures done in faults ==> !AllSucceed(done, n, DELETE_BATCH_SIZE, faults)
    ensures done !in faults ==>
              && (AllSucceed(done, n, DELETE_BATCH_SIZE, faults) <==> AllSucceed(next, n, DELETE_BATCH_SIZE, faults))
              && AllSucceed(0, next, DELETE_BATCH_SIZE, faults)
              && (next < n ==> Reaches(0, next, DELETE_BATCH_SIZE))
  {
    ReachesMultiples(0, done);
    SucceedOneMore(0, done, next, DELETE_BATCH_SIZE, faults);
    SucceedFrom(done, n, DELETE_BATCH_SIZE, faults);
    SucceedFrom(next, n, DELETE_BATCH_SIZE, faults);
    SucceedFrom(done + DELETE_BATCH_SIZE, n, DELETE_BATCH_SIZE, faults);
  }

  /** The first failing batch, if any, decides how many leading paths are gone. */
  method DeleteInBatches(bucket: Bucket, paths: seq<string>, faults: set<nat>) returns (done: nat)
    requires bucket.Valid()
    modifies bucket
    ensures bucket.Valid() && done <= |paths|
    ensures bucket.Objects() == Surviving(old(bucket.Objects()), PathSet(paths[..done]))
    ensures done == |paths| <==> AllSucceed(0, |paths|, DELETE_BATCH_SIZE, faults)
    ensures AllSucceed(0, done, DELETE_BATCH_SIZE, faults)
    ensures done < |paths| ==> done % 100 == 0 && done in faults
    ensures paths == [] ==> bucket.root == old(bucket.root)
  {
    done := 0;
    SurvivingNone(bucket.Objects());
    assert PathSet(paths[..0]) == {};
    assert Reaches(0, 0, DELETE_BATCH_SIZE) && AllSucceed(0, 0, DELETE_BATCH_SIZE, faults);
    hide PathSet;
    hide Surviving;
    hide Walk;
    hide WellFormed;
    SucceedFrom(|paths|, |paths|, DELETE_BATCH_SIZE, faults);
    hide AllSucceed;
    hide Reaches;
    ghost var start := bucket.Objects();
    while done < |paths|
      invariant bucket.Valid() && done <= |paths|
      invariant done < |paths| ==> Reaches(0, done, DELETE_BATCH_SIZE)
      invariant AllSucceed(0, done, DELETE_BATCH_SIZE, faults)
      invariant AllSucceed(0, |paths|, DELETE_BATCH_SIZE, faults)
                <==> AllSucceed(done, |paths|, DELETE_BATCH_SIZE, faults)
      invariant bucket.Objects() == Surviving(start, PathSet(paths[..done]))
      invariant paths == [] ==> bucket.root == old(bucket.root)
      decreases |paths| - done
    {
      var next := Min(done + DELETE_BATCH_SIZE, |paths|);
      BatchSucceeds(done, next, |paths|, faults);
      var batch := paths[done..next];
      var ok := bucket.Remove(batch, done in faults);
      if !ok {
        return;
      }
      BatchStep(start, paths, done, next);
      done := next;
    }
  }

  lemma BatchStep(objs: seq<StorageObject>, paths: seq<string>, from: nat, to: nat)
    requires from <= to <= |paths|
    ensures Surviving(Surviving(objs, PathSet(paths[..from])), PathSet(paths[from..to]))
            == Surviving(objs, PathSet(paths[..to]))
  {
    SurvivingTwice(objs, PathSet(paths[..from]), PathSet(paths[from..to]));
    PathSetConcat(paths[..from], paths[from..to]);
    assert paths[..to] == paths[..from] + paths[from..to];
  }

  lemma {:induction false} SurvivingNone(objs: seq<StorageObject>)
    ensures Surviving(objs, {}) == objs
  {
    if objs != [] {
      SurvivingNone(objs[1..]);
    }
  }

  function PathsOf(objs: seq<StorageObject>): (r: seq<string>)
    ensures |r| == |objs| && forall i | 0 <= i < |objs| :: r[i] == objs[i].path
  {
    seq(|objs|, i requires 0 <= i < |objs| => objs[i].path)
  }

  /** Only objects with distinct paths can be told apart by path. */
  lemma PathIdentifies(objs: seq<StorageObject>, chosen: seq<StorageObject>, o: StorageObject)
    requires DistinctPaths(objs) && o in objs && forall x | x in chosen :: x in objs
    ensures o.path in PathsOf(chosen) <==> o in chosen
  {
    if o.path in PathsOf(chosen) {
      var i :| 0 <= i < |chosen| && PathsOf(chosen)[i] == o.path;
      assert chosen[i] in chosen && chosen[i] in objs;
      var a :| 0 <= a < |objs| && objs[a] == chosen[i];
      var b :| 0 <= b < |objs| && objs[b] == o;
    }
  }

  lemma {:induction false} SurvivorCount(objs: seq<StorageObject>, gone: set<string>)
    requires DistinctPaths(objs) && forall p | p in gone :: p in PathsOf(objs)
    ensures |Surviving(objs, gone)| == |objs| - |gone|
  {
    if objs == [] {
      assert gone == {};
    } else {
      var first, rest := objs[0].path, objs[1..];
      forall p | p in gone - {first}
        ensures p in PathsOf(rest)
      {
        var i :| 0 <= i < |objs| && PathsOf(objs)[i] == p;
        assert PathsOf(rest)[i - 1] == p;
      }
      SurvivorCount(rest, gone - {first});
      SameSurvivors(rest, gone, first);
    }
  }

  lemma {:induction false} SameSurvivors(objs: seq<StorageObject>, gone: set<string>, other: string)
    requires forall o | o in objs :: o.path != other
    ensures Surviving(objs, gone) == Surviving(objs, gone - {other})
  {
    if objs != [] {
      SameSurvivors(objs[1..], gone, other);
    }
  }

  lemma {:induction false} OrphansAreDistinct(objs: seq<StorageObject>, referenced: set<string>, cutoff: real)
    requires DistinctPaths(objs)
    ensures DistinctPaths(Orphans(objs, referenced, cutoff))
  {
    if objs != [] {
      var front, last := objs[..|objs| - 1], objs[|objs| - 1];
      OrphansAreDistinct(front, referenced, cutoff);
      forall o | o in front
        ensures o.path != last.path
      {
        var j :| 0 <= j < |front| && front[j] == o;
        assert objs[j] == o;
      }
    }
  }

  // ---------------------------------------------------------------------------
  // The whole run
  // ---------------------------------------------------------------------------

  /** `orphans.slice(0, limit)`; a fractional limit is truncated. */
  function Capped<T>(all: seq<T>, limit: Option<NonNegative>): (r: seq<T>)
    ensures r <= all
    ensures |r| == if limit.None? || limit.value.Floor >= |all| then |all| else limit.value.Floor
  {
    if limit.None? then all else all[..Min(limit.value.Floor, |all|)]
  }

  /** The objects a run is allowed to delete. */
  function Selected(objs: seq<StorageObject>, table: seq<MetadataRow>, options: Options, now: int): seq<StorageObject> {
    Capped(Orphans(objs, ReferencedPaths(table), Cutoff(now, options)), options.limit)
  }

  /** Younger than the grace window, or of unknown age. */
  ghost predicate InGrace(o: StorageObject, options: Options, now: int) {
    o.createdAt.At? ==> now as real - o.createdAt.ms as real < options.graceHours * 3600000.0
  }

  lemma GraceProtects(table: seq<MetadataRow>, options: Options, now: int)
    ensures forall o | InGrace(o, options, now) :: !IsOrphan(o, ReferencedPaths(table), Cutoff(now, options))
  {
    hide ReferencedPaths;
  }

  method Cleanup(bucket: Bucket, table: seq<MetadataRow>, options: Options, now: int, faults: Faults)
    returns (r: Result<Report, string>)
    requires bucket.Valid()
    modifies bucket
    ensures bucket.Valid()
    // Whatever fails, only settled objects that no row references are ever deleted.
    ensures forall o | o in old(bucket.Objects()) && !IsOrphan(o, ReferencedPaths(table), Cutoff(now, options)) ::
              o in bucket.Objects()
    // Nothing inside the grace window goes, and nothing whose age is unknown.
    ensures forall o | o in old(bucket.Objects()) && InGrace(o, options, now) :: o in bucket.Objects()
    // Nor is anything beyond the limit.
    ensures forall o | o in old(bucket.Objects())
                       && o !in Selected(old(bucket.Objects()), table, options, now) :: o in bucket.Objects()
    ensures forall o | o in bucket.Objects() :: o in old(bucket.Objects())
    ensures !options.delete ==> bucket.root == old(bucket.root)
    // The run succeeds exactly when none of the requests it needs fails.
    ensures r.Ok? <==>
            && AllSucceed(0, |table| + 1, ROW_PAGE_SIZE, faults.rowPages)
            && ListingSucceeds("", old(bucket.root), faults.listings)
            && (options.delete ==>
                  var chosen := Selected(old(bucket.Objects()), table, options, now);
                  AllSucceed(0, |chosen|, DELETE_BATCH_SIZE, faults.batches))
    // A successful run accounts for every object and deletes exactly the selected ones.
    ensures r.Ok? ==>
              var objs, refs, cutoff := old(bucket.Objects()), ReferencedPaths(table), Cutoff(now, options);
              var chosen := Selected(objs, table, options, now);
              && r.value.scanned == |objs|
              && r.value.found == |Orphans(objs, refs, cutoff)|
              && r.value.scanned == PresentReferences(objs, refs) + r.value.skippedByGrace + r.value.found
              && r.value.selected == PathsOf(chosen)
              && |chosen| == (if options.limit.None? then |Orphans(objs, refs, cutoff)|
                              else Min(options.limit.value.Floor, |Orphans(objs, refs, cutoff)|))
              && r.value.deleted == (if options.delete then |chosen| else 0)
              && |bucket.Objects()| == |objs| - r.value.deleted
              && (forall o | o in objs :: o in bucket.Objects() <==> !(options.delete && o in chosen))
    // An unlimited run leaves nothing for a second run at the same cutoff.
    ensures r.Ok? && options.delete && options.limit.None? ==>
              Orphans(bucket.Objects(), ReferencedPaths(table), Cutoff(now, options)) == []
  {
    hide Surviving;
    hide Walk;
    hide FolderAt;
    hide FileAt;
    hide WellFormed;
    hide Orphans;
    hide PresentReferences;
    hide GraceSkips;
    GraceProtects(table, options, now);
    hide IsOrphan;
    hide InGrace;
    hide Cutoff;
    hide ReferencedPaths;
    assert AllSucceed(0, 0, DELETE_BATCH_SIZE, faults.batches);
    hide ListingSucceeds;
    hide AllSucceed;
    var referenced, _ := CollectReferencedPaths(table, faults.rowPages);
    if referenced.Err? {
      return Err(referenced.error);
    }
    var all := ListAllObjects(bucket, "", faults.listings);
    if all.Err? {
      return Err(all.error);
    }
    var cutoff := Cutoff(now, options);
    var orphans, skippedByGrace := Partition(all.value, referenced.value, cutoff);
    var capped := Capped(orphans, options.limit);
    var paths := PathsOf(capped);
    WalkListsEveryFileOnce(bucket.root, StorageObject("", Missing));
    ghost var chosen := Selected(all.value, table, options, now);
    DeletionIsSafe(all.value, referenced.value, cutoff, options.limit);
    DeletionIsExact(all.value, referenced.value, cutoff, options.limit);
    var deleted := 0;
    if options.delete && |paths| > 0 {
      var done := DeleteInBatches(bucket, paths, faults.batches);
      if done < |paths| {
        return Err("Failed to delete a batch of objects");
      }
      assert paths[..done] == paths;
      deleted := |paths|;
    } else {
      SurvivingNone(all.value);
      assert capped == [] ==> PathSet(paths) == {};
    }
    return Ok(Report(|all.value|, skippedByGrace, |orphans|, paths, deleted));
  }

  /** Deleting any leading part of the selection spares everything that was not selected, in or out of the limit. */
  lemma DeletionIsSafe(objs: seq<StorageObject>, referenced: set<string>, cutoff: real, limit: Option<NonNegative>)
    requires DistinctPaths(objs)
    ensures var chosen := Capped(Orphans(objs, referenced, cutoff), limit);
            var paths := PathsOf(chosen);
            forall n, o | 0 <= n <= |paths| && o in objs
                          && (o !in chosen || !IsOrphan(o, referenced, cutoff)) ::
              o in Surviving(objs, PathSet(paths[..n]))
  {
    var chosen := Capped(Orphans(objs, referenced, cutoff), limit);
    forall n, o | 0 <= n <= |PathsOf(chosen)| && o in objs && (o !in chosen || !IsOrphan(o, referenced, cutoff))
      ensures o in Surviving(objs, PathSet(PathsOf(chosen)[..n]))
    {
      assert forall x | x in chosen :: x in Orphans(objs, referenced, cutoff);
      PathIdentifies(objs, chosen, o);
    }
  }

  /** Deleting the whole selection removes exactly the selected objects, one for each path. */
  lemma DeletionIsExact(objs: seq<StorageObject>, referenced: set<string>, cutoff: real, limit: Option<NonNegative>)
    requires DistinctPaths(objs)
    ensures var chosen := Capped(Orphans(objs, referenced, cutoff), limit);
            var left := Surviving(objs, PathSet(PathsOf(chosen)));
            && |left| == |objs| - |chosen|
            && (forall o | o in objs :: o in left <==> o !in chosen)
            && (limit.None? ==> Orphans(left, referenced, cutoff) == [])
  {
    var orphans := Orphans(objs, referenced, cutoff);
    var chosen := Capped(orphans, limit);
    var left := Surviving(objs, PathSet(PathsOf(chosen)));
    assert forall x | x in chosen :: x in orphans;
    OrphansAreDistinct(objs, referenced, cutoff);
    DistinctPathsCount(objs, chosen);
    forall o | o in objs
      ensures o.path in PathsOf(chosen) <==> o in chosen
    {
      PathIdentifies(objs, chosen, o);
    }
    if limit.None? {
      var again := Orphans(left, referenced, cutoff);
      assert forall o :: o !in again;
      EmptyWhenNoMember(again);
    }
  }

  lemma EmptyWhenNoMember<T>(s: seq<T>)
    ensures s == [] || exists x :: x in s
  {
    if s != [] {
      assert s[0] in s;
    }
  }

  lemma DistinctPathsCount(objs: seq<StorageObject>, chosen: seq<StorageObject>)
    requires DistinctPaths(objs) && DistinctPaths(chosen) && forall x | x in chosen :: x in objs
    ensures |Surviving(objs, PathSet(PathsOf(chosen)))| == |objs| - |chosen|
  {
    forall p | p in PathSet(PathsOf(chosen))
      ensures p in PathsOf(objs)
    {
      var i :| 0 <= i < |chosen| && PathsOf(chosen)[i] == p;
      assert chosen[i] in chosen && chosen[i] in objs;
      var a :| 0 <= a < |objs| && objs[a] == chosen[i];
      assert PathsOf(objs)[a] == p;
    }
    SetOfDistinct(PathsOf(chosen));
    SurvivorCount(objs, PathSet(PathsOf(chosen)));
  }

  lemma {:induction false} SetOfDistinct(s: seq<string>)
    requires NoDuplicates(s)
    ensures |PathSet(s)| == |s|
  {
    if s == [] {
      assert PathSet(s) == {};
    } else {
      SetOfDistinct(s[1..]);
      assert PathSet(s) == {s[0]} + PathSet(s[1..]);
    }
  }
}
