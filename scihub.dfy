/**
 * sci_hub_downloader.py: grouping the Google Scholar records by year, the
 * sanitised PDF file names, and the "not found" ledger that the download
 * loops fill. The browser and the file system are replaced by oracles:
 * `attempt(dir, i)` says what happened when item i of the year directory
 * `dir` was opened, `makeDirOk(dir)` whether os.makedirs succeeded.
 */
module SciHub {
  import opened Wrappers
  import opened Text
  import opened Grouping

  // ---------------------------------------------------------------------
  // Records and the year grouping (read_google_results)
  // ---------------------------------------------------------------------

  /** One record of google_results.json; `entry.get` may find any field absent. */
  datatype Entry = Entry(url: Option<string>, paperName: Option<string>, authors: Option<string>, year: Option<string>)

  /** The metadata dict stored for each paper; `year` holds the bucket key. */
  datatype Metadata = Metadata(url: Option<string>, paperName: string, authors: Option<string>, year: string)

  /** The three parallel lists kept per year. */
  datatype YearBucket = YearBucket(urls: seq<Option<string>>, names: seq<string>, metadata: seq<Metadata>)

  /** results_by_year: a dict, so its keys in insertion order and the bucket of each key. */
  datatype YearGroups = YearGroups(keys: seq<string>, buckets: map<string, YearBucket>) {
    predicate Valid() {
      && Distinct(keys)
      && (forall k :: k in buckets ==> k in keys)
      && (forall k :: k in keys ==> k in buckets)
    }
  }

  /** entry.get("year", "Unknown"). */
  function YearKey(e: Entry): string {
    if e.year.Some? then e.year.value else "Unknown"
  }

  /** paper_name.replace("/", "-").replace(" ", "_") + ".pdf". */
  function SanitizedName(paperName: string): (r: string)
    ensures |r| == |paperName| + 4
    ensures r[|paperName|..] == ".pdf"
    ensures forall i :: 0 <= i < |paperName| ==>
      r[i] == (if paperName[i] == '/' then '-' else if paperName[i] == ' ' then '_' else paperName[i])
    ensures '/' !in r && ' ' !in r
  {
    ReplaceChar(ReplaceChar(paperName, '/', '-'), ' ', '_') + ".pdf"
  }

  /** Every record has a paper name (otherwise `paper_name.replace` raises). */
  predicate Named(data: seq<Entry>) {
    forall e :: e in data ==> e.paperName.Some?
  }

  function MetadataOf(e: Entry): Metadata
    requires e.paperName.Some?
  {
    Metadata(e.url, e.paperName.value, e.authors, YearKey(e))
  }

  /** The bucket built from the records of one year, in their order. */
  function BucketOf(es: seq<Entry>): YearBucket
    requires Named(es)
  {
    YearBucket(seq(|es|, i requires 0 <= i < |es| => es[i].url),
               seq(|es|, i requires 0 <= i < |es| => SanitizedName(es[i].paperName.value)),
               seq(|es|, i requires 0 <= i < |es| => MetadataOf(es[i])))
  }

  /**
   * g is what read_google_results builds from data: the year keys in order
   * of first occurrence, each with the bucket of its own records in input order.
   */
  predicate IsGrouping(data: seq<Entry>, g: YearGroups) {
    && Named(data)
    && g.keys == KeysInOrder(data, YearKey)
    && (forall k :: k in g.buckets ==> k in g.keys)
    && (forall k :: k in g.keys ==> k in g.buckets)
    && (forall k :: k in g.buckets ==>
          Named(Filter(data, YearKey, k)) && g.buckets[k] == BucketOf(Filter(data, YearKey, k)))
  }

  const EmptyBucket := YearBucket([], [], [])

  /** Appending one record to a year's bucket, as the three `.append` calls do. */
  function AppendEntry(b: YearBucket, e: Entry): YearBucket
    requires e.paperName.Some?
  {
    YearBucket(b.urls + [e.url], b.names + [SanitizedName(e.paperName.value)], b.metadata + [MetadataOf(e)])
  }

  lemma BucketOfStep(es: seq<Entry>, e: Entry)
    requires Named(es) && e.paperName.Some?
    ensures Named(es + [e])
    ensures BucketOf(es + [e]) == AppendEntry(BucketOf(es), e)
  {
  }

  /** The bucket a key holds after one more record, as the loop body leaves it. */
  function NextGroups(g: YearGroups, e: Entry): YearGroups
    requires e.paperName.Some?
  {
    var k := YearKey(e);
    YearGroups(if k in g.buckets then g.keys else g.keys + [k],
               g.buckets[k := AppendEntry(if k in g.buckets then g.buckets[k] else EmptyBucket, e)])
  }

  /** The records of one year are records of the input, so they are named too. */
  lemma FilterNamed(data: seq<Entry>, k: string)
    requires Named(data)
    ensures Named(Filter(data, YearKey, k))
  {
    forall e | e in Filter(data, YearKey, k)
      ensures e.paperName.Some?
    {
      FilterMembership(data, YearKey, k, e);
    }
  }

  lemma GroupingStepBucket(s: seq<Entry>, e: Entry, g: YearGroups, k': string)
    requires Named(s) && e.paperName.Some?
    requires IsGrouping(s, g)
    requires k' in NextGroups(g, e).buckets
    ensures Named(s + [e])
    ensures Named(Filter(s + [e], YearKey, k'))
    ensures NextGroups(g, e).buckets[k'] == BucketOf(Filter(s + [e], YearKey, k'))
  {
    var k := YearKey(e);
    assert Named(s + [e]);
    FilterNamed(s + [e], k');
    FilterStep(s, e, YearKey, k');
    if k' == k {
      if k !in g.buckets {
        FilterOutsideKeys(s, YearKey, k);
      }
      BucketOfStep(Filter(s, YearKey, k), e);
    }
  }

  lemma GroupingStep(s: seq<Entry>, e: Entry, g: YearGroups)
    requires Named(s) && e.paperName.Some?
    requires IsGrouping(s, g)
    ensures Named(s + [e])
    ensures IsGrouping(s + [e], NextGroups(g, e))
  {
    KeysInOrderStep(s, e, YearKey);
    forall k' | k' in NextGroups(g, e).buckets
      ensures Named(Filter(s + [e], YearKey, k'))
      ensures NextGroups(g, e).buckets[k'] == BucketOf(Filter(s + [e], YearKey, k'))
    {
      GroupingStepBucket(s, e, g, k');
    }
  }

  /** One more element of the prefix; the whole list as its own prefix. */
  lemma PrefixSnoc<T>(s: seq<T>, i: nat)
    requires i <= |s|
    ensures i < |s| ==> s[..i + 1] == s[..i] + [s[i]]
    ensures s[..|s|] == s
  {
  }

  lemma UnnamedAt(data: seq<Entry>, i: nat)
    requires i < |data| && data[i].paperName.None?
    ensures !Named(data)
  {
    assert data[i] in data;
  }

  /**
   * read_google_results: one pass over the records, creating a year's
   * bucket on first sight and appending the url, the sanitised name and the
   * metadata. A record without a paper name makes the whole call raise;
   * Failure carries the position of the first such record.
   */
  method ReadGoogleResults(data: seq<Entry>) returns (r: Result<YearGroups, nat>)
    ensures r.Failure? <==> !Named(data)
    ensures r.Failure? ==> r.error < |data| && data[r.error].paperName.None? && Named(data[..r.error])
    ensures r.Success? ==> Named(data) && IsGrouping(data, r.value) && r.value.Valid()
  {
    var keys: seq<string> := [];
    var buckets: map<string, YearBucket> := map[];
    ghost var seen: seq<Entry> := [];
    for i := 0 to |data|
      invariant seen == data[..i]
      invariant IsGrouping(seen, YearGroups(keys, buckets))
    {
      var entry := data[i];
      if entry.paperName.None? {
        UnnamedAt(data, i);
        return Failure(i);
      }
      ghost var before := YearGroups(keys, buckets);
      var year := YearKey(entry);
      var b := EmptyBucket;
      if year in buckets {
        b := buckets[year];
      } else {
        keys := keys + [year];
      }
      var name := SanitizedName(entry.paperName.value);
      buckets := buckets[year := YearBucket(b.urls + [entry.url], b.names + [name], b.metadata + [MetadataOf(entry)])];
      GroupingStep(seen, entry, before);
      PrefixSnoc(data, i);
      seen := seen + [entry];
    }
    PrefixSnoc(data, |data|);
    return Success(YearGroups(keys, buckets));
  }

  // ---------------------------------------------------------------------
  // What a grouping guarantees
  // ---------------------------------------------------------------------

  /**
   * The three lists of a bucket have one element per record, and element t
   * of each comes from the same record, whose year is the bucket's key.
   */
  lemma {:induction false} BucketsParallel(data: seq<Entry>, g: YearGroups, k: string)
    requires Named(data) && IsGrouping(data, g) && k in g.buckets
    ensures |g.buckets[k].urls| == |g.buckets[k].names| == |g.buckets[k].metadata|
    ensures forall t :: 0 <= t < |g.buckets[k].metadata| ==>
      && g.buckets[k].urls[t] == g.buckets[k].metadata[t].url
      && g.buckets[k].names[t] == SanitizedName(g.buckets[k].metadata[t].paperName)
      && g.buckets[k].metadata[t].year == k
  {
    var es := Filter(data, YearKey, k);
    forall t | 0 <= t < |es|
      ensures YearKey(es[t]) == k
    {
      FilterMembership(data, YearKey, k, es[t]);
    }
  }

  /**
   * Bucket k holds, in input order, the records whose year key is k: entry t
   * is the record at the t-th position of that year.
   */
  lemma BucketsKeepOrder(data: seq<Entry>, g: YearGroups, k: string)
    requires Named(data) && IsGrouping(data, g) && k in g.buckets
    ensures var ps := PositionsFrom(data, YearKey, k, 0);
      && |g.buckets[k].metadata| == |ps|
      && forall t :: 0 <= t < |ps| ==> g.buckets[k].metadata[t] == MetadataOf(data[ps[t]])
  {
    var es := Filter(data, YearKey, k);
    FilterPositions(data, YearKey, k);
    BucketMetadata(es, g.buckets[k]);
  }

  lemma BucketMetadata(es: seq<Entry>, b: YearBucket)
    requires Named(es) && b == BucketOf(es)
    ensures |b.metadata| == |es|
    ensures forall t :: 0 <= t < |es| ==> b.metadata[t] == MetadataOf(es[t])
  {
  }

  /** Every record lands in the bucket of its own year key and in no other. */
  lemma EachRecordInOneBucket(data: seq<Entry>, g: YearGroups, i: nat)
    requires Named(data) && IsGrouping(data, g) && i < |data|
    ensures YearKey(data[i]) in g.buckets
    ensures MetadataOf(data[i]) in g.buckets[YearKey(data[i])].metadata
    ensures forall k :: k in g.buckets && MetadataOf(data[i]) in g.buckets[k].metadata ==> k == YearKey(data[i])
  {
    var k := YearKey(data[i]);
    assert data[i] in data;
    FilterMembership(data, YearKey, k, data[i]);
    var es := Filter(data, YearKey, k);
    var t :| 0 <= t < |es| && es[t] == data[i];
    assert g.buckets[k].metadata[t] == MetadataOf(data[i]);
    forall k' | k' in g.buckets && MetadataOf(data[i]) in g.buckets[k'].metadata
      ensures k' == k
    {
      BucketsParallel(data, g, k');
    }
  }

  /** The number of urls in one bucket. */
  function UrlCount(b: YearBucket): nat {
    |b.urls|
  }

  lemma {:induction false} BucketSizesAreGroupSizes(data: seq<Entry>, g: YearGroups, ks: seq<string>)
    requires Named(data) && IsGrouping(data, g)
    requires forall k :: k in ks ==> k in g.buckets
    ensures SumOver(g.buckets, UrlCount, ks) == TotalSize(data, YearKey, ks)
    decreases |ks|
  {
    if ks != [] {
      BucketSizesAreGroupSizes(data, g, ks[1..]);
    }
  }

  /** The buckets partition the records: their sizes add up to the number of records. */
  lemma GroupingIsPartition(data: seq<Entry>, g: YearGroups)
    requires Named(data) && IsGrouping(data, g)
    ensures SumOver(g.buckets, UrlCount, g.keys) == |data|
  {
    BucketSizesAreGroupSizes(data, g, g.keys);
    GroupsPartition(data, YearKey);
  }

  /**
   * The buckets are visited (dict order) by first occurrence: a year listed
   * earlier has a record before every record of a year listed later.
   */
  lemma YearsInFirstOccurrenceOrder(data: seq<Entry>, g: YearGroups, j1: nat, j2: nat, i: nat)
    requires Named(data) && IsGrouping(data, g)
    requires j1 < j2 < |g.keys| && i < |data| && YearKey(data[i]) == g.keys[j2]
    ensures exists i' :: 0 <= i' < i && YearKey(data[i']) == g.keys[j1]
  {
    KeysFirstOccurrence(data, YearKey, j1, j2, i);
  }

  // ---------------------------------------------------------------------
  // The not_found ledger (download_from_scihub, download_papers_by_year)
  // ---------------------------------------------------------------------

  /** What the browser did for one item, as download_from_scihub observes it. */
  datatype Attempt =
    | NavigationFailed           // driver.get raised; it sits outside the try
    | ButtonMissing              // find_element or click raised inside the try
    | Clicked(renameOk: bool)    // the button was clicked; renameOk: the newest-file rename would succeed

  /** The fate of one item: saved, recorded as not found, or an exception leaving the call. */
  datatype Step = Saved | Missed | Raised

  /** The guard of the rename: `file_names and i < len(file_names)`. */
  predicate RenameAttempted(fileNames: seq<string>, i: nat) {
    |fileNames| > 0 && i < |fileNames|
  }

  /** One call of download_from_scihub; `attempt(dir, i)` is the browser's answer for item i of dir. */
  datatype Call = Call(urls: seq<Option<string>>, dir: string, fileNames: seq<string>,
                       metadata: seq<Metadata>, attempt: (string, nat) -> Attempt)

  /**
   * Item i fails when the button is missing, or when a rename is attempted
   * and fails; recording the failure reads paper_metadata[i], which raises
   * an IndexError when the metadata list is too short.
   */
  function StepAt(c: Call, i: nat): (st: Step)
    ensures st == Missed ==> i < |c.metadata|
    ensures c.attempt(c.dir, i).Clicked? && !RenameAttempted(c.fileNames, i) ==> st == Saved
  {
    match c.attempt(c.dir, i)
    case NavigationFailed => Raised
    case ButtonMissing => if i < |c.metadata| then Missed else Raised
    case Clicked(renameOk) =>
      if !RenameAttempted(c.fileNames, i) || renameOk then Saved
      else if i < |c.metadata| then Missed else Raised
  }

  /** How many of the first n items run before an exception leaves the call (n if none does). */
  function StopIndex(c: Call, n: nat): (stop: nat)
    ensures stop <= n
  {
    if n == 0 then 0
    else
      var p := StopIndex(c, n - 1);
      if p < n - 1 then p
      else if StepAt(c, n - 1) == Raised then n - 1
      else n
  }

  /**
   * No step before the stop raises, and the step at the stop, if any, does:
   * once an item raises, later items no longer move the stop index.
   */
  lemma {:induction false} StopIndexMeaning(c: Call, n: nat)
    ensures forall j :: 0 <= j < StopIndex(c, n) ==> StepAt(c, j) != Raised
    ensures StopIndex(c, n) < n ==> StepAt(c, StopIndex(c, n)) == Raised
  {
    if n > 0 {
      StopIndexMeaning(c, n - 1);
    }
  }

  lemma {:induction false} StopIndexStable(c: Call, i: nat, n: nat)
    requires i < n && StopIndex(c, i) == i && StepAt(c, i) == Raised
    ensures StopIndex(c, n) == i
  {
    if n > i + 1 {
      StopIndexStable(c, i, n - 1);
    }
  }

  /** The metadata the first n items append to not_found, in processing order. */
  function Misses(c: Call, n: nat): seq<Metadata>
  {
    if n == 0 then []
    else Misses(c, n - 1) + (if StepAt(c, n - 1) == Missed then [c.metadata[n - 1]] else [])
  }

  /** The positions among the first n items whose step is Missed, ascending. */
  function MissedIndices(c: Call, n: nat): (ps: seq<nat>)
    ensures forall t :: 0 <= t < |ps| ==> ps[t] < n && StepAt(c, ps[t]) == Missed
    ensures forall t1, t2 :: 0 <= t1 < t2 < |ps| ==> ps[t1] < ps[t2]
    ensures forall j :: 0 <= j < n && StepAt(c, j) == Missed ==> j in ps
  {
    if n == 0 then []
    else MissedIndices(c, n - 1) + (if StepAt(c, n - 1) == Missed then [n - 1] else [])
  }

  /**
   * The ledger grows by exactly paper_metadata[j] for each failed item j, once
   * per item and in processing order.
   */
  lemma {:induction false} MissesAreFailedItems(c: Call, n: nat)
    ensures |Misses(c, n)| == |MissedIndices(c, n)|
    ensures forall t :: 0 <= t < |MissedIndices(c, n)| ==>
      MissedIndices(c, n)[t] < |c.metadata| && Misses(c, n)[t] == c.metadata[MissedIndices(c, n)[t]]
  {
    if n > 0 {
      MissesAreFailedItems(c, n - 1);
    }
  }

  /** No retry: at most one ledger entry per item. */
  lemma {:induction false} MissesBound(c: Call, n: nat)
    ensures |Misses(c, n)| <= n
  {
    if n > 0 {
      MissesBound(c, n - 1);
    }
  }

  /** The not_found list shared by every call of one run. */
  class FailureLedger {
    var entries: seq<Metadata>

    constructor ()
      ensures entries == []
    {
      entries := [];
    }

    method Append(m: Metadata)
      modifies this
      ensures entries == old(entries) + [m]
    {
      entries := entries + [m];
    }
  }

  /**
   * download_from_scihub: one attempt per url, in order. The ledger receives
   * the metadata of every failed item up to the first exception; `raised`
   * tells whether an exception left the call.
   */
  method DownloadFromSciHub(urls: seq<Option<string>>, downloadDir: string, fileNames: seq<string>,
                            metadata: seq<Metadata>, attempt: (string, nat) -> Attempt,
                            notFound: FailureLedger)
    returns (raised: bool)
    modifies notFound
    ensures var c := Call(urls, downloadDir, fileNames, metadata, attempt);
      && (raised <==> StopIndex(c, |urls|) < |urls|)
      && notFound.entries == old(notFound.entries) + Misses(c, StopIndex(c, |urls|))
  {
    ghost var c := Call(urls, downloadDir, fileNames, metadata, attempt);
    for i := 0 to |urls|
      invariant StopIndex(c, i) == i
      invariant notFound.entries == old(notFound.entries) + Misses(c, i)
    {
      var outcome := attempt(downloadDir, i);
      if outcome.NavigationFailed? {
        StopIndexStable(c, i, |urls|);
        return true;
      }
      var failed := outcome.ButtonMissing? || (RenameAttempted(fileNames, i) && !outcome.renameOk);
      if failed {
        if i >= |metadata| {
          StopIndexStable(c, i, |urls|);
          return true;
        }
        notFound.Append(metadata[i]);
      }
    }
    return false;
  }

  /** Every ledger entry of a call is one of the call's metadata records. */
  lemma {:induction false} MissesFromMetadata(c: Call, n: nat)
    ensures forall m :: m in Misses(c, n) ==> m in c.metadata
  {
    if n > 0 {
      MissesFromMetadata(c, n - 1);
    }
  }

  /** os.path.join of two parts on POSIX: an absolute second part replaces the first. */
  function PathJoin(base: string, part: string): (p: string)
    ensures |part| <= |p| && p[|p| - |part|..] == part
    ensures |part| > 0 && part[0] == '/' ==> p == part
  {
    if |part| > 0 && part[0] == '/' then part
    else if base == [] || base[|base| - 1] == '/' then base + part
    else base + "/" + part
  }

  /**
   * A relative part is appended to the base, with one "/" between them unless
   * the base is empty or already ends in "/".
   */
  lemma PathJoinMeaning(base: string, part: string)
    requires !(|part| > 0 && part[0] == '/')
    ensures var p := PathJoin(base, part);
      && p[..|base|] == base
      && p[|p| - |part|..] == part
      && (|p| == |base| + |part| <==> base == [] || base[|base| - 1] == '/')
      && (|p| != |base| + |part| ==> |p| == |base| + 1 + |part| && p[|base|] == '/')
  {
  }

  /** The ledger so far and whether an exception has ended the year loop. */
  datatype RunState = RunState(ledger: seq<Metadata>, aborted: bool)

  /** One run of download_papers_by_year: the groups, the base directory and the two oracles. */
  datatype Run = Run(g: YearGroups, base: string, makeDirOk: string -> bool, attempt: (string, nat) -> Attempt)

  function YearCall(r: Run, year: string): Call
    requires year in r.g.buckets
  {
    var b := r.g.buckets[year];
    Call(b.urls, PathJoin(r.base, year), b.names, b.metadata, r.attempt)
  }

  /** One year's iteration: os.makedirs, then the call on the year's lists. */
  function YearOutcome(r: Run, year: string): (st: RunState)
    requires year in r.g.buckets
    ensures |st.ledger| <= |r.g.buckets[year].urls|
    ensures forall m :: m in st.ledger ==> m in r.g.buckets[year].metadata
  {
    if !r.makeDirOk(PathJoin(r.base, year)) then RunState([], true)
    else
      var c := YearCall(r, year);
      var stop := StopIndex(c, |c.urls|);
      MissesBound(c, stop);
      MissesFromMetadata(c, stop);
      RunState(Misses(c, stop), stop < |c.urls|)
  }

  /**
   * The state after the first y keys, given what each key's iteration
   * yields: an abort skips the remaining keys.
   */
  function Fold(keys: seq<string>, outcome: string -> RunState, y: nat): RunState
    requires y <= |keys|
  {
    if y == 0 then RunState([], false)
    else
      var p := Fold(keys, outcome, y - 1);
      if p.aborted then p
      else
        var o := outcome(keys[y - 1]);
        RunState(p.ledger + o.ledger, o.aborted)
  }

  /** What one year's iteration yields in run r. */
  function Outcome(r: Run): string -> RunState
  {
    year => if year in r.g.buckets then YearOutcome(r, year) else RunState([], true)
  }

  /** The state after the first y years of the dict order. */
  function RunYears(r: Run, y: nat): RunState
    requires y <= |r.g.keys|
  {
    Fold(r.g.keys, Outcome(r), y)
  }

  /** One more year after a run that has not aborted. */
  lemma RunYearsStep(r: Run, y: nat)
    requires y < |r.g.keys| && r.g.keys[y] in r.g.buckets && !RunYears(r, y).aborted
    ensures var o := YearOutcome(r, r.g.keys[y]);
      RunYears(r, y + 1) == RunState(RunYears(r, y).ledger + o.ledger, o.aborted)
  {
  }

  /** After an abort nothing more is added: the ledger is final. */
  lemma {:induction false} FoldAfterAbort(keys: seq<string>, outcome: string -> RunState, y: nat, n: nat)
    requires y <= n <= |keys|
    requires Fold(keys, outcome, y).aborted
    ensures Fold(keys, outcome, n) == Fold(keys, outcome, y)
  {
    if n > y {
      FoldAfterAbort(keys, outcome, y, n - 1);
    }
  }

  lemma RunYearsAfterAbort(r: Run, y: nat, n: nat)
    requires y <= n <= |r.g.keys|
    requires RunYears(r, y).aborted
    ensures RunYears(r, n) == RunYears(r, y)
  {
    FoldAfterAbort(r.g.keys, Outcome(r), y, n);
  }

  lemma OutcomeBound(r: Run, k: string)
    requires k in r.g.buckets
    ensures |Outcome(r)(k).ledger| <= |r.g.buckets[k].urls|
  {
    var o := YearOutcome(r, k);
  }

  /** The entries the first y keys' iterations yield, counted. */
  function OutcomeSizes(keys: seq<string>, outcome: string -> RunState, y: nat): nat
    requires y <= |keys|
  {
    if y == 0 then 0 else OutcomeSizes(keys, outcome, y - 1) + |outcome(keys[y - 1]).ledger|
  }

  lemma {:induction false} FoldBound(keys: seq<string>, outcome: string -> RunState, y: nat)
    requires y <= |keys|
    ensures |Fold(keys, outcome, y).ledger| <= OutcomeSizes(keys, outcome, y)
  {
    if y > 0 {
      FoldBound(keys, outcome, y - 1);
    }
  }

  /** Every key's iteration yields at most as many entries as the key has urls. */
  ghost predicate OutcomesWithinBuckets(g: YearGroups, outcome: string -> RunState) {
    forall k :: k in g.buckets ==> |outcome(k).ledger| <= |g.buckets[k].urls|
  }

  lemma OutcomeWithinBuckets(r: Run)
    ensures OutcomesWithinBuckets(r.g, Outcome(r))
  {
    forall k | k in r.g.buckets
      ensures |Outcome(r)(k).ledger| <= |r.g.buckets[k].urls|
    {
      OutcomeBound(r, k);
    }
  }

  lemma {:induction false} OutcomeSizesBound(g: YearGroups, outcome: string -> RunState, y: nat)
    requires g.Valid() && y <= |g.keys| && OutcomesWithinBuckets(g, outcome)
    ensures OutcomeSizes(g.keys, outcome, y) <= SumOver(g.buckets, UrlCount, g.keys[..y])
  {
    if y > 0 {
      OutcomeSizesBound(g, outcome, y - 1);
      var k := g.keys[y - 1];
      assert k in g.buckets;
      assert g.keys[..y] == g.keys[..y - 1] + [k];
      SumOverAppend(g.buckets, UrlCount, g.keys[..y - 1], k);
    }
  }

  /** Each year adds at most one entry per url of that year. */
  lemma RunYearsBound(r: Run, y: nat)
    requires r.g.Valid() && y <= |r.g.keys|
    ensures |RunYears(r, y).ledger| <= SumOver(r.g.buckets, UrlCount, r.g.keys[..y])
  {
    FoldBound(r.g.keys, Outcome(r), y);
    OutcomeWithinBuckets(r);
    OutcomeSizesBound(r.g, Outcome(r), y);
  }

  /** Every metadata record carries the key of the bucket it sits in. */
  ghost predicate Tagged(g: YearGroups) {
    forall k, m :: k in g.buckets && m in g.buckets[k].metadata ==> m.year == k
  }

  lemma GroupingIsTagged(data: seq<Entry>, g: YearGroups)
    requires Named(data) && IsGrouping(data, g)
    ensures Tagged(g)
  {
    forall k, m | k in g.buckets && m in g.buckets[k].metadata
      ensures m.year == k
    {
      BucketsParallel(data, g, k);
    }
  }

  /** What a key's iteration adds carries that key. */
  ghost predicate OutcomesTagged(keys: seq<string>, outcome: string -> RunState) {
    forall i, m :: 0 <= i < |keys| && m in outcome(keys[i]).ledger ==> m.year == keys[i]
  }

  lemma OutcomeTagged(r: Run)
    requires r.g.Valid() && Tagged(r.g)
    ensures OutcomesTagged(r.g.keys, Outcome(r))
  {
    forall i, m | 0 <= i < |r.g.keys| && m in Outcome(r)(r.g.keys[i]).ledger
      ensures m.year == r.g.keys[i]
    {
      var k := r.g.keys[i];
      assert k in r.g.buckets;
      assert m in r.g.buckets[k].metadata;
    }
  }

  /** The ledger after y keys holds only records of those keys. */
  lemma {:induction false} FoldVisitedOnly(keys: seq<string>, outcome: string -> RunState, y: nat)
    requires y <= |keys| && OutcomesTagged(keys, outcome)
    ensures forall m :: m in Fold(keys, outcome, y).ledger ==> m.year in keys[..y]
  {
    if y > 0 {
      FoldVisitedOnly(keys, outcome, y - 1);
      var p := Fold(keys, outcome, y - 1);
      forall m | m in Fold(keys, outcome, y).ledger
        ensures m.year in keys[..y]
      {
        if m in p.ledger {
          assert m.year in keys[..y - 1];
        } else {
          assert m in outcome(keys[y - 1]).ledger;
          assert keys[..y][y - 1] == keys[y - 1];
        }
      }
    }
  }

  /** The ledger after y years holds only records of those years. */
  lemma RunYearsVisitedOnly(r: Run, y: nat)
    requires r.g.Valid() && Tagged(r.g) && y <= |r.g.keys|
    ensures forall m :: m in RunYears(r, y).ledger ==> m.year in r.g.keys[..y]
  {
    OutcomeTagged(r);
    FoldVisitedOnly(r.g.keys, Outcome(r), y);
  }

  /**
   * If an exception ends the loop in year y, the file written in `finally`
   * holds only records whose year is among the first y + 1 keys: nothing for
   * the years not yet attempted.
   */
  lemma AbortKeepsProcessedOnly(data: seq<Entry>, r: Run, y: nat)
    requires Named(data) && IsGrouping(data, r.g) && r.g.Valid()
    requires y < |r.g.keys| && RunYears(r, y + 1).aborted
    ensures forall m :: m in RunYears(r, |r.g.keys|).ledger ==> m.year in r.g.keys[..y + 1]
  {
    RunYearsAfterAbort(r, y + 1, |r.g.keys|);
    GroupingIsTagged(data, r.g);
    RunYearsVisitedOnly(r, y + 1);
  }

  /** Over a whole run, the ledger never holds more entries than there are records. */
  lemma LedgerAtMostRecords(data: seq<Entry>, r: Run)
    requires Named(data) && IsGrouping(data, r.g) && r.g.Valid()
    ensures |RunYears(r, |r.g.keys|).ledger| <= |data|
  {
    LedgerWithinBuckets(r);
    GroupingIsPartition(data, r.g);
  }

  /** Over a whole run, the ledger never holds more entries than all the buckets together. */
  lemma LedgerWithinBuckets(r: Run)
    requires r.g.Valid()
    ensures |RunYears(r, |r.g.keys|).ledger| <= SumOver(r.g.buckets, UrlCount, r.g.keys)
  {
    RunYearsBound(r, |r.g.keys|);
    assert r.g.keys[..|r.g.keys|] == r.g.keys;
  }

  /** A year whose directory cannot be made ends the loop with the ledger unchanged. */
  lemma RunYearsDirFailed(r: Run, y: nat, entries: seq<Metadata>)
    requires r.g.Valid() && y < |r.g.keys| && RunYears(r, y) == RunState(entries, false)
    requires !r.makeDirOk(PathJoin(r.base, r.g.keys[y]))
    ensures RunYears(r, y + 1) == RunState(entries, true)
  {
    RunYearsStep(r, y);
  }

  /**
   * A year whose directory was made adds what download_from_scihub appended
   * and ends the loop exactly when that call raised.
   */
  lemma RunYearsDownloaded(r: Run, y: nat, c: Call, before: seq<Metadata>, after: seq<Metadata>, raised: bool)
    requires r.g.Valid() && y < |r.g.keys| && RunYears(r, y) == RunState(before, false)
    requires r.makeDirOk(PathJoin(r.base, r.g.keys[y]))
    requires r.g.keys[y] in r.g.buckets && c == YearCall(r, r.g.keys[y])
    requires raised <==> StopIndex(c, |c.urls|) < |c.urls|
    requires after == before + Misses(c, StopIndex(c, |c.urls|))
    ensures RunYears(r, y + 1) == RunState(after, raised)
  {
    RunYearsStep(r, y);
  }

  /**
   * One iteration of the year loop: make the year's directory, then run
   * download_from_scihub on the year's lists; `aborted` tells whether an
   * exception left the iteration.
   */
  method DownloadYear(g: YearGroups, base: string, makeDirOk: string -> bool, attempt: (string, nat) -> Attempt,
                      y: nat, notFound: FailureLedger)
    returns (aborted: bool)
    requires g.Valid() && y < |g.keys|
    requires RunYears(Run(g, base, makeDirOk, attempt), y) == RunState(notFound.entries, false)
    modifies notFound
    ensures RunYears(Run(g, base, makeDirOk, attempt), y + 1) == RunState(notFound.entries, aborted)
  {
    ghost var r := Run(g, base, makeDirOk, attempt);
    var year := g.keys[y];
    var yearDir := PathJoin(base, year);
    if !makeDirOk(yearDir) {
      RunYearsDirFailed(r, y, notFound.entries);
      aborted := true;
    } else {
      var bucket := g.buckets[year];
      ghost var c := Call(bucket.urls, yearDir, bucket.names, bucket.metadata, attempt);
      ghost var before := notFound.entries;
      aborted := DownloadFromSciHub(bucket.urls, yearDir, bucket.names, bucket.metadata, attempt, notFound);
      RunYearsDownloaded(r, y, c, before, notFound.entries, aborted);
    }
  }

  /**
   * download_papers_by_year: the driver is created before the try, so if that
   * fails nothing is written (None). Otherwise the not_found list written in
   * `finally` is empty when the Sci-Hub home page or the captcha pause
   * raised, and else the ledger of the years visited in dict order until the
   * first exception.
   */
  method DownloadPapersByYear(g: YearGroups, base: string, driverOk: bool, homeOk: bool,
                              makeDirOk: string -> bool, attempt: (string, nat) -> Attempt)
    returns (written: Option<seq<Metadata>>)
    requires g.Valid()
    ensures !driverOk ==> written == None
    ensures driverOk && !homeOk ==> written == Some([])
    ensures driverOk && homeOk ==>
      written == Some(RunYears(Run(g, base, makeDirOk, attempt), |g.keys|).ledger)
  {
    if !driverOk {
      return None;
    }
    ghost var r := Run(g, base, makeDirOk, attempt);
    var notFound := new FailureLedger();
    if homeOk {
      var y := 0;
      var aborted := false;
      while y < |g.keys| && !aborted
        invariant y <= |g.keys|
        invariant RunYears(r, y) == RunState(notFound.entries, aborted)
      {
        aborted := DownloadYear(g, base, makeDirOk, attempt, y, notFound);
        y := y + 1;
      }
      if aborted {
        RunYearsAfterAbort(r, y, |g.keys|);
      } else {
        assert y == |g.keys|;
      }
    }
    return Some(notFound.entries);
  }
}
