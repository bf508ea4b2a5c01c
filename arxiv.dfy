/**
 * arxiv_downloader.py: the arXiv ids listed in results.json are grouped by
 * the month their number starts with ("2301" for "arXiv:2301.01234"); then,
 * month by month in ascending order, a directory named after the month is
 * made and the `paper` tool is run on that month's ids.
 */
module Arxiv {
  import opened Wrappers
  import opened Text
  import opened Grouping

  // ---------------------------------------------------------------------
  // Python's str < : lexicographic order on code points
  // ---------------------------------------------------------------------

  predicate LexLess(a: string, b: string)
    decreases |a|
  {
    if a == [] then b != []
    else if b == [] then false
    else if a[0] != b[0] then a[0] < b[0]
    else LexLess(a[1..], b[1..])
  }

  lemma {:induction false} LexLessIrreflexive(a: string)
    ensures !LexLess(a, a)
    decreases |a|
  {
    if a != [] {
      LexLessIrreflexive(a[1..]);
    }
  }

  lemma {:induction false} LexLessTransitive(a: string, b: string, c: string)
    requires LexLess(a, b) && LexLess(b, c)
    ensures LexLess(a, c)
    decreases |a|
  {
    if a != [] && b != [] && c != [] && a[0] == b[0] && b[0] == c[0] {
      LexLessTransitive(a[1..], b[1..], c[1..]);
    }
  }

  lemma {:induction false} LexLessTotal(a: string, b: string)
    requires a != b
    ensures LexLess(a, b) || LexLess(b, a)
    decreases |a|
  {
    if a != [] && b != [] && a[0] == b[0] {
      assert a == [a[0]] + a[1..] && b == [b[0]] + b[1..];
      LexLessTotal(a[1..], b[1..]);
    }
  }

  predicate StrictlyAscending(ks: seq<string>) {
    forall i, j :: 0 <= i < j < |ks| ==> LexLess(ks[i], ks[j])
  }

  lemma AscendingCons(y: string, r: seq<string>)
    requires StrictlyAscending(r)
    requires r == [] || LexLess(y, r[0])
    ensures StrictlyAscending([y] + r)
  {
    var s := [y] + r;
    forall i, j | 0 <= i < j < |s|
      ensures LexLess(s[i], s[j])
    {
      if i == 0 && j > 1 {
        LexLessTransitive(y, r[0], r[j - 1]);
      }
    }
  }

  lemma AscendingDistinct(ks: seq<string>)
    requires StrictlyAscending(ks)
    ensures Distinct(ks)
  {
    forall i, j | 0 <= i < j < |ks|
      ensures ks[i] != ks[j]
    {
      LexLessIrreflexive(ks[i]);
    }
  }

  /** Put x into its place in an ascending list that does not hold it. */
  function InsertKey(x: string, ks: seq<string>): (r: seq<string>)
    requires StrictlyAscending(ks) && x !in ks
    ensures StrictlyAscending(r)
    ensures |r| == |ks| + 1
    ensures forall y :: y in r <==> y == x || y in ks
    ensures r[0] == x || (ks != [] && r[0] == ks[0])
  {
    if ks == [] || LexLess(x, ks[0]) then
      AscendingCons(x, ks);
      [x] + ks
    else
      LexLessTotal(x, ks[0]);
      var rest := InsertKey(x, ks[1..]);
      AscendingCons(ks[0], rest);
      assert ks == [ks[0]] + ks[1..];
      [ks[0]] + rest
  }

  /** sorted() of distinct month keys. */
  function SortKeys(ks: seq<string>): (r: seq<string>)
    requires Distinct(ks)
    ensures StrictlyAscending(r)
    ensures |r| == |ks|
    ensures forall k :: k in r <==> k in ks
  {
    if ks == [] then []
    else
      assert ks == [ks[0]] + ks[1..];
      InsertKey(ks[0], SortKeys(ks[1..]))
  }

  // ---------------------------------------------------------------------
  // Month keys
  // ---------------------------------------------------------------------

  /** What entry['arxiv_index'] may give: nothing (the key is missing) or a string. */
  type Entry = Option<string>

  /** An index the script can take apart: present and holding a ':'. */
  predicate IndexOk(e: Entry) {
    e.Some? && ':' in e.value
  }

  predicate WellFormed(data: seq<Entry>) {
    forall i :: 0 <= i < |data| ==> IndexOk(data[i])
  }

  /** arxiv_index.split(":")[1]: the text between the first and second ':'. */
  function IdOf(index: string): (id: string)
    requires ':' in index
    ensures ':' !in id
  {
    SplitHasSecond(index, ':');
    SplitPiecesWithout(index, ':');
    Split(index, ':')[1]
  }

  /** The pieces of a split never hold the separator. */
  lemma {:induction false} SplitPiecesWithout(s: string, sep: char)
    ensures forall i :: 0 <= i < |Split(s, sep)| ==> sep !in Split(s, sep)[i]
    decreases |s|
  {
    if s != [] {
      SplitPiecesWithout(s[1..], sep);
    }
  }

  /** [:4] of an id: its first four characters, or all of it when shorter. */
  function MonthKey(id: string): (k: string)
    ensures k <= id
    ensures |k| == if |id| < 4 then |id| else 4
  {
    if |id| <= 4 then id else id[..4]
  }

  /** The ids of well-formed entries, in input order. */
  function Ids(data: seq<Entry>): (ids: seq<string>)
    requires WellFormed(data)
    ensures |ids| == |data|
    ensures forall i :: 0 <= i < |data| ==> ids[i] == IdOf(data[i].value)
  {
    if data == [] then []
    else Ids(data[..|data| - 1]) + [IdOf(data[|data| - 1].value)]
  }

  // ---------------------------------------------------------------------
  // month_indices
  // ---------------------------------------------------------------------

  /** month_indices: its keys in insertion order, and the list under each. */
  datatype MonthIndices = MonthIndices(keys: seq<string>, buckets: map<string, seq<string>>)
  {
    predicate Valid() {
      && Distinct(keys)
      && (forall k :: k in buckets ==> k in keys)
      && (forall k :: k in keys ==> k in buckets)
    }
  }

  /** g is what the first loop builds from ids: one bucket per month, each the month's ids in order. */
  predicate IsMonthGrouping(ids: seq<string>, g: MonthIndices) {
    && g.keys == KeysInOrder(ids, MonthKey)
    && (forall k :: k in g.buckets ==> k in g.keys)
    && (forall k :: k in g.keys ==> k in g.buckets)
    && (forall k :: k in g.buckets ==> g.buckets[k] == Filter(ids, MonthKey, k))
  }

  datatype ArxivError = MissingIndex(at: nat) | NoColon(at: nat)

  /** One pass of the first loop's body. */
  function AddId(g: MonthIndices, id: string): MonthIndices {
    var k := MonthKey(id);
    if k in g.buckets then MonthIndices(g.keys, g.buckets[k := g.buckets[k] + [id]])
    else MonthIndices(g.keys + [k], g.buckets[k := [id]])
  }

  lemma GroupingStep(ids: seq<string>, id: string, g: MonthIndices)
    requires IsMonthGrouping(ids, g)
    ensures IsMonthGrouping(ids + [id], AddId(g, id))
  {
    var k := MonthKey(id);
    KeysInOrderStep(ids, id, MonthKey);
    var g' := AddId(g, id);
    forall k' | k' in g'.buckets
      ensures g'.buckets[k'] == Filter(ids + [id], MonthKey, k')
    {
      FilterStep(ids, id, MonthKey, k');
      if k' == k && k !in g.buckets {
        FilterOutsideKeys(ids, MonthKey, k);
      }
    }
  }

  lemma IdsStep(data: seq<Entry>, i: nat)
    requires i < |data| && WellFormed(data[..i]) && IndexOk(data[i])
    ensures WellFormed(data[..i + 1])
    ensures Ids(data[..i + 1]) == Ids(data[..i]) + [IdOf(data[i].value)]
  {
    assert data[..i + 1][..i] == data[..i];
  }

  lemma NotWellFormedAt(data: seq<Entry>, i: nat)
    requires i < |data| && !IndexOk(data[i])
    ensures !WellFormed(data)
  {
  }

  /**
   * The first loop: for each entry, split its index at ':', take the month
   * key and append the id to that month's list. The first entry without an
   * index raises KeyError and the first index without ':' raises IndexError;
   * either ends the script before any command runs.
   */
  method GroupByMonth(data: seq<Entry>) returns (r: Result<MonthIndices, ArxivError>)
    ensures r.Failure? <==> !WellFormed(data)
    ensures r.Failure? ==>
      var i := r.error.at;
      && i < |data| && !IndexOk(data[i]) && WellFormed(data[..i])
      && (r.error.MissingIndex? <==> data[i].None?)
    ensures r.Success? ==> WellFormed(data) && IsMonthGrouping(Ids(data), r.value) && r.value.Valid()
  {
    var g := MonthIndices([], map[]);
    for i := 0 to |data|
      invariant WellFormed(data[..i])
      invariant IsMonthGrouping(Ids(data[..i]), g)
    {
      var e := data[i];
      if e.None? {
        NotWellFormedAt(data, i);
        return Failure(MissingIndex(i));
      }
      if ':' !in e.value {
        NotWellFormedAt(data, i);
        return Failure(NoColon(i));
      }
      var id := IdOf(e.value);
      GroupingStep(Ids(data[..i]), id, g);
      IdsStep(data, i);
      g := AddId(g, id);
    }
    assert data[..|data|] == data;
    return Success(g);
  }

  // ---------------------------------------------------------------------
  // What the grouping guarantees
  // ---------------------------------------------------------------------

  /** Every id stored under month k begins with k, and no month's list is empty. */
  lemma BucketIdsStartWithMonth(ids: seq<string>, g: MonthIndices, k: string)
    requires IsMonthGrouping(ids, g) && k in g.buckets
    ensures |g.buckets[k]| > 0
    ensures forall x :: x in g.buckets[k] ==> k <= x
  {
    var j :| 0 <= j < |ids| && MonthKey(ids[j]) == k;
    FilterMembership(ids, MonthKey, k, ids[j]);
    forall x | x in g.buckets[k]
      ensures k <= x
    {
      FilterMembership(ids, MonthKey, k, x);
    }
  }

  /** Each id lands in the bucket of its own month and in no other. */
  lemma EachIdInOneBucket(ids: seq<string>, g: MonthIndices, i: nat)
    requires IsMonthGrouping(ids, g) && i < |ids|
    ensures MonthKey(ids[i]) in g.buckets && ids[i] in g.buckets[MonthKey(ids[i])]
    ensures forall k :: k in g.buckets && ids[i] in g.buckets[k] ==> k == MonthKey(ids[i])
  {
    FilterMembership(ids, MonthKey, MonthKey(ids[i]), ids[i]);
    forall k | k in g.buckets && ids[i] in g.buckets[k]
      ensures k == MonthKey(ids[i])
    {
      FilterMembership(ids, MonthKey, k, ids[i]);
    }
  }

  /** Within a month, ids keep the order of the input: the t-th is the t-th id of that month. */
  lemma BucketKeepsOrder(ids: seq<string>, g: MonthIndices, k: string)
    requires IsMonthGrouping(ids, g) && k in g.buckets
    ensures var ps := PositionsFrom(ids, MonthKey, k, 0);
      |g.buckets[k]| == |ps| &&
      forall t :: 0 <= t < |ps| ==> g.buckets[k][t] == ids[ps[t]]
  {
    FilterKeepsOrder(ids, MonthKey, k, 0);
    assert ids[0..] == ids;
  }

  /** The number of ids under one month. */
  function IdCount(ids: seq<string>): nat {
    |ids|
  }

  lemma {:induction false} BucketSumIsTotalSize(ids: seq<string>, g: MonthIndices, ks: seq<string>)
    requires IsMonthGrouping(ids, g)
    requires forall k :: k in ks ==> k in g.buckets
    ensures SumOver(g.buckets, IdCount, ks) == TotalSize(ids, MonthKey, ks)
  {
    if ks != [] {
      BucketSumIsTotalSize(ids, g, ks[1..]);
    }
  }

  /** Over the months in sorted order, the lists hold exactly as many ids as there were entries. */
  lemma MonthGroupingIsPartition(data: seq<Entry>, g: MonthIndices)
    requires WellFormed(data) && IsMonthGrouping(Ids(data), g)
    ensures forall k :: k in SortKeys(g.keys) ==> k in g.buckets
    ensures SumOver(g.buckets, IdCount, SortKeys(g.keys)) == |data|
  {
    var ids := Ids(data);
    var ks := SortKeys(g.keys);
    AscendingDistinct(ks);
    BucketSumIsTotalSize(ids, g, ks);
    PartitionSize(ids, MonthKey, ks);
  }

  // ---------------------------------------------------------------------
  // The second loop: one `paper` command per month
  // ---------------------------------------------------------------------

  /** The effects of one pass: the directory made and the shell command run. */
  datatype Batch = Batch(outputDir: string, command: string)

  function Command(month: string, ids: seq<string>): string {
    "paper -d " + month + " " + Join(ids, ' ')
  }

  /** Split at spaces, the command is the tool, the flag, the month and then the ids, one word each. */
  lemma CommandWords(month: string, ids: seq<string>)
    requires ' ' !in month
    requires |ids| >= 1
    requires forall i :: 0 <= i < |ids| ==> ' ' !in ids[i]
    ensures Split(Command(month, ids), ' ') == ["paper", "-d", month] + ids
  {
    var joined := Join(ids, ' ');
    assert Command(month, ids) == "paper" + [' '] + ("-d" + [' '] + (month + [' '] + joined));
    SplitAtSeparator("paper", ' ', "-d" + [' '] + (month + [' '] + joined));
    SplitAtSeparator("-d", ' ', month + [' '] + joined);
    SplitAtSeparator(month, ' ', joined);
    SplitJoin(ids, ' ');
  }

  /**
   * for year_month, indices in sorted(month_indices.items()): make the
   * directory and run the command. The batches list what was done, in order.
   */
  method RunMonths(g: MonthIndices) returns (batches: seq<Batch>)
    requires g.Valid()
    ensures var ks := SortKeys(g.keys);
      && |batches| == |ks|
      && forall j :: 0 <= j < |ks| ==>
           ks[j] in g.buckets && batches[j] == Batch(ks[j], Command(ks[j], g.buckets[ks[j]]))
  {
    var ks := SortKeys(g.keys);
    batches := [];
    for j := 0 to |ks|
      invariant |batches| == j
      invariant forall j' :: 0 <= j' < j ==>
        ks[j'] in g.buckets && batches[j'] == Batch(ks[j'], Command(ks[j'], g.buckets[ks[j']]))
    {
      var month := ks[j];
      var outputDir := month;
      var command := "paper -d " + outputDir + " " + Join(g.buckets[month], ' ');
      batches := batches + [Batch(outputDir, command)];
    }
  }

  /**
   * The whole script on the parsed results.json: either it stops at the
   * first bad entry, or it runs one command per month, months ascending,
   * each naming the month's directory and listing that month's ids in input order.
   */
  method ArxivDownloader(data: seq<Entry>) returns (r: Result<seq<Batch>, ArxivError>)
    ensures r.Failure? <==> !WellFormed(data)
    ensures r.Failure? ==> r.error.at < |data| && !IndexOk(data[r.error.at]) && WellFormed(data[..r.error.at])
    ensures r.Success? ==>
      var ids := Ids(data);
      var ks := SortKeys(KeysInOrder(ids, MonthKey));
      && |r.value| == |ks|
      && (forall j :: 0 <= j < |ks| ==> r.value[j] == Batch(ks[j], Command(ks[j], Filter(ids, MonthKey, ks[j]))))
  {
    var grouped := GroupByMonth(data);
    if grouped.Failure? {
      return Failure(grouped.error);
    }
    var g := grouped.value;
    var batches := RunMonths(g);
    return Success(batches);
  }

  /** The months visited are exactly the months of the ids, each once, ascending. */
  lemma SortedMonthsAreMonths(ids: seq<string>)
    ensures var ks := SortKeys(KeysInOrder(ids, MonthKey));
      && StrictlyAscending(ks)
      && (forall i :: 0 <= i < |ids| ==> MonthKey(ids[i]) in ks)
      && (forall j :: 0 <= j < |ks| ==> exists i :: 0 <= i < |ids| && MonthKey(ids[i]) == ks[j])
  {
    var ks := SortKeys(KeysInOrder(ids, MonthKey));
    forall j | 0 <= j < |ks|
      ensures exists i :: 0 <= i < |ids| && MonthKey(ids[i]) == ks[j]
    {
      assert ks[j] in KeysInOrder(ids, MonthKey);
    }
  }
}
