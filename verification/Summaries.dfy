/** Size summaries of stored directories, and the window's histogram of them. */
module Summaries {
  import opened Counts
  import opened Leaderboards
  import opened Options
  import opened StoreModel
  import opened Words

  const REGULAR_CODE: nat := 1
  const HISTOGRAM_BUCKETS: nat := 44

  // -- One directory ----------------------------------------------------------------------------------

  /** A stored row as the summary reads it; values are absent where the validity bit is clear. */
  datatype SizedRow = SizedRow(kind: Option<nat>, size: Option<int>)

  predicate IsRegular(row: SizedRow) {
    row.kind == Some(REGULAR_CODE)
  }

  function SizeOf(row: SizedRow): nat {
    if row.size.Some? && row.size.value > 0 then row.size.value else 0
  }

  function BitCount(size: nat): nat {
    if size == 0 then 0 else 1 + BitCount(size / 2)
  }

  function SizeBucket(size: nat): (bucket: nat)
    ensures bucket < HISTOGRAM_BUCKETS
  {
    if BitCount(size) < HISTOGRAM_BUCKETS - 1 then BitCount(size) else HISTOGRAM_BUCKETS - 1
  }

  lemma {:induction false} BitCountCovers(size: nat)
    ensures size < PowerOf2(BitCount(size)) && (size > 0 ==> BitCount(size) > 0 && PowerOf2(BitCount(size) - 1) <= size)
  {
    if size > 0 {
      BitCountCovers(size / 2);
      if size / 2 > 0 { assert PowerOf2(BitCount(size / 2)) == 2 * PowerOf2(BitCount(size / 2) - 1); }
    }
  }

  lemma {:induction false} PowersGrow(m: nat, n: nat)
    requires m <= n
    ensures PowerOf2(m) <= PowerOf2(n)
    decreases n
  {
    if m < n { PowersGrow(m, n - 1); }
  }

  /** Bucket 0 is for empty files; a later one starts at its power of two, and only the last is open above. */
  lemma BucketCovers(size: nat)
    ensures var bucket := SizeBucket(size);
            && (bucket == 0 <==> size == 0)
            && (bucket > 0 ==> PowerOf2(bucket - 1) <= size)
            && (bucket < HISTOGRAM_BUCKETS - 1 ==> size < PowerOf2(bucket))
  {
    BitCountCovers(size);
    if size > 0 { PowersGrow(SizeBucket(size) - 1, BitCount(size) - 1); }
  }

  datatype Bin = Bin(count: nat, bytes: nat)

  /** A row of a directory. */
  datatype File = File(directory: nat, row: nat)

  datatype Summary = Summary(bytes: nat, largest: seq<Ranked<File>>, histogram: map<nat, Bin>)

  const NO_SUMMARY: Summary := Summary(0, [], map[])

  function AddToBin(histogram: map<nat, Bin>, bucket: nat, size: nat): map<nat, Bin> {
    var bin := if bucket in histogram then histogram[bucket] else Bin(0, 0);
    histogram[bucket := Bin(bin.count + 1, bin.bytes + size)]
  }

  function AddRow(s: Summary, r: SizedRow, file: File, limit: nat): Summary {
    if !IsRegular(r) then s
    else
      var size := SizeOf(r);
      Summary(s.bytes + size, NoteLargest(s.largest, Ranked(size, file), limit),
              AddToBin(s.histogram, SizeBucket(size), size))
  }

  function NextFile(file: File): File {
    File(file.directory, file.row + 1)
  }

  /** Walks the rows once; `file` is the first of them. */
  function Summarize(rows: seq<SizedRow>, file: File, limit: nat, s: Summary): Summary
    decreases |rows|
  {
    if rows == [] then s else Summarize(rows[1..], NextFile(file), limit, AddRow(s, rows[0], file, limit))
  }

  function RegularCount(rows: seq<SizedRow>): nat {
    if rows == [] then 0 else (if IsRegular(rows[0]) then 1 else 0) + RegularCount(rows[1..])
  }

  function RegularBytes(rows: seq<SizedRow>): nat {
    if rows == [] then 0 else (if IsRegular(rows[0]) then SizeOf(rows[0]) else 0) + RegularBytes(rows[1..])
  }

  /** The regular files that hold anything. */
  function NonEmpty(rows: seq<SizedRow>, file: File): multiset<Ranked<File>>
    decreases |rows|
  {
    if rows == [] then multiset{} else Offer(rows[0], file) + NonEmpty(rows[1..], NextFile(file))
  }

  function Offer(r: SizedRow, file: File): multiset<Ranked<File>> {
    if IsRegular(r) && SizeOf(r) > 0 then multiset{Ranked(SizeOf(r), file)} else multiset{}
  }

  function BinCounts(histogram: map<nat, Bin>): Counts<nat> {
    map bucket | bucket in histogram :: histogram[bucket].count
  }

  function BinBytes(histogram: map<nat, Bin>): Counts<nat> {
    map bucket | bucket in histogram :: histogram[bucket].bytes
  }

  lemma TotalUpdated(counts: Counts<nat>, key: nat, value: nat)
    ensures Total(counts[key := value]) + CountOf(counts, key) == Total(counts) + value
  {
    TotalWithout(counts, key);
    TotalWithout(counts[key := value], key);
    assert counts[key := value] - {key} == counts - {key};
  }

  lemma BinTotals(histogram: map<nat, Bin>, bucket: nat, size: nat)
    ensures Total(BinCounts(AddToBin(histogram, bucket, size))) == Total(BinCounts(histogram)) + 1
    ensures Total(BinBytes(AddToBin(histogram, bucket, size))) == Total(BinBytes(histogram)) + size
  {
    var bin := AddToBin(histogram, bucket, size)[bucket];
    assert BinCounts(AddToBin(histogram, bucket, size)) == BinCounts(histogram)[bucket := bin.count];
    assert BinBytes(AddToBin(histogram, bucket, size)) == BinBytes(histogram)[bucket := bin.bytes];
    TotalUpdated(BinCounts(histogram), bucket, bin.count);
    TotalUpdated(BinBytes(histogram), bucket, bin.bytes);
  }

  ghost predicate InBuckets(histogram: map<nat, Bin>) {
    forall bucket :: bucket in histogram ==> bucket < HISTOGRAM_BUCKETS
  }

  lemma {:induction false} SummarizeBytes(rows: seq<SizedRow>, file: File, limit: nat, s: Summary)
    requires InBuckets(s.histogram)
    ensures var r := Summarize(rows, file, limit, s);
            && r.bytes == s.bytes + RegularBytes(rows)
            && Total(BinCounts(r.histogram)) == Total(BinCounts(s.histogram)) + RegularCount(rows)
            && Total(BinBytes(r.histogram)) == Total(BinBytes(s.histogram)) + RegularBytes(rows)
            && InBuckets(r.histogram)
    decreases |rows|
  {
    if rows != [] {
      BinTotals(s.histogram, SizeBucket(SizeOf(rows[0])), SizeOf(rows[0]));
      SummarizeBytes(rows[1..], NextFile(file), limit, AddRow(s, rows[0], file, limit));
    }
  }

  lemma AddRowKeepsTop(s: Summary, r: SizedRow, file: File, limit: nat, offered: multiset<Ranked<File>>)
    requires IsLeaderboard(limit, offered, s.largest)
    ensures IsLeaderboard(limit, offered + Offer(r, file), AddRow(s, r, file, limit).largest)
  {
    if IsRegular(r) { NoteLargestKeepsTop(s.largest, Ranked(SizeOf(r), file), limit, offered); }
    assert offered + multiset{} == offered;
  }

  lemma {:induction false} SummarizeLargest(rows: seq<SizedRow>, file: File, limit: nat, s: Summary, offered: multiset<Ranked<File>>)
    requires IsLeaderboard(limit, offered, s.largest)
    ensures IsLeaderboard(limit, offered + NonEmpty(rows, file), Summarize(rows, file, limit, s).largest)
    decreases |rows|
  {
    if rows == [] {
      assert offered + NonEmpty(rows, file) == offered;
    } else {
      AddRowKeepsTop(s, rows[0], file, limit, offered);
      SummarizeLargest(rows[1..], NextFile(file), limit, AddRow(s, rows[0], file, limit), offered + Offer(rows[0], file));
      assert offered + Offer(rows[0], file) + NonEmpty(rows[1..], NextFile(file)) == offered + NonEmpty(rows, file);
    }
  }

  // -- Each bin for itself ----------------------------------------------------------------------------

  /** A regular file of a size from 2^(b - 1) up to 2^b; the first bin is for files without bytes, the last has no end. */
  predicate BelongsTo(r: SizedRow, bucket: nat) {
    && r.kind == Some(1)
    && (bucket == 0 ==> BytesOf(r) == 0) && (bucket > 0 ==> PowerOf2(bucket - 1) <= BytesOf(r))
    && (bucket < 43 ==> BytesOf(r) < PowerOf2(bucket))
  }

  /** An unknown size and one that is not positive count as none. */
  function BytesOf(r: SizedRow): nat {
    match r.size
    case Some(size) => if size > 0 then size else 0
    case None => 0
  }

  function RowsIn(rows: seq<SizedRow>, bucket: nat): nat {
    if rows == [] then 0 else RowsIn(rows[1..], bucket) + if BelongsTo(rows[0], bucket) then 1 else 0
  }

  function BytesIn(rows: seq<SizedRow>, bucket: nat): nat {
    if rows == [] then 0
    else BytesIn(rows[1..], bucket) + if BelongsTo(rows[0], bucket) then BytesOf(rows[0]) else 0
  }

  /** Two bins have no size in common. */
  lemma BelongsToItsBucket(r: SizedRow, bucket: nat)
    requires bucket < HISTOGRAM_BUCKETS
    ensures BelongsTo(r, bucket) <==> IsRegular(r) && bucket == SizeBucket(SizeOf(r))
    ensures BytesOf(r) == SizeOf(r)
  {
    var own := SizeBucket(SizeOf(r));
    BucketCovers(SizeOf(r));
    if bucket < own { PowersGrow(bucket, own - 1); }
    if own < bucket { PowersGrow(own, bucket - 1); }
    if bucket > 0 { PowersGrow(0, bucket - 1); }
  }

  lemma {:induction false} BinsByRows(rows: seq<SizedRow>, file: File, limit: nat, s: Summary, bucket: nat)
    requires bucket < HISTOGRAM_BUCKETS
    ensures var r := Summarize(rows, file, limit, s);
            && CountOf(BinCounts(r.histogram), bucket) == CountOf(BinCounts(s.histogram), bucket) + RowsIn(rows, bucket)
            && CountOf(BinBytes(r.histogram), bucket) == CountOf(BinBytes(s.histogram), bucket) + BytesIn(rows, bucket)
    decreases |rows|
  {
    if rows != [] {
      BelongsToItsBucket(rows[0], bucket);
      BinsByRows(rows[1..], NextFile(file), limit, AddRow(s, rows[0], file, limit), bucket);
    }
  }

  /** Every bin of a summary holds the regular files of its sizes, and their bytes. */
  lemma BinsAreExact(rows: seq<SizedRow>, directory: nat, limit: nat, bucket: nat)
    requires bucket < HISTOGRAM_BUCKETS
    ensures var histogram := Summarize(rows, File(directory, 0), limit, NO_SUMMARY).histogram;
            && CountOf(BinCounts(histogram), bucket) == RowsIn(rows, bucket)
            && CountOf(BinBytes(histogram), bucket) == BytesIn(rows, bucket)
  {
    BinsByRows(rows, File(directory, 0), limit, NO_SUMMARY, bucket);
    assert BinCounts(map[]) == map[] && BinBytes(map[]) == map[];
  }

  /**
    The bytes are those of the regular rows and of the histogram, every regular row is in one bin, and the
    list holds the largest.
   */
  lemma SummaryIsExact(rows: seq<SizedRow>, directory: nat, limit: nat)
    ensures var s := Summarize(rows, File(directory, 0), limit, NO_SUMMARY);
            && s.bytes == RegularBytes(rows) == Total(BinBytes(s.histogram))
            && Total(BinCounts(s.histogram)) == RegularCount(rows)
            && InBuckets(s.histogram)
            && IsLeaderboard(limit, NonEmpty(rows, File(directory, 0)), s.largest)
  {
    SummarizeBytes(rows, File(directory, 0), limit, NO_SUMMARY);
    SummarizeLargest(rows, File(directory, 0), limit, NO_SUMMARY, multiset{});
    assert multiset{} + NonEmpty(rows, File(directory, 0)) == NonEmpty(rows, File(directory, 0));
    assert BinCounts(map[]) == map[] && BinBytes(map[]) == map[];
  }

  // -- The window's histogram -------------------------------------------------------------------------

  datatype Contribution = Contribution(bucket: nat, count: nat, bytes: nat)

  function Clamped(bucket: nat): nat {
    if bucket < HISTOGRAM_BUCKETS - 1 then bucket else HISTOGRAM_BUCKETS - 1
  }

  function BytesAt(contributions: seq<Contribution>, bucket: nat): nat {
    if contributions == [] then 0
    else
      var last := contributions[|contributions| - 1];
      BytesAt(contributions[..|contributions| - 1], bucket) + if Clamped(last.bucket) == bucket then last.bytes else 0
  }

  function CountAt(contributions: seq<Contribution>, bucket: nat): nat {
    if contributions == [] then 0
    else
      var last := contributions[|contributions| - 1];
      CountAt(contributions[..|contributions| - 1], bucket) + if Clamped(last.bucket) == bucket then last.count else 0
  }

  class SizeHistogram {
    const counts: array<nat>
    const bytes: array<nat>

    ghost predicate Valid()
      reads this, counts, bytes
    {
      && counts.Length == bytes.Length == HISTOGRAM_BUCKETS && counts != bytes
      && (forall b :: 0 <= b < HISTOGRAM_BUCKETS ==> counts[b] <= U64_MAX && bytes[b] <= U64_MAX)
    }

    constructor ()
      ensures Valid() && fresh(counts) && fresh(bytes)
      ensures forall b :: 0 <= b < HISTOGRAM_BUCKETS ==> counts[b] == 0 && bytes[b] == 0
    {
      counts := new nat[HISTOGRAM_BUCKETS](_ => 0);
      bytes := new nat[HISTOGRAM_BUCKETS](_ => 0);
    }

    method Add(c: Contribution)
      requires Valid()
      modifies counts, bytes
      ensures Valid()
      ensures forall b :: 0 <= b < HISTOGRAM_BUCKETS ==>
                && counts[b] == Saturated(old(counts[b]) + if Clamped(c.bucket) == b then c.count else 0)
                && bytes[b] == Saturated(old(bytes[b]) + if Clamped(c.bucket) == b then c.bytes else 0)
    {
      var bucket := Clamped(c.bucket);
      counts[bucket] := Saturated(counts[bucket] + c.count);
      bytes[bucket] := Saturated(bytes[bucket] + c.bytes);
    }

    ghost predicate Grown(before: seq<nat>, after: seq<nat>, added: nat -> nat) {
      |before| == |after| == HISTOGRAM_BUCKETS
      && forall b :: 0 <= b < HISTOGRAM_BUCKETS ==> after[b] == Saturated(before[b] + added(b))
    }

    lemma GrowsOn(before: seq<nat>, middle: seq<nat>, after: seq<nat>, added: nat -> nat, sum: nat -> nat, more: nat -> nat)
      requires Grown(before, middle, added) && |after| == HISTOGRAM_BUCKETS
      requires forall b: nat :: b < HISTOGRAM_BUCKETS ==> after[b] == Saturated(middle[b] + more(b))
      requires forall b: nat :: b < HISTOGRAM_BUCKETS ==> sum(b) == added(b) + more(b)
      ensures Grown(before, after, sum)
    {
      forall b: nat | b < HISTOGRAM_BUCKETS ensures after[b] == Saturated(before[b] + sum(b)) {
        assert middle[b] == Saturated(before[b] + added(b));
      }
    }

    /** Adding one by one with saturation is adding the sum with saturation, bucket by bucket. */
    method Merge(contributions: seq<Contribution>)
      requires Valid()
      modifies counts, bytes
      ensures Valid()
      ensures Grown(old(counts[..]), counts[..], b => CountAt(contributions, b))
      ensures Grown(old(bytes[..]), bytes[..], b => BytesAt(contributions, b))
    {
      ghost var counts0, bytes0 := counts[..], bytes[..];
      for i := 0 to |contributions|
        invariant Valid()
        invariant Grown(counts0, counts[..], b => CountAt(contributions[..i], b))
        invariant Grown(bytes0, bytes[..], b => BytesAt(contributions[..i], b))
      {
        var c := contributions[i];
        assert contributions[..i + 1][..i] == contributions[..i] && contributions[..i + 1][i] == c;
        ghost var counts1, bytes1 := counts[..], bytes[..];
        Add(c);
        GrowsOn(counts0, counts1, counts[..], b => CountAt(contributions[..i], b), b => CountAt(contributions[..i + 1], b),
                b => if Clamped(c.bucket) == b then c.count else 0);
        GrowsOn(bytes0, bytes1, bytes[..], b => BytesAt(contributions[..i], b), b => BytesAt(contributions[..i + 1], b),
                b => if Clamped(c.bucket) == b then c.bytes else 0);
      }
      assert contributions[..|contributions|] == contributions;
    }
  }
}
