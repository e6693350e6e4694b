/**
 * The full listing under the grid: one section per non-empty bucket, in the
 * buckets' fixed order, its items sorted by acronym and split into columns of
 * ten lines, each line showing at most 35 characters of the report name.
 */
module StatusListing {
  import opened Text
  import opened Sorting
  import opened Chunking
  import opened RiskRecords
  import opened StatusBuckets

  const ItemsPerColumn: nat := 10
  const NameWidth: nat := 35

  /** A displayed line: "SIGLA: ", the shortened report name, " (unit, month)". */
  datatype Line = Line(sigla: string, name: string, unit: string, monthName: string)

  /** The line for an item: its report name is cut to its first 35 characters. */
  function LineOf(item: Item): (l: Line)
    ensures l.sigla == item.sigla && l.unit == item.unit && l.monthName == item.monthName
    ensures l.name <= item.relatorio
    ensures |l.name| == if |item.relatorio| <= NameWidth then |item.relatorio| else NameWidth
  {
    Line(item.sigla, Prefix(item.relatorio, NameWidth), item.unit, item.monthName)
  }

  function Lines(items: seq<Item>): seq<Line>
  {
    seq(|items|, i requires 0 <= i < |items| => LineOf(items[i]))
  }

  function SiglaKey(item: Item): string { item.sigla }

  /** A bucket's section: its name, its item count and its columns. */
  datatype Section = Section(bucket: Bucket, count: nat, columns: seq<seq<Line>>)

  function SectionOf(b: Bucket, items: seq<Item>): Section
  {
    Section(b, |items|, Chunks(Lines(Sort(items, SiglaKey)), ItemsPerColumn))
  }

  /** The sections for the buckets `bs`, in order, skipping empty buckets. */
  function Listing(buckets: map<Bucket, seq<Item>>, bs: seq<Bucket>): seq<Section>
    requires forall b :: b in bs ==> b in buckets
  {
    if bs == [] then []
    else
      (if buckets[bs[0]] == [] then [] else [SectionOf(bs[0], buckets[bs[0]])])
      + Listing(buckets, bs[1..])
  }

  /**
   * Reading a section's columns in turn gives its items sorted by acronym,
   * as many lines as the bucket has items; every column holds one to ten
   * lines, and every column but the last exactly ten.
   */
  lemma SectionContents(b: Bucket, items: seq<Item>)
    ensures SectionOf(b, items).count == |items| == |Flatten(SectionOf(b, items).columns)|
    ensures Flatten(SectionOf(b, items).columns) == Lines(Sort(items, SiglaKey))
    ensures var flat := Flatten(SectionOf(b, items).columns);
      forall i, j :: 0 <= i < j < |flat| ==> Below(flat[i].sigla, flat[j].sigla)
    ensures forall i :: 0 <= i < |SectionOf(b, items).columns| ==>
      0 < |SectionOf(b, items).columns[i]| <= ItemsPerColumn
    ensures forall i :: 0 <= i < |SectionOf(b, items).columns| - 1 ==>
      |SectionOf(b, items).columns[i]| == ItemsPerColumn
  {
    var sorted := Sort(items, SiglaKey);
    FlattenChunks(Lines(sorted), ItemsPerColumn);
    ChunkSizes(Lines(sorted), ItemsPerColumn);
    assert |sorted| == |multiset(sorted)| == |multiset(items)| == |items|;
  }

  /** In a list with distinct acronyms, an acronym names one item only. */
  lemma SameSiglaSameItem(items: seq<Item>, x: Item, y: Item)
    requires Distinct(SiglasOf(items))
    requires x in items && y in items && x.sigla == y.sigla
    ensures x == y
  {
    var a :| 0 <= a < |items| && items[a] == x;
    var c :| 0 <= c < |items| && items[c] == y;
    assert SiglasOf(items)[a] == x.sigla && SiglasOf(items)[c] == y.sigla;
  }

  /** Sorting a bucket whose acronyms are distinct yields strictly ascending acronyms. */
  lemma SortedDistinct(items: seq<Item>)
    requires Distinct(SiglasOf(items))
    ensures StrictlyAscending(SiglasOf(Sort(items, SiglaKey)))
  {
    var sorted := Sort(items, SiglaKey);
    var ks := SiglasOf(sorted);
    DistinctItems(items);
    DistinctPermutation(items, sorted);
    forall i, j | 0 <= i < j < |ks| ensures Below(ks[i], ks[j]) && ks[i] != ks[j] {
      assert ks[i] == sorted[i].sigla && ks[j] == sorted[j].sigla;
      assert sorted[i] in multiset(sorted) && sorted[j] in multiset(sorted);
      if sorted[i].sigla == sorted[j].sigla {
        SameSiglaSameItem(items, sorted[i], sorted[j]);
      }
    }
  }

  lemma DistinctItems(items: seq<Item>)
    requires Distinct(SiglasOf(items))
    ensures Distinct(items)
  {
    assert forall i :: 0 <= i < |items| ==> SiglasOf(items)[i] == items[i].sigla;
  }

  /** Position of a bucket in the fixed bucket order. */
  function Rank(b: Bucket): nat
  {
    match b
    case NotStarted => 0
    case Pending => 1
    case Finalized => 2
    case Compliant => 3
    case PartiallyCompliant => 4
    case NonCompliant => 5
    case Other => 6
  }

  /** Rank inverts the bucket order: the bucket at position `Rank(b)` is `b`. */
  lemma RankInOrder(b: Bucket)
    ensures Rank(b) < |BucketOrder| && BucketOrder[Rank(b)] == b
  {
  }

  lemma {:induction false} ListingBucketsAmong(buckets: map<Bucket, seq<Item>>, bs: seq<Bucket>)
    requires forall b :: b in bs ==> b in buckets
    ensures forall s :: s in Listing(buckets, bs) ==> s.bucket in bs
  {
    if bs != [] {
      ListingBucketsAmong(buckets, bs[1..]);
    }
  }

  /** Every section is that of a non-empty bucket among `bs`. */
  lemma {:induction false} ListingSound(buckets: map<Bucket, seq<Item>>, bs: seq<Bucket>)
    requires forall b :: b in bs ==> b in buckets
    ensures forall s :: s in Listing(buckets, bs) ==>
      s.bucket in bs && buckets[s.bucket] != [] && s == SectionOf(s.bucket, buckets[s.bucket])
  {
    if bs != [] {
      ListingSound(buckets, bs[1..]);
    }
  }

  /** Every non-empty bucket among `bs` has a section. */
  lemma {:induction false} ListingComplete(buckets: map<Bucket, seq<Item>>, bs: seq<Bucket>)
    requires forall b :: b in bs ==> b in buckets
    ensures forall b :: b in bs && buckets[b] != [] ==>
      exists s :: s in Listing(buckets, bs) && s.bucket == b
  {
    if bs != [] {
      ListingComplete(buckets, bs[1..]);
      if buckets[bs[0]] != [] {
        assert SectionOf(bs[0], buckets[bs[0]]) in Listing(buckets, bs);
      }
    }
  }

  /** Buckets in strictly ascending rank. */
  predicate BucketsAscending(bs: seq<Bucket>)
  {
    forall i, j :: 0 <= i < j < |bs| ==> Rank(bs[i]) < Rank(bs[j])
  }

  /** The buckets of the sections, in listing order. */
  function BucketsOf(l: seq<Section>): seq<Bucket>
  {
    seq(|l|, i requires 0 <= i < |l| => l[i].bucket)
  }

  /** A section ranked below every section of an ascending list may go in front of it. */
  lemma PrependAscending(x: Section, rest: seq<Section>)
    requires forall s :: s in rest ==> Rank(x.bucket) < Rank(s.bucket)
    requires BucketsAscending(BucketsOf(rest))
    ensures BucketsAscending(BucketsOf([x] + rest))
  {
    var l := BucketsOf([x] + rest);
    forall i, j | 0 <= i < j < |l| ensures Rank(l[i]) < Rank(l[j]) {
      assert l[j] == rest[j - 1].bucket && rest[j - 1] in rest;
      if i > 0 {
        assert l[i] == BucketsOf(rest)[i - 1] && l[j] == BucketsOf(rest)[j - 1];
      }
    }
  }

  /** The fixed bucket order is in ascending rank. */
  lemma BucketOrderAscending()
    ensures BucketsAscending(BucketOrder)
  {
  }

  lemma AscendingTail(bs: seq<Bucket>)
    requires bs != [] && BucketsAscending(bs)
    ensures BucketsAscending(bs[1..])
    ensures forall b :: b in bs[1..] ==> Rank(bs[0]) < Rank(b)
  {
  }

  /** For buckets in ascending rank, the sections come in ascending rank too: one per bucket at most. */
  lemma {:induction false} ListingOrdered(buckets: map<Bucket, seq<Item>>, bs: seq<Bucket>)
    requires forall b :: b in bs ==> b in buckets
    requires BucketsAscending(bs)
    ensures BucketsAscending(BucketsOf(Listing(buckets, bs)))
  {
    if bs != [] {
      var tail := bs[1..];
      AscendingTail(bs);
      ListingOrdered(buckets, tail);
      var rest := Listing(buckets, tail);
      if buckets[bs[0]] != [] {
        ListingBucketsAmong(buckets, tail);
        PrependAscending(SectionOf(bs[0], buckets[bs[0]]), rest);
        assert Listing(buckets, bs) == [SectionOf(bs[0], buckets[bs[0]])] + rest;
      } else {
        assert Listing(buckets, bs) == rest;
      }
    }
  }

  /** The listing depends only on the buckets it is asked about. */
  lemma {:induction false} ListingReadsOnly(m1: map<Bucket, seq<Item>>, m2: map<Bucket, seq<Item>>, bs: seq<Bucket>)
    requires forall b :: b in bs ==> b in m1 && b in m2 && m1[b] == m2[b]
    ensures Listing(m1, bs) == Listing(m2, bs)
  {
    if bs != [] {
      ListingReadsOnly(m1, m2, bs[1..]);
    }
  }
}
