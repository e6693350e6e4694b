/**
 * The risk matrix as a whole: the title counts, the unit-by-month grid, the
 * sorted list of distinct acronyms and the status listing, or nothing at all
 * when there are no rows.
 */
module RiskMatrix {
  import opened Options
  import opened Text
  import opened Sorting
  import opened RiskRecords
  import opened MatrixGrid
  import opened StatusBuckets
  import opened StatusListing
  import opened SiglaProvenance

  /** The title's figures: the year shown, the number of rows, the number of distinct acronyms. */
  datatype Title = Title(year: string, records: nat, siglas: nat)

  datatype Matrix = Matrix(title: Title, grid: seq<Row>, siglasUnicas: seq<string>, listing: seq<Section>)

  /** The buckets as filled from the acronym map of `rs`. */
  function FiledBuckets(rs: seq<Record>): (buckets: map<Bucket, seq<Item>>)
    ensures forall b :: b in buckets
  {
    var es := Writes(rs);
    KeyOrderIsKeys(es);
    EveryBucketInOrder();
    map b | b in BucketOrder :: BucketItems(KeyOrder(es), SiglaMap(es), b)
  }

  /** The listing built from the acronym map of `rs`. */
  function ListingOf(rs: seq<Record>): seq<Section>
  {
    Listing(FiledBuckets(rs), BucketOrder)
  }

  /**
   * Build the risk matrix for the rows `rs` of the selected year. No rows
   * give no matrix; otherwise the grid, the acronym list, the title counts
   * and the listing are those of the rows.
   */
  method CreateRiskMatrix(rs: seq<Record>, year: string) returns (result: Option<Matrix>)
    ensures result.None? <==> rs == []
    ensures result.Some? ==> result.value.grid == Grid(rs)
    ensures result.Some? ==> result.value.siglasUnicas == Sort(KeyOrder(Writes(rs)), Id)
    ensures result.Some? ==> result.value.title == Title(year, |rs|, |PlacedSiglas(rs)|)
    ensures result.Some? ==> result.value.listing == ListingOf(rs)
  {
    if |rs| == 0 {
      return None;
    }
    var grid, siglaMap, order := BuildMatrix(rs);
    var siglasUnicas := Sort(order, Id);
    KeyOrderIsKeys(Writes(rs));
    KeyCount(Writes(rs));
    MapKeysArePlacedSiglas(rs);
    assert |siglasUnicas| == |multiset(siglasUnicas)| == |multiset(order)| == |order|;
    var buckets := FillBuckets(order, siglaMap);
    var listing := Listing(buckets, BucketOrder);
    ListingReadsOnly(buckets, FiledBuckets(rs), BucketOrder);
    result := Some(Matrix(Title(year, |rs|, |siglasUnicas|), grid, siglasUnicas, listing));
  }

  /**
   * The distinct acronyms are listed once each, in ascending order, and are
   * exactly the keys of the acronym map: the acronyms of the rows placed in
   * some cell.
   */
  lemma UniqueSiglas(rs: seq<Record>)
    ensures StrictlyAscending(Sort(KeyOrder(Writes(rs)), Id))
    ensures forall k :: k in Sort(KeyOrder(Writes(rs)), Id) <==> k in SiglaMap(Writes(rs))
    ensures forall k :: k in Sort(KeyOrder(Writes(rs)), Id) <==> k in PlacedSiglas(rs)
  {
    var ks := KeyOrder(Writes(rs));
    KeyOrderIsKeys(Writes(rs));
    DistinctPermutation(ks, Sort(ks, Id));
    assert forall k :: k in Sort(ks, Id) <==> k in multiset(ks);
    MapKeysArePlacedSiglas(rs);
  }

  /** The listing never has a "Não Conforme" section. */
  lemma NoNonCompliantSection(rs: seq<Record>)
    ensures forall s :: s in ListingOf(rs) ==> s.bucket != NonCompliant
  {
    var es := Writes(rs);
    KeyOrderIsKeys(es);
    NonCompliantBucketEmpty(KeyOrder(es), SiglaMap(es));
    ListingSound(FiledBuckets(rs), BucketOrder);
  }

  /**
   * The sections come in the fixed bucket order, one per bucket at most, and
   * every bucket that received an acronym has its section.
   */
  lemma ListingInBucketOrder(rs: seq<Record>)
    ensures BucketsAscending(BucketsOf(ListingOf(rs)))
    ensures forall b :: FiledBuckets(rs)[b] != [] ==> exists s :: s in ListingOf(rs) && s.bucket == b
  {
    BucketOrderAscending();
    ListingOrdered(FiledBuckets(rs), BucketOrder);
    EveryBucketInOrder();
    ListingComplete(FiledBuckets(rs), BucketOrder);
  }

  /**
   * Each acronym of the map is filed in exactly one bucket: the one its
   * stored status picks.
   */
  lemma ListingPartitionsSiglas(rs: seq<Record>, k: string, b: Bucket)
    requires k in SiglaMap(Writes(rs))
    ensures k in SiglasOf(FiledBuckets(rs)[b]) <==> Classify(SiglaMap(Writes(rs))[k].status) == b
  {
    var es := Writes(rs);
    KeyOrderIsKeys(es);
    RankInOrder(b);
    BucketMembership(KeyOrder(es), SiglaMap(es), b, k);
  }

  /** Within a section, acronyms are strictly ascending. */
  lemma SectionsStrictlyAscending(rs: seq<Record>, b: Bucket)
    ensures StrictlyAscending(SiglasOf(Sort(FiledBuckets(rs)[b], SiglaKey)))
  {
    var es := Writes(rs);
    KeyOrderIsKeys(es);
    RankInOrder(b);
    BucketDistinct(KeyOrder(es), SiglaMap(es), b);
    SortedDistinct(FiledBuckets(rs)[b]);
  }
}
