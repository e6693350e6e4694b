/**
 * Filing each acronym of the map under one of seven status buckets, by an
 * ordered chain of substring tests on the lower-cased status.
 */
module StatusBuckets {
  import opened Text
  import opened Sorting
  import opened RiskRecords

  datatype Bucket =
    | NotStarted          // "Não Iniciado"
    | Pending             // "Pendente"
    | Finalized           // "Finalizado"
    | Compliant           // "Conforme"
    | PartiallyCompliant  // "Conforme Parcialmente"
    | NonCompliant        // "Não Conforme"
    | Other               // "Outros"

  /** The buckets in the order the listing shows them (the dict's key order). */
  const BucketOrder: seq<Bucket> :=
    [NotStarted, Pending, Finalized, Compliant, PartiallyCompliant, NonCompliant, Other]

  /** The fixed order lists every bucket. */
  lemma EveryBucketInOrder()
    ensures forall b :: b in BucketOrder
  {
    forall b ensures b in BucketOrder {
      match b
      case NotStarted => assert BucketOrder[0] == b;
      case Pending => assert BucketOrder[1] == b;
      case Finalized => assert BucketOrder[2] == b;
      case Compliant => assert BucketOrder[3] == b;
      case PartiallyCompliant => assert BucketOrder[4] == b;
      case NonCompliant => assert BucketOrder[5] == b;
      case Other => assert BucketOrder[6] == b;
    }
  }

  /** The bucket's heading name. */
  function Label(b: Bucket): string
  {
    match b
    case NotStarted => "Não Iniciado"
    case Pending => "Pendente"
    case Finalized => "Finalizado"
    case Compliant => "Conforme"
    case PartiallyCompliant => "Conforme Parcialmente"
    case NonCompliant => "Não Conforme"
    case Other => "Outros"
  }

  /** The first test of the chain that the lower-cased status passes picks the bucket. */
  function Classify(status: string): Bucket
  {
    var s := Lower(status);
    if Contains(s, "não iniciado") || Contains(s, "nao iniciado") then NotStarted
    else if Contains(s, "pendente") then Pending
    else if Contains(s, "finalizado") then Finalized
    else if Contains(s, "conforme") then
      (if Contains(s, "parcial") then PartiallyCompliant else Compliant)
    else if Contains(s, "não conforme") || Contains(s, "nao conforme") then NonCompliant
    else Other
  }

  /** Every text mentioning "não conforme" or "nao conforme" mentions "conforme". */
  lemma NegationMentionsConforme(s: string)
    requires Contains(s, "não conforme") || Contains(s, "nao conforme")
    ensures Contains(s, "conforme")
  {
    if Contains(s, "não conforme") {
      assert "não conforme" == "não " + "conforme";
      ContainsSuffixOfNeedle(s, "não ", "conforme");
    } else {
      assert "nao conforme" == "nao " + "conforme";
      ContainsSuffixOfNeedle(s, "nao ", "conforme");
    }
  }

  /**
   * The "Não Conforme" bucket is never chosen: its test comes after the
   * "conforme" test, which every status it would match passes first.
   */
  lemma NonCompliantUnreachable(status: string)
    ensures Classify(status) != NonCompliant
  {
    var s := Lower(status);
    if Contains(s, "não conforme") || Contains(s, "nao conforme") {
      NegationMentionsConforme(s);
    }
  }

  /**
   * A status that says "não conforme" and none of the earlier keywords is
   * filed as compliant, or as partially compliant when it also says "parcial".
   */
  lemma NonComplianceFiledAsCompliance(status: string)
    requires var s := Lower(status);
      (Contains(s, "não conforme") || Contains(s, "nao conforme"))
      && !Contains(s, "não iniciado") && !Contains(s, "nao iniciado")
      && !Contains(s, "pendente") && !Contains(s, "finalizado")
    ensures Classify(status) == if Contains(Lower(status), "parcial") then PartiallyCompliant else Compliant
  {
    NegationMentionsConforme(Lower(status));
  }

  /** Lower-casing the status "Não Conforme" gives "não conforme". */
  lemma LowerNaoConforme()
    ensures Lower("Não Conforme") == "não conforme"
  {
  }

  /** "não conforme" mentions "conforme" and none of the keywords the chain looks for before it. */
  lemma NaoConformeKeywords()
    ensures Contains("não conforme", "conforme")
    ensures !Contains("não conforme", "não iniciado") && !Contains("não conforme", "nao iniciado")
    ensures !Contains("não conforme", "pendente") && !Contains("não conforme", "finalizado")
    ensures !Contains("não conforme", "parcial")
  {
    var s := "não conforme";
    assert "conforme" <= s[4..];
    ContainsInSuffix(s, "conforme", 4);
    assert 'i' !in s && 'p' !in s;
    if Contains(s, "não iniciado") { ContainsNeedsChars(s, "não iniciado", 'i'); }
    if Contains(s, "nao iniciado") { ContainsNeedsChars(s, "nao iniciado", 'i'); }
    if Contains(s, "pendente") { ContainsNeedsChars(s, "pendente", 'p'); }
    if Contains(s, "finalizado") { ContainsNeedsChars(s, "finalizado", 'i'); }
    if Contains(s, "parcial") { ContainsNeedsChars(s, "parcial", 'p'); }
  }

  /** The status "Não Conforme" itself is filed under "Conforme". */
  lemma NonCompliantStatusIsFiledCompliant()
    ensures Classify("Não Conforme") == Compliant
  {
    LowerNaoConforme();
    NaoConformeKeywords();
  }

  /**
   * "Outros" holds exactly the statuses that mention none of "não iniciado",
   * "nao iniciado", "pendente", "finalizado" and "conforme": the two negated
   * forms never decide anything, since they contain "conforme".
   */
  lemma OtherMeansNoKeyword(status: string)
    ensures Classify(status) == Other <==>
      var s := Lower(status);
      && !Contains(s, "não iniciado") && !Contains(s, "nao iniciado")
      && !Contains(s, "pendente") && !Contains(s, "finalizado")
      && !Contains(s, "conforme")
  {
    var s := Lower(status);
    if Contains(s, "não conforme") || Contains(s, "nao conforme") {
      NegationMentionsConforme(s);
    }
  }

  /** One line of the listing before layout: an acronym and what the map holds for it. */
  datatype Item = Item(sigla: string, relatorio: string, unit: string, monthName: string, status: string)

  function ItemOf(sigla: string, info: Info): Item
  {
    Item(sigla, info.relatorio, info.unit, MonthName(info.month), info.status)
  }

  function SiglasOf(items: seq<Item>): seq<string>
  {
    seq(|items|, i requires 0 <= i < |items| => items[i].sigla)
  }

  /** The items filed under `b`, in the map's key order. */
  function BucketItems(order: seq<string>, info: map<string, Info>, b: Bucket): seq<Item>
    requires forall k :: k in order ==> k in info
  {
    if order == [] then []
    else
      var k := order[|order| - 1];
      BucketItems(order[..|order| - 1], info, b)
      + (if Classify(info[k].status) == b then [ItemOf(k, info[k])] else [])
  }

  /**
   * The bucketing loop: visit the map's keys in order and append each item
   * to the bucket its status picks.
   */
  method FillBuckets(order: seq<string>, info: map<string, Info>) returns (buckets: map<Bucket, seq<Item>>)
    requires forall k :: k in order ==> k in info
    ensures forall b :: b in buckets && buckets[b] == BucketItems(order, info, b)
  {
    buckets := map[NotStarted := [], Pending := [], Finalized := [], Compliant := [],
                   PartiallyCompliant := [], NonCompliant := [], Other := []];
    forall b ensures b in buckets && buckets[b] == BucketItems(order[..0], info, b) {
      match b
      case NotStarted =>
      case Pending =>
      case Finalized =>
      case Compliant =>
      case PartiallyCompliant =>
      case NonCompliant =>
      case Other =>
    }
    for i := 0 to |order|
      invariant forall b :: b in buckets && buckets[b] == BucketItems(order[..i], info, b)
    {
      assert order[..i + 1][..i] == order[..i];
      var k := order[i];
      var item := ItemOf(k, info[k]);
      var b := Classify(info[k].status);
      buckets := buckets[b := buckets[b] + [item]];
    }
    assert order[..|order|] == order;
  }

  /** An acronym is in bucket `b` exactly when it is a key whose status picks `b`. */
  lemma {:induction false} BucketMembership(order: seq<string>, info: map<string, Info>, b: Bucket, k: string)
    requires forall k :: k in order ==> k in info
    ensures k in SiglasOf(BucketItems(order, info, b)) <==> k in order && Classify(info[k].status) == b
  {
    if order != [] {
      var init := order[..|order| - 1];
      var last := order[|order| - 1];
      BucketMembership(init, info, b, k);
      assert order == init + [last];
      var prev := BucketItems(init, info, b);
      var items := BucketItems(order, info, b);
      assert SiglasOf(items) == SiglasOf(prev) + SiglasOf(items[|prev|..]);
      if Classify(info[last].status) == b {
        assert SiglasOf(items[|prev|..]) == [last];
      } else {
        assert SiglasOf(items[|prev|..]) == [];
      }
    }
  }

  lemma DistinctAppend(a: seq<string>, x: string)
    requires Distinct(a) && x !in a
    ensures Distinct(a + [x])
  {
  }

  lemma SiglasAppend(items: seq<Item>, more: seq<Item>)
    ensures SiglasOf(items + more) == SiglasOf(items) + SiglasOf(more)
  {
  }

  /** No bucket lists an acronym twice when the keys are distinct. */
  lemma {:induction false} BucketDistinct(order: seq<string>, info: map<string, Info>, b: Bucket)
    requires forall k :: k in order ==> k in info
    requires Distinct(order)
    ensures Distinct(SiglasOf(BucketItems(order, info, b)))
  {
    if order != [] {
      var init := order[..|order| - 1];
      var k := order[|order| - 1];
      BucketDistinct(init, info, b);
      var prev := BucketItems(init, info, b);
      if Classify(info[k].status) == b {
        assert k !in init;
        BucketMembership(init, info, b, k);
        SiglasAppend(prev, [ItemOf(k, info[k])]);
        DistinctAppend(SiglasOf(prev), k);
      } else {
        assert BucketItems(order, info, b) == prev;
      }
    }
  }

  /** The "Não Conforme" bucket stays empty. */
  lemma {:induction false} NonCompliantBucketEmpty(order: seq<string>, info: map<string, Info>)
    requires forall k :: k in order ==> k in info
    ensures BucketItems(order, info, NonCompliant) == []
  {
    if order != [] {
      NonCompliantBucketEmpty(order[..|order| - 1], info);
      NonCompliantUnreachable(info[order[|order| - 1]].status);
    }
  }

  /** The sizes of the buckets `bs`, added up. */
  function TotalSize(order: seq<string>, info: map<string, Info>, bs: seq<Bucket>): nat
    requires forall k :: k in order ==> k in info
  {
    if bs == [] then 0 else |BucketItems(order, info, bs[0])| + TotalSize(order, info, bs[1..])
  }

  function Occurrences(bs: seq<Bucket>, b: Bucket): nat
  {
    if bs == [] then 0 else (if bs[0] == b then 1 else 0) + Occurrences(bs[1..], b)
  }

  lemma {:induction false} NothingFiled(info: map<string, Info>, bs: seq<Bucket>)
    ensures TotalSize([], info, bs) == 0
  {
    if bs != [] {
      NothingFiled(info, bs[1..]);
    }
  }

  lemma {:induction false} TotalSizeStep(order: seq<string>, info: map<string, Info>, bs: seq<Bucket>)
    requires order != [] && forall k :: k in order ==> k in info
    ensures TotalSize(order, info, bs)
      == TotalSize(order[..|order| - 1], info, bs) + Occurrences(bs, Classify(info[order[|order| - 1]].status))
  {
    if bs != [] {
      TotalSizeStep(order, info, bs[1..]);
    }
  }

  /** Each bucket appears exactly once in the fixed bucket order. */
  lemma OccursOnceInOrder(b: Bucket)
    ensures Occurrences(BucketOrder, b) == 1
  {
    assert Occurrences(BucketOrder[6..], b) == (if b == Other then 1 else 0);
    assert Occurrences(BucketOrder[5..], b) == (if b in {NonCompliant, Other} then 1 else 0);
    assert Occurrences(BucketOrder[4..], b) == (if b in {PartiallyCompliant, NonCompliant, Other} then 1 else 0);
    assert Occurrences(BucketOrder[3..], b) == (if b in {Compliant, PartiallyCompliant, NonCompliant, Other} then 1 else 0);
    assert Occurrences(BucketOrder[2..], b) == (if b !in {NotStarted, Pending} then 1 else 0);
    assert Occurrences(BucketOrder[1..], b) == (if b != NotStarted then 1 else 0);
  }

  /** Every key lands in exactly one bucket: the seven bucket sizes add up to the number of keys. */
  lemma {:induction false} BucketsPartition(order: seq<string>, info: map<string, Info>)
    requires forall k :: k in order ==> k in info
    ensures TotalSize(order, info, BucketOrder) == |order|
  {
    if order == [] {
      NothingFiled(info, BucketOrder);
    } else {
      BucketsPartition(order[..|order| - 1], info);
      TotalSizeStep(order, info, BucketOrder);
      OccursOnceInOrder(Classify(info[order[|order| - 1]].status));
    }
  }
}
