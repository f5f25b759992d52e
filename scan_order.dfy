// The order of `write_output`'s table: the records of a protein in
// residue order.

module ScanOrder {
  import opened Common
  import opened Catalog
  import opened Scan
  import opened ScanProperties
  import opened HitOrder

  /// The records of residues below `n` of protein `p` all name that protein
  /// and carry residue numbers `1 .. n`.
  lemma {:induction false} HitsBelowShape(catalog: map<string, MotifDef>, seqData: Dict<string>, results: Dict<seq<Proba>>,
                                          cutoff: int, p: nat, n: nat)
    requires ScanInput(catalog, seqData, results)
    requires p < |seqData.keys|
    ensures OfProteinUpTo(HitsBelow(catalog, seqData, results, cutoff, p, n), seqData.keys[p], n)
    decreases n
  {
    if n > 0 {
      HitsBelowShape(catalog, seqData, results, cutoff, p, n - 1);
      HitsAtShape(catalog, seqData, results, cutoff, p, n - 1);
      var first := HitsBelow(catalog, seqData, results, cutoff, p, n - 1);
      var last := HitsAt(catalog, seqData, results, cutoff, p, n - 1, |results.keys|);
      assert HitsBelow(catalog, seqData, results, cutoff, p, n) == first + last;
      AppendShape(first, last, seqData.keys[p], n);
    }
  }

  /// The records of residues below `n` of protein `p` come in residue order.
  lemma {:induction false} HitsBelowOrdered(catalog: map<string, MotifDef>, seqData: Dict<string>, results: Dict<seq<Proba>>,
                                            cutoff: int, p: nat, n: nat)
    requires ScanInput(catalog, seqData, results)
    requires p < |seqData.keys|
    ensures InResidueOrder(HitsBelow(catalog, seqData, results, cutoff, p, n))
    decreases n
  {
    if n > 0 {
      HitsBelowOrdered(catalog, seqData, results, cutoff, p, n - 1);
      HitsBelowShape(catalog, seqData, results, cutoff, p, n - 1);
      HitsAtShape(catalog, seqData, results, cutoff, p, n - 1);
      var first := HitsBelow(catalog, seqData, results, cutoff, p, n - 1);
      var last := HitsAt(catalog, seqData, results, cutoff, p, n - 1, |results.keys|);
      assert HitsBelow(catalog, seqData, results, cutoff, p, n) == first + last;
      AppendResidue(first, last, seqData.keys[p], n);
    }
  }

  /// The records written at one residue name its protein and its 1-based
  /// residue number.
  lemma HitsAtShape(catalog: map<string, MotifDef>, seqData: Dict<string>, results: Dict<seq<Proba>>,
                    cutoff: int, p: nat, i: nat)
    requires ScanInput(catalog, seqData, results)
    requires p < |seqData.keys|
    ensures OfResidue(HitsAt(catalog, seqData, results, cutoff, p, i, |results.keys|), seqData.keys[p], i + 1)
  {
    var hs := HitsAt(catalog, seqData, results, cutoff, p, i, |results.keys|);
    HitsAtSound(catalog, seqData, results, cutoff, p, i, |results.keys|);
    forall a | 0 <= a < |hs|
      ensures hs[a].protein == seqData.keys[p] && hs[a].resId == i + 1
    {
      assert hs[a] in hs;
    }
  }

  /// When protein names are distinct, two records of the same protein come
  /// in the order of their residues.
  lemma {:induction false} HitsUpToOrdered(catalog: map<string, MotifDef>, seqData: Dict<string>, results: Dict<seq<Proba>>,
                                           cutoff: int, p: nat)
    requires ScanInput(catalog, seqData, results)
    requires Distinct(seqData.keys)
    requires p <= |seqData.keys|
    ensures ProteinsInResidueOrder(HitsUpTo(catalog, seqData, results, cutoff, p))
    decreases p
  {
    if p > 0 {
      HitsUpToOrdered(catalog, seqData, results, cutoff, p - 1);
      var len := |seqData.values[seqData.keys[p - 1]]|;
      HitsBelowShape(catalog, seqData, results, cutoff, p - 1, len);
      HitsBelowOrdered(catalog, seqData, results, cutoff, p - 1, len);
      HitsUpToOthers(catalog, seqData, results, cutoff, p - 1);
      var first := HitsUpTo(catalog, seqData, results, cutoff, p - 1);
      var last := HitsBelow(catalog, seqData, results, cutoff, p - 1, len);
      assert HitsUpTo(catalog, seqData, results, cutoff, p) == first + last;
      AppendProtein(first, last, seqData.keys[p - 1], len);
    }
  }

  /// No record of the first `p` proteins names protein `p`.
  lemma HitsUpToOthers(catalog: map<string, MotifDef>, seqData: Dict<string>, results: Dict<seq<Proba>>,
                       cutoff: int, p: nat)
    requires ScanInput(catalog, seqData, results)
    requires Distinct(seqData.keys)
    requires p < |seqData.keys|
    ensures NoneOf(HitsUpTo(catalog, seqData, results, cutoff, p), seqData.keys[p])
  {
    var hs := HitsUpTo(catalog, seqData, results, cutoff, p);
    HitsUpToSound(catalog, seqData, results, cutoff, p);
    forall a | 0 <= a < |hs|
      ensures hs[a].protein != seqData.keys[p]
    {
      assert hs[a] in hs;
      var s: Site :| s.p < p && Recorded(catalog, seqData, results, cutoff, s, hs[a]);
      DistinctAt(seqData.keys, s.p, p);
    }
  }

  /// `write_output` lists the records of each protein in residue order
  /// (protein names being dictionary keys, they are distinct).
  lemma ScanHitsOrdered(catalog: map<string, MotifDef>, seqData: Dict<string>, results: Dict<seq<Proba>>, cutoff: int)
    requires ScanInput(catalog, seqData, results)
    requires Distinct(seqData.keys)
    ensures forall a, b :: 0 <= a < b < |ScanHits(catalog, seqData, results, cutoff)| && ScanHits(catalog, seqData, results, cutoff)[a].protein == ScanHits(catalog, seqData, results, cutoff)[b].protein ==>
      ScanHits(catalog, seqData, results, cutoff)[a].resId <= ScanHits(catalog, seqData, results, cutoff)[b].resId
  {
    HitsUpToOrdered(catalog, seqData, results, cutoff, |seqData.keys|);
  }
}
