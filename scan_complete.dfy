// Every site that reaches the cutoff has its record in `write_output`'s
// table, so the table holds exactly the records of those sites.

module ScanComplete {
  import opened Common
  import opened Catalog
  import opened Scan
  import opened ScanProperties

  /// An emitting site among the first `j` motifs has its record among the
  /// records of its residue.
  lemma {:induction false} HitsAtHas(catalog: map<string, MotifDef>, seqData: Dict<string>, results: Dict<seq<Proba>>,
                                     cutoff: int, p: nat, i: nat, j: nat, s: Site)
    requires ScanInput(catalog, seqData, results)
    requires j <= |results.keys|
    requires s.p == p && s.i == i && s.j < j && Emits(catalog, seqData, results, cutoff, s)
    ensures HitAt(catalog, seqData, results, s) in HitsAt(catalog, seqData, results, cutoff, p, i, j)
    decreases j
  {
    HitsAtSplit(catalog, seqData, results, cutoff, p, i, j);
    if s.j < j - 1 {
      HitsAtHas(catalog, seqData, results, cutoff, p, i, j - 1, s);
    } else {
      assert s == Site(p, i, j - 1);
    }
  }

  /// The records of the first `j` motifs at a residue are those of the first
  /// `j - 1` followed by the record of motif `j - 1`, if any.
  lemma HitsAtSplit(catalog: map<string, MotifDef>, seqData: Dict<string>, results: Dict<seq<Proba>>,
                    cutoff: int, p: nat, i: nat, j: nat)
    requires ScanInput(catalog, seqData, results)
    requires 0 < j <= |results.keys|
    ensures HitsAt(catalog, seqData, results, cutoff, p, i, j) ==
      HitsAt(catalog, seqData, results, cutoff, p, i, j - 1) + HitsFor(catalog, seqData, results, cutoff, Site(p, i, j - 1))
  {
  }

  lemma HitsAtComplete(catalog: map<string, MotifDef>, seqData: Dict<string>, results: Dict<seq<Proba>>,
                       cutoff: int, p: nat, i: nat, j: nat)
    requires ScanInput(catalog, seqData, results)
    requires j <= |results.keys|
    ensures forall s: Site :: s.p == p && s.i == i && s.j < j && Emits(catalog, seqData, results, cutoff, s) ==>
      HitAt(catalog, seqData, results, s) in HitsAt(catalog, seqData, results, cutoff, p, i, j)
  {
    forall s: Site | s.p == p && s.i == i && s.j < j && Emits(catalog, seqData, results, cutoff, s)
      ensures HitAt(catalog, seqData, results, s) in HitsAt(catalog, seqData, results, cutoff, p, i, j)
    {
      HitsAtHas(catalog, seqData, results, cutoff, p, i, j, s);
    }
  }

  lemma {:induction false} HitsBelowComplete(catalog: map<string, MotifDef>, seqData: Dict<string>, results: Dict<seq<Proba>>,
                                             cutoff: int, p: nat, n: nat)
    requires ScanInput(catalog, seqData, results)
    ensures forall s: Site :: s.p == p && s.i < n && Emits(catalog, seqData, results, cutoff, s) ==>
      HitAt(catalog, seqData, results, s) in HitsBelow(catalog, seqData, results, cutoff, p, n)
    decreases n
  {
    if n > 0 {
      HitsBelowComplete(catalog, seqData, results, cutoff, p, n - 1);
      HitsAtComplete(catalog, seqData, results, cutoff, p, n - 1, |results.keys|);
    }
  }

  /// Later proteins only append records: a record of the first `p`
  /// proteins is a record of the first `q`.
  lemma {:induction false} HitsUpToGrows(catalog: map<string, MotifDef>, seqData: Dict<string>, results: Dict<seq<Proba>>,
                                         cutoff: int, p: nat, q: nat)
    requires ScanInput(catalog, seqData, results)
    requires p <= q <= |seqData.keys|
    ensures forall h :: h in HitsUpTo(catalog, seqData, results, cutoff, p) ==> h in HitsUpTo(catalog, seqData, results, cutoff, q)
    decreases q
  {
    if p < q {
      HitsUpToGrows(catalog, seqData, results, cutoff, p, q - 1);
      var len := |seqData.values[seqData.keys[q - 1]]|;
      assert HitsUpTo(catalog, seqData, results, cutoff, q) ==
        HitsUpTo(catalog, seqData, results, cutoff, q - 1) + HitsBelow(catalog, seqData, results, cutoff, q - 1, len);
    }
  }

  /// The records of the first `p + 1` proteins are those of the first `p`
  /// followed by those of protein `p`.
  lemma HitsUpToNext(catalog: map<string, MotifDef>, seqData: Dict<string>, results: Dict<seq<Proba>>,
                     cutoff: int, p: nat)
    requires ScanInput(catalog, seqData, results)
    requires p < |seqData.keys|
    ensures forall h :: h in HitsBelow(catalog, seqData, results, cutoff, p, |seqData.values[seqData.keys[p]]|) ==>
      h in HitsUpTo(catalog, seqData, results, cutoff, p + 1)
  {
    assert HitsUpTo(catalog, seqData, results, cutoff, p + 1) ==
      HitsUpTo(catalog, seqData, results, cutoff, p) + HitsBelow(catalog, seqData, results, cutoff, p, |seqData.values[seqData.keys[p]]|);
  }

  /// An emitting site has its record among the records of its protein.
  lemma SiteInOwnProtein(catalog: map<string, MotifDef>, seqData: Dict<string>, results: Dict<seq<Proba>>,
                         cutoff: int, s: Site)
    requires ScanInput(catalog, seqData, results)
    requires Emits(catalog, seqData, results, cutoff, s)
    ensures HitAt(catalog, seqData, results, s) in HitsUpTo(catalog, seqData, results, cutoff, s.p + 1)
  {
    HitsBelowComplete(catalog, seqData, results, cutoff, s.p, |seqData.values[seqData.keys[s.p]]|);
    HitsUpToNext(catalog, seqData, results, cutoff, s.p);
  }

  /// An emitting site of the first `p` proteins has its record among their
  /// records: among those of its own protein, which later proteins keep.
  lemma SiteHasRecord(catalog: map<string, MotifDef>, seqData: Dict<string>, results: Dict<seq<Proba>>,
                      cutoff: int, p: nat, s: Site)
    requires ScanInput(catalog, seqData, results)
    requires p <= |seqData.keys|
    requires s.p < p && Emits(catalog, seqData, results, cutoff, s)
    ensures HitAt(catalog, seqData, results, s) in HitsUpTo(catalog, seqData, results, cutoff, p)
  {
    SiteInOwnProtein(catalog, seqData, results, cutoff, s);
    HitsUpToGrows(catalog, seqData, results, cutoff, s.p + 1, p);
  }

  lemma HitsUpToComplete(catalog: map<string, MotifDef>, seqData: Dict<string>, results: Dict<seq<Proba>>,
                         cutoff: int, p: nat)
    requires ScanInput(catalog, seqData, results)
    requires p <= |seqData.keys|
    ensures forall s: Site :: s.p < p && Emits(catalog, seqData, results, cutoff, s) ==>
      HitAt(catalog, seqData, results, s) in HitsUpTo(catalog, seqData, results, cutoff, p)
  {
    forall s: Site | s.p < p && Emits(catalog, seqData, results, cutoff, s)
      ensures HitAt(catalog, seqData, results, s) in HitsUpTo(catalog, seqData, results, cutoff, p)
    {
      SiteHasRecord(catalog, seqData, results, cutoff, p, s);
    }
  }

  /// The table holds a record exactly when some protein, residue and motif
  /// of the scan produce it: a valid anchor whose probability reaches the
  /// cutoff.
  lemma ScanHitsExact(catalog: map<string, MotifDef>, seqData: Dict<string>, results: Dict<seq<Proba>>, cutoff: int)
    requires ScanInput(catalog, seqData, results)
    ensures forall h :: h in ScanHits(catalog, seqData, results, cutoff) <==>
      exists s: Site :: Recorded(catalog, seqData, results, cutoff, s, h)
  {
    HitsUpToSound(catalog, seqData, results, cutoff, |seqData.keys|);
    HitsUpToComplete(catalog, seqData, results, cutoff, |seqData.keys|);
  }
}
