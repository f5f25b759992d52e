// What the table of `write_output` holds: only records of sites that reach
// the cutoff, the residue windows a record quotes, and the probability of
// the right row of `generateXmat`'s matrix.

module ScanProperties {
  import opened Common
  import opened Catalog
  import opened Features
  import opened Scan

  /// `h` is the record the scan writes for site `s`.
  predicate Recorded(catalog: map<string, MotifDef>, seqData: Dict<string>, results: Dict<seq<Proba>>,
                     cutoff: int, s: Site, h: Hit)
    requires ScanInput(catalog, seqData, results)
  {
    Emits(catalog, seqData, results, cutoff, s) && h == HitAt(catalog, seqData, results, s)
  }

  /* ---------- every record comes from an emitting site ---------- */

  lemma {:induction false} HitsAtSound(catalog: map<string, MotifDef>, seqData: Dict<string>, results: Dict<seq<Proba>>,
                                       cutoff: int, p: nat, i: nat, j: nat)
    requires ScanInput(catalog, seqData, results)
    requires j <= |results.keys|
    ensures forall h :: h in HitsAt(catalog, seqData, results, cutoff, p, i, j) ==>
      exists s: Site :: s.p == p && s.i == i && s.j < j && Recorded(catalog, seqData, results, cutoff, s, h)
    decreases j
  {
    if j > 0 {
      HitsAtSound(catalog, seqData, results, cutoff, p, i, j - 1);
      var last := Site(p, i, j - 1);
      forall h | h in HitsAt(catalog, seqData, results, cutoff, p, i, j)
        ensures exists s: Site :: s.p == p && s.i == i && s.j < j && Recorded(catalog, seqData, results, cutoff, s, h)
      {
        if h !in HitsAt(catalog, seqData, results, cutoff, p, i, j - 1) {
          assert h in HitsFor(catalog, seqData, results, cutoff, last);
          assert Recorded(catalog, seqData, results, cutoff, last, h);
        }
      }
    }
  }

  lemma {:induction false} HitsBelowSound(catalog: map<string, MotifDef>, seqData: Dict<string>, results: Dict<seq<Proba>>,
                                          cutoff: int, p: nat, n: nat)
    requires ScanInput(catalog, seqData, results)
    ensures forall h :: h in HitsBelow(catalog, seqData, results, cutoff, p, n) ==>
      exists s: Site :: s.p == p && s.i < n && Recorded(catalog, seqData, results, cutoff, s, h)
    decreases n
  {
    if n > 0 {
      HitsBelowSound(catalog, seqData, results, cutoff, p, n - 1);
      HitsAtSound(catalog, seqData, results, cutoff, p, n - 1, |results.keys|);
    }
  }

  lemma {:induction false} HitsUpToSound(catalog: map<string, MotifDef>, seqData: Dict<string>, results: Dict<seq<Proba>>,
                                         cutoff: int, p: nat)
    requires ScanInput(catalog, seqData, results)
    requires p <= |seqData.keys|
    ensures forall h :: h in HitsUpTo(catalog, seqData, results, cutoff, p) ==>
      exists s: Site :: s.p < p && Recorded(catalog, seqData, results, cutoff, s, h)
    decreases p
  {
    if p > 0 {
      HitsUpToSound(catalog, seqData, results, cutoff, p - 1);
      HitsBelowSound(catalog, seqData, results, cutoff, p - 1, |seqData.values[seqData.keys[p - 1]]|);
    }
  }

  /* ---------- what a record holds ---------- */

  /// With the catalog's five-residue windows, a record names its protein and
  /// motif, numbers the residue from 1, carries a probability at or above
  /// the cutoff, and quotes exactly five residues before the motif, the
  /// motif's own residues and five residues after it.
  lemma RecordShape(seqData: Dict<string>, results: Dict<seq<Proba>>, cutoff: int, s: Site, h: Hit)
    requires ScanInput(AllMotifs(), seqData, results)
    requires Recorded(AllMotifs(), seqData, results, cutoff, s, h)
    ensures h.protein == seqData.keys[s.p] && h.motif == results.keys[s.j]
    ensures h.resId == s.i + 1 && h.probability >= cutoff
    ensures var sq := seqData.values[h.protein];
      var span := AllMotifs()[h.motif].motifSpan;
      && 5 <= s.i && s.i + span + 5 < |sq|
      && h.left == sq[s.i - 5..s.i]
      && h.motifSeq == sq[s.i..s.i + span]
      && h.right == sq[s.i + span..s.i + span + 5]
  {
    CatalogShape();
    var sq := seqData.values[h.protein];
    var span := AllMotifs()[h.motif].motifSpan;
    PySliceEdges(sq, s.i - 5, s.i);
    PySliceEdges(sq, s.i, s.i + span);
    PySliceEdges(sq, s.i + span, s.i + span + 5);
  }

  /* ---------- the probabilities come from the right rows ---------- */

  /// `results[motif]` holds one classifier output per row of
  /// `generateXmat`'s matrix for that motif, in row order.
  ghost predicate Predicted(fd: FeaturesData, results: Dict<seq<Proba>>, classify: (string, Vector) -> Proba)
    requires Aligned(fd)
  {
    AlignedIsReadable(fd);
    && results.HasKeys()
    && (forall j :: 0 <= j < |results.keys| ==> results.keys[j] in AllMotifs())
    && (forall j :: 0 <= j < |results.keys| ==>
          |results.values[results.keys[j]]| == |Xmat(fd, AllMotifs()[results.keys[j]])|)
    && (forall j, k :: 0 <= j < |results.keys| && 0 <= k < |results.values[results.keys[j]]| ==>
          results.values[results.keys[j]][k] == classify(results.keys[j], Xmat(fd, AllMotifs()[results.keys[j]])[k]))
  }

  /// Predictions over `generateXmat`'s matrices are valid scan input, and
  /// the probability the scan reads for a site is the classifier's output on
  /// exactly the window of that protein, residue and motif: the counters
  /// replay the matrix's row order.
  lemma PipelineRows(fd: FeaturesData, results: Dict<seq<Proba>>, classify: (string, Vector) -> Proba, s: Site)
    requires Aligned(fd)
    requires Predicted(fd, results, classify)
    ensures ScanInput(AllMotifs(), fd.seqData, results)
    ensures SiteIn(AllMotifs(), fd.seqData, results, s) ==>
      var prot := fd.seqData.keys[s.p];
      var motif := results.keys[s.j];
      var m := AllMotifs()[motif];
      && s.i + m.motifSpan + m.windRight < |fd.hmmData.values[prot]|
      && ProbAt(AllMotifs(), fd.seqData, results, s)
           == classify(motif, Window(fd.hmmData.values[prot], m, s.i)).positive
  {
    AlignedIsReadable(fd);
    forall j | 0 <= j < |results.keys|
      ensures |results.values[results.keys[j]]| >= TotalRows(fd.seqData, AllMotifs()[results.keys[j]])
    {
      XmatLength(fd, AllMotifs()[results.keys[j]]);
    }
    if SiteIn(AllMotifs(), fd.seqData, results, s) {
      var motif := results.keys[s.j];
      var m := AllMotifs()[motif];
      XmatRowAt(fd, m, s.p, s.i);
    }
  }
}
