// `annotate` (nlrexpress.py): reads the hit table back, and for every
// protein labels its hits, in residue order, with the family of their
// motif: CC, NBS, TIR or LRR. A hit it cannot label raises an exception
// naming the residue and the protein, which ends the whole run.

module Annotate {
  import opened Common
  import opened Catalog
  import opened Scan
  import opened ScanProperties
  import opened ScanComplete

  /// The columns of a hit-table row that `annotate` reads. `probability` is
  /// the table's percentage column, in hundredths of a percent (the unit of
  /// `Scan.Prob`, so a record's value is carried over unchanged).
  datatype Row = Row(protein: string, resId: int, motif: string, probability: int)

  datatype Label = CC | NBS | TIR | LRR

  /// What the exception reports: the residue and the protein.
  datatype Unknown = Unknown(resId: int, protein: string)

  const CCMotifs: seq<string> := ["extEDVID"]
  const NBSMotifs: seq<string> := ["VG", "P-loop", "RNSB-A", "RNSB-B", "RNSB-C", "RNSB-D", "Walker-B", "GLPL", "MHD"]
  const TIRMotifs: seq<string> := ["bA", "aA", "bC", "aC", "bDaD1", "aD3"]
  const LRRMotifs: seq<string> := ["LxxLxL"]

  /// `threshold = 0.8`, compared with the percentage column: 0.8 percent,
  /// that is 80 hundredths of a percent.
  const Threshold: int := 80

  /// The motif list of each family.
  function Family(l: Label): seq<string> {
    match l
    case CC => CCMotifs
    case NBS => NBSMotifs
    case TIR => TIRMotifs
    case LRR => LRRMotifs
  }

  /// The `if`/`elif` chain for one row; `None` is the `else` that raises.
  function Classify(r: Row): Option<Label> {
    if r.motif in CCMotifs && r.probability >= Threshold then Some(CC)
    else if r.motif in NBSMotifs && r.probability >= Threshold then Some(NBS)
    else if r.motif in TIRMotifs && r.probability >= Threshold then Some(TIR)
    else if r.motif in LRRMotifs && r.probability >= Threshold then Some(LRR)
    else None
  }

  /* ---------- the families ---------- */

  /// The four family lists share no motif, and together they name exactly
  /// the motifs of `allMotifs`.
  lemma FamiliesPartitionCatalog()
    ensures forall l1: Label, l2: Label, m :: m in Family(l1) && m in Family(l2) ==> l1 == l2
    ensures forall m :: m in AllMotifs() <==>
      m in CCMotifs || m in NBSMotifs || m in TIRMotifs || m in LRRMotifs
  {
    CatalogShape();
  }

  /// A row gets label `l` exactly when its motif is in `l`'s family and its
  /// probability reaches the threshold; it raises exactly when the
  /// probability is below the threshold or the motif is not in the catalog.
  lemma ClassifyMeaning(r: Row)
    ensures forall l :: Classify(r) == Some(l) <==> r.motif in Family(l) && r.probability >= Threshold
    ensures Classify(r).None? <==> r.probability < Threshold || r.motif !in AllMotifs()
  {
    FamiliesPartitionCatalog();
  }

  /* ---------- selecting and ordering a protein's rows ---------- */

  /// `df[df["protein"] == protein]`: the rows of one protein, in table order.
  function RowsOf(rows: seq<Row>, protein: string): seq<Row>
    decreases |rows|
  {
    if |rows| == 0 then []
    else
      RowsOf(rows[..|rows| - 1], protein)
        + (if rows[|rows| - 1].protein == protein then [rows[|rows| - 1]] else [])
  }

  /// The selection keeps every row of the protein, as often as it occurs,
  /// and nothing else.
  lemma {:induction false} RowsOfCounts(rows: seq<Row>, protein: string)
    ensures forall r :: (multiset(RowsOf(rows, protein))[r]
                         == if r.protein == protein then multiset(rows)[r] else 0)
    decreases |rows|
  {
    if |rows| > 0 {
      var last := |rows| - 1;
      RowsOfCounts(rows[..last], protein);
      assert rows == rows[..last] + [rows[last]];
    }
  }

  predicate SortedByResId(rows: seq<Row>) {
    forall a, b :: 0 <= a < b < |rows| ==> rows[a].resId <= rows[b].resId
  }

  /// Places `r` before the first row with a larger residue number.
  function Insert(r: Row, rows: seq<Row>): seq<Row>
    decreases |rows|
  {
    if |rows| == 0 then [r]
    else if r.resId <= rows[0].resId then [r] + rows
    else [rows[0]] + Insert(r, rows[1..])
  }

  /// `sort_values(by=["res_id"])`, as an insertion sort.
  function SortByResId(rows: seq<Row>): seq<Row>
    decreases |rows|
  {
    if |rows| == 0 then [] else Insert(rows[0], SortByResId(rows[1..]))
  }

  /// Inserting adds `r` and keeps every row, as often as it occurs.
  lemma {:induction false} InsertPermutes(r: Row, rows: seq<Row>)
    ensures multiset(Insert(r, rows)) == multiset(rows) + multiset{r}
    decreases |rows|
  {
    if |rows| > 0 && r.resId > rows[0].resId {
      InsertPermutes(r, rows[1..]);
      assert rows == [rows[0]] + rows[1..];
    }
  }

  /// A lower bound on the residue numbers of `r` and `rows` bounds the
  /// result of the insertion too.
  lemma {:induction false} InsertAbove(r: Row, rows: seq<Row>, lo: int)
    requires r.resId >= lo
    requires forall k :: 0 <= k < |rows| ==> rows[k].resId >= lo
    ensures forall k :: 0 <= k < |Insert(r, rows)| ==> Insert(r, rows)[k].resId >= lo
    decreases |rows|
  {
    if |rows| > 0 && r.resId > rows[0].resId {
      InsertAbove(r, rows[1..], lo);
      assert forall k :: 1 <= k < |Insert(r, rows)| ==> Insert(r, rows)[k] == Insert(r, rows[1..])[k - 1];
    }
  }

  lemma {:induction false} InsertSorted(r: Row, rows: seq<Row>)
    requires SortedByResId(rows)
    ensures SortedByResId(Insert(r, rows))
    ensures multiset(Insert(r, rows)) == multiset(rows) + multiset{r}
    ensures |Insert(r, rows)| > 0
    ensures |rows| > 0 ==> Insert(r, rows)[0] == if r.resId <= rows[0].resId then r else rows[0]
    decreases |rows|
  {
    InsertPermutes(r, rows);
    if |rows| > 0 && r.resId > rows[0].resId {
      InsertSorted(r, rows[1..]);
      var tail := Insert(r, rows[1..]);
      InsertAbove(r, rows[1..], rows[0].resId);
      forall a, b | 0 <= a < b < |[rows[0]] + tail|
        ensures ([rows[0]] + tail)[a].resId <= ([rows[0]] + tail)[b].resId
      {
        assert ([rows[0]] + tail)[b] == tail[b - 1];
        if a > 0 {
          assert ([rows[0]] + tail)[a] == tail[a - 1];
        }
      }
    }
  }

  /// The sorted rows are in residue order and are the same rows.
  lemma SortByResIdSpec(rows: seq<Row>)
    ensures SortedByResId(SortByResId(rows))
    ensures multiset(SortByResId(rows)) == multiset(rows)
  {
    SortByResIdSorted(rows);
    SortByResIdPermutes(rows);
  }

  lemma {:induction false} SortByResIdSorted(rows: seq<Row>)
    ensures SortedByResId(SortByResId(rows))
    decreases |rows|
  {
    if |rows| > 0 {
      SortByResIdSorted(rows[1..]);
      InsertSorted(rows[0], SortByResId(rows[1..]));
    }
  }

  lemma {:induction false} SortByResIdPermutes(rows: seq<Row>)
    ensures multiset(SortByResId(rows)) == multiset(rows)
    decreases |rows|
  {
    if |rows| > 0 {
      SortByResIdPermutes(rows[1..]);
      InsertPermutes(rows[0], SortByResId(rows[1..]));
      assert rows == [rows[0]] + rows[1..];
    }
  }

  /// `df['protein'].unique()`: each protein once, in order of first
  /// appearance.
  function Proteins(rows: seq<Row>): seq<string>
    decreases |rows|
  {
    if |rows| == 0 then []
    else
      var before := Proteins(rows[..|rows| - 1]);
      before + (if rows[|rows| - 1].protein in before then [] else [rows[|rows| - 1].protein])
  }

  /// Every protein of the table is listed, once, and nothing else is.
  lemma {:induction false} ProteinsSpec(rows: seq<Row>)
    ensures Distinct(Proteins(rows))
    ensures forall p :: p in Proteins(rows) <==> exists k :: 0 <= k < |rows| && rows[k].protein == p
    decreases |rows|
  {
    if |rows| > 0 {
      var last := |rows| - 1;
      ProteinsSpec(rows[..last]);
      var before := Proteins(rows[..last]);
      var all := Proteins(rows);
      if all != before {
        assert all[..|all| - 1] == before;
      }
      forall p | p in Proteins(rows)
        ensures exists k :: 0 <= k < |rows| && rows[k].protein == p
      {
        if p in before {
          var k :| 0 <= k < |rows[..last]| && rows[..last][k].protein == p;
          assert rows[k].protein == p;
        }
      }
      forall p | exists k :: 0 <= k < |rows| && rows[k].protein == p
        ensures p in Proteins(rows)
      {
        var k :| 0 <= k < |rows| && rows[k].protein == p;
        if k < last {
          assert rows[..last][k].protein == p;
        }
      }
    }
  }

  /* ---------- labelling one protein ---------- */

  /// The labels of `sorted`, row by row, or the exception of the first row
  /// that cannot be labelled.
  function Labels(protein: string, sorted: seq<Row>): Result<seq<Label>, Unknown>
    decreases |sorted|
  {
    if |sorted| == 0 then Ok([])
    else
      var last := sorted[|sorted| - 1];
      match Labels(protein, sorted[..|sorted| - 1])
      case Err(u) => Err(u)
      case Ok(ls) =>
        match Classify(last)
        case None => Err(Unknown(last.resId, protein))
        case Some(l) => Ok(ls + [l])
  }

  /// Labelling succeeds exactly when every row has a label; it then gives
  /// one label per row (no merging of neighbours), and otherwise reports the
  /// first row that has none.
  lemma LabelsMeaning(protein: string, sorted: seq<Row>)
    ensures Labels(protein, sorted).Ok? <==> forall k :: 0 <= k < |sorted| ==> Classify(sorted[k]).Some?
    ensures Labels(protein, sorted).Ok? ==>
      && |Labels(protein, sorted).value| == |sorted|
      && forall k :: 0 <= k < |sorted| ==> Labels(protein, sorted).value[k] == Classify(sorted[k]).value
    ensures Labels(protein, sorted).Err? ==>
      exists k :: 0 <= k < |sorted| && Classify(sorted[k]).None?
        && (forall l :: 0 <= l < k ==> Classify(sorted[l]).Some?)
        && Labels(protein, sorted).error == Unknown(sorted[k].resId, protein)
  {
    LabelsOk(protein, sorted);
    LabelsErr(protein, sorted);
  }

  /// A successful labelling has one label per row, each the row's own.
  lemma {:induction false} LabelsOk(protein: string, sorted: seq<Row>)
    ensures Labels(protein, sorted).Ok? ==>
      && |Labels(protein, sorted).value| == |sorted|
      && forall k :: 0 <= k < |sorted| ==>
           Classify(sorted[k]).Some? && Labels(protein, sorted).value[k] == Classify(sorted[k]).value
    decreases |sorted|
  {
    if |sorted| > 0 {
      var last := |sorted| - 1;
      var init := sorted[..last];
      LabelsOk(protein, init);
      assert forall k :: 0 <= k < last ==> init[k] == sorted[k];
      match Labels(protein, init)
      case Err(u) =>
        assert Labels(protein, sorted) == Err(u);
      case Ok(ls) =>
        match Classify(sorted[last])
        case None =>
          assert Labels(protein, sorted) == Err(Unknown(sorted[last].resId, protein));
        case Some(lab) =>
          assert Labels(protein, sorted) == Ok(ls + [lab]);
          assert forall k :: 0 <= k < last ==> (ls + [lab])[k] == ls[k];
    }
  }

  /// A failed labelling reports the first row that has no label.
  lemma {:induction false} LabelsErr(protein: string, sorted: seq<Row>)
    ensures Labels(protein, sorted).Err? ==>
      exists k :: 0 <= k < |sorted| && Classify(sorted[k]).None?
        && (forall l :: 0 <= l < k ==> Classify(sorted[l]).Some?)
        && Labels(protein, sorted).error == Unknown(sorted[k].resId, protein)
    decreases |sorted|
  {
    if |sorted| > 0 {
      var last := |sorted| - 1;
      var init := sorted[..last];
      LabelsErr(protein, init);
      assert forall k :: 0 <= k < last ==> init[k] == sorted[k];
      match Labels(protein, init)
      case Err(u) =>
        assert Labels(protein, sorted) == Err(u);
        var k :| 0 <= k < |init| && Classify(init[k]).None?
          && (forall l :: 0 <= l < k ==> Classify(init[l]).Some?)
          && u == Unknown(init[k].resId, protein);
        assert Classify(sorted[k]).None?;
      case Ok(ls) =>
        LabelsOk(protein, init);
        match Classify(sorted[last])
        case None =>
          assert Labels(protein, sorted) == Err(Unknown(sorted[last].resId, protein));
          assert forall l :: 0 <= l < last ==> Classify(sorted[l]).Some?;
        case Some(lab) =>
          assert Labels(protein, sorted) == Ok(ls + [lab]);
    }
  }

  /// Once a prefix raises, the whole list raises with the same exception.
  lemma {:induction false} LabelsKeepsError(protein: string, sorted: seq<Row>, n: nat)
    requires n <= |sorted|
    requires Labels(protein, sorted[..n]).Err?
    ensures Labels(protein, sorted) == Labels(protein, sorted[..n])
    decreases |sorted|
  {
    if n < |sorted| {
      var init := sorted[..|sorted| - 1];
      assert init[..n] == sorted[..n];
      LabelsKeepsError(protein, init, n);
    } else {
      assert sorted[..n] == sorted;
    }
  }

  /// What `annotate` computes for one protein: its rows sorted by residue,
  /// then labelled.
  function ProteinAnnotation(protein: string, rows: seq<Row>): Result<seq<Label>, Unknown> {
    Labels(protein, SortByResId(RowsOf(rows, protein)))
  }

  /// The body of `annotate`'s loop for one protein.
  method AnnotateProtein(protein: string, rows: seq<Row>) returns (r: Result<seq<Label>, Unknown>)
    ensures r == ProteinAnnotation(protein, rows)
  {
    var subset := SortByResId(RowsOf(rows, protein));
    var annotation: seq<Label> := [];
    var i := 0;
    while i < |subset|
      invariant 0 <= i <= |subset|
      invariant Labels(protein, subset[..i]) == Ok(annotation)
    {
      var row := subset[i];
      assert subset[..i + 1][..i] == subset[..i];
      if row.motif in CCMotifs && row.probability >= Threshold {
        annotation := annotation + [CC];
      } else if row.motif in NBSMotifs && row.probability >= Threshold {
        annotation := annotation + [NBS];
      } else if row.motif in TIRMotifs && row.probability >= Threshold {
        annotation := annotation + [TIR];
      } else if row.motif in LRRMotifs && row.probability >= Threshold {
        annotation := annotation + [LRR];
      } else {
        LabelsKeepsError(protein, subset, i + 1);
        return Err(Unknown(row.resId, protein));
      }
      i := i + 1;
    }
    assert subset[..i] == subset;
    r := Ok(annotation);
  }

  /* ---------- the whole table ---------- */

  /// `annotate`: the labels of each protein in order of first appearance,
  /// until a protein raises; the labels printed before that stay printed.
  method AnnotateAll(rows: seq<Row>) returns (printed: seq<seq<Label>>, failure: Option<Unknown>)
    ensures |printed| <= |Proteins(rows)|
    ensures forall k :: 0 <= k < |printed| ==> ProteinAnnotation(Proteins(rows)[k], rows) == Ok(printed[k])
    ensures failure.None? ==> |printed| == |Proteins(rows)|
    ensures failure.Some? ==>
      |printed| < |Proteins(rows)| && ProteinAnnotation(Proteins(rows)[|printed|], rows) == Err(failure.value)
  {
    var proteins := Proteins(rows);
    printed := [];
    var k := 0;
    while k < |proteins|
      invariant 0 <= k <= |proteins| && |printed| == k
      invariant forall q :: 0 <= q < k ==> ProteinAnnotation(proteins[q], rows) == Ok(printed[q])
    {
      var r := AnnotateProtein(proteins[k], rows);
      if r.Err? {
        return printed, Some(r.error);
      }
      PrintedGrows(proteins, rows, printed, r.value);
      printed := printed + [r.value];
      k := k + 1;
    }
    failure := None;
  }

  /// Printing the labels of the next protein extends what was printed.
  lemma PrintedGrows(proteins: seq<string>, rows: seq<Row>, printed: seq<seq<Label>>, next: seq<Label>)
    requires |printed| < |proteins|
    requires forall q :: 0 <= q < |printed| ==> ProteinAnnotation(proteins[q], rows) == Ok(printed[q])
    requires ProteinAnnotation(proteins[|printed|], rows) == Ok(next)
    ensures forall q :: 0 <= q < |printed| + 1 ==> ProteinAnnotation(proteins[q], rows) == Ok((printed + [next])[q])
  {
    forall q | 0 <= q < |printed| + 1
      ensures ProteinAnnotation(proteins[q], rows) == Ok((printed + [next])[q])
    {
      if q < |printed| {
        assert (printed + [next])[q] == printed[q];
      }
    }
  }

  /* ---------- annotating the scan's own table ---------- */

  /// The table `write_output` writes, as `annotate` reads it back.
  function CsvRows(hits: seq<Hit>): (rows: seq<Row>)
    ensures |rows| == |hits|
  {
    seq(|hits|, k requires 0 <= k < |hits| => Row(hits[k].protein, hits[k].resId, hits[k].motif, hits[k].probability))
  }

  /// Every row of a scan over `allMotifs` with a cutoff at or above the
  /// threshold can be labelled, so `annotate` never raises on it and gives
  /// each protein one label per record.
  lemma ScanTableAnnotates(seqData: Dict<string>, results: Dict<seq<Proba>>, cutoff: int, protein: string)
    requires ScanInput(AllMotifs(), seqData, results)
    requires cutoff >= Threshold
    ensures var rows := CsvRows(ScanHits(AllMotifs(), seqData, results, cutoff));
      && ProteinAnnotation(protein, rows).Ok?
      && |ProteinAnnotation(protein, rows).value| == |RowsOf(rows, protein)|
  {
    var hits := ScanHits(AllMotifs(), seqData, results, cutoff);
    var rows := CsvRows(hits);
    ScanHitsExact(AllMotifs(), seqData, results, cutoff);
    forall k | 0 <= k < |rows|
      ensures Classify(rows[k]).Some?
    {
      assert hits[k] in hits;
      var s: Site :| Recorded(AllMotifs(), seqData, results, cutoff, s, hits[k]);
      ClassifyMeaning(rows[k]);
    }
    var sorted := SortByResId(RowsOf(rows, protein));
    RowsOfCounts(rows, protein);
    SortByResIdSpec(RowsOf(rows, protein));
    forall k | 0 <= k < |sorted|
      ensures Classify(sorted[k]).Some?
    {
      assert sorted[k] in multiset(rows);
      var c :| 0 <= c < |rows| && rows[c] == sorted[k];
    }
    LabelsMeaning(protein, sorted);
    assert |sorted| == |multiset(sorted)| == |RowsOf(rows, protein)|;
  }

  /// The pipeline writes its table with the default cutoff of 20 percent,
  /// well above the 0.8 percent labelling threshold, so annotating that
  /// table never fails.
  lemma DefaultScanAnnotates(seqData: Dict<string>, results: Dict<seq<Proba>>, protein: string)
    requires ScanInput(AllMotifs(), seqData, results)
    ensures ProteinAnnotation(protein, CsvRows(ScanHits(AllMotifs(), seqData, results, DefaultCutoff))).Ok?
  {
    ScanTableAnnotates(seqData, results, DefaultCutoff, protein);
  }
}
