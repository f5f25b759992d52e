/// The motif scan of `write_output`: it walks every protein, every residue
/// and every predicted motif, replays the row order of `generateXmat` with
/// one counter per motif, and records each anchor whose predicted
/// probability reaches the cutoff.
module Scan {
  import opened Common
  import opened Catalog
  import opened Features

  /// A probability in units of 1e-4, i.e. the value of `round(p, 4)`; the
  /// same integer reads as hundredths of a percent.
  type Prob = x: int | 0 <= x <= 10000

  /// One row of `predict_proba`: the probability of "not this motif" and of
  /// "this motif".
  datatype Proba = Proba(negative: Prob, positive: Prob)

  /// The default `cutoff=0.2`.
  const DefaultCutoff: Prob := 2000

  /// One output record; `probability` is in hundredths of a percent.
  datatype Hit = Hit(
    protein: string, resId: int, motif: string, probability: Prob,
    left: string, motifSeq: string, right: string)

  /// The seven parallel lists that become the columns of the output table.
  datatype Columns = Columns(
    protein: seq<string>, resId: seq<int>, motifId: seq<string>, probability: seq<Prob>,
    negative5: seq<string>, motifSeq: seq<string>, positive5: seq<string>)

  /// The columns holding `hits` row by row: each record appends one entry
  /// to each of the seven lists, in order.
  function Tabulate(hits: seq<Hit>): Columns
    decreases |hits|
  {
    if |hits| == 0 then Columns([], [], [], [], [], [], [])
    else AddRow(Tabulate(hits[..|hits| - 1]), hits[|hits| - 1])
  }

  /// The columns with one record written: each list gets the matching field.
  function AddRow(c: Columns, h: Hit): Columns {
    Columns(c.protein + [h.protein], c.resId + [h.resId], c.motifId + [h.motif],
      c.probability + [h.probability], c.negative5 + [h.left],
      c.motifSeq + [h.motifSeq], c.positive5 + [h.right])
  }

  /// The seven columns grow in lockstep: each has one entry per record, and
  /// entry `k` of each is the matching field of record `k`.
  lemma {:induction false} TabulateLockstep(hits: seq<Hit>)
    ensures var c := Tabulate(hits);
      && |c.protein| == |hits| && |c.resId| == |hits| && |c.motifId| == |hits|
      && |c.probability| == |hits| && |c.negative5| == |hits|
      && |c.motifSeq| == |hits| && |c.positive5| == |hits|
    ensures forall k :: 0 <= k < |hits| ==>
      && Tabulate(hits).protein[k] == hits[k].protein && Tabulate(hits).resId[k] == hits[k].resId
      && Tabulate(hits).motifId[k] == hits[k].motif && Tabulate(hits).probability[k] == hits[k].probability
      && Tabulate(hits).negative5[k] == hits[k].left && Tabulate(hits).motifSeq[k] == hits[k].motifSeq
      && Tabulate(hits).positive5[k] == hits[k].right
    decreases |hits|
  {
    if |hits| > 0 {
      var init := hits[..|hits| - 1];
      TabulateLockstep(init);
      forall k | 0 <= k < |hits| - 1
        ensures hits[k] == init[k]
      {
      }
    }
  }

  /// Appending a record appends one entry to every column.
  lemma TabulateSnoc(hits: seq<Hit>, h: Hit)
    ensures var c := Tabulate(hits);
      Tabulate(hits + [h]) == Columns(c.protein + [h.protein], c.resId + [h.resId],
        c.motifId + [h.motif], c.probability + [h.probability], c.negative5 + [h.left],
        c.motifSeq + [h.motifSeq], c.positive5 + [h.right])
    ensures Tabulate(hits + [h]) == AddRow(Tabulate(hits), h)
  {
    assert (hits + [h])[..|hits|] == hits;
  }

  /* ---------- Python slicing ---------- */

  /// A slice bound as Python reads it: negative counts from the end, and
  /// the result is clamped to `0 .. n`.
  function SliceBound(k: int, n: nat): (r: nat)
    ensures r <= n
    ensures 0 <= k <= n ==> r == k
  {
    if k < 0 then (if k + n < 0 then 0 else k + n)
    else if k > n then n
    else k
  }

  /// Python's `s[a:b]`.
  function PySlice(s: string, a: int, b: int): (r: string)
    ensures |r| <= |s|
    ensures 0 <= a <= b <= |s| ==> r == s[a..b]
    ensures 0 <= b <= a ==> r == []
  {
    var lo := SliceBound(a, |s|);
    var hi := SliceBound(b, |s|);
    if lo < hi then s[lo..hi] else []
  }

  /// A slice that starts before the end and overruns it stops at the end;
  /// a negative start counts from the end, so the slice is empty whenever
  /// that position is at or past the stop (`s[-1:2]` of a long string).
  lemma PySliceEdges(s: string, a: int, b: int)
    ensures 0 <= a <= |s| <= b ==> PySlice(s, a, b) == s[a..]
    ensures a < 0 && 0 <= b < |s| && |s| + a >= b ==> PySlice(s, a, b) == []
  {
  }

  /* ---------- what the scan reads ---------- */

  /// What `write_output` needs of its inputs: every protein and every
  /// predicted motif it visits has an entry, every predicted motif is in the
  /// catalog, and each has at least one probability row per valid anchor.
  predicate ScanInput(catalog: map<string, MotifDef>, seqData: Dict<string>, results: Dict<seq<Proba>>) {
    && seqData.HasKeys()
    && results.HasKeys()
    && (forall j :: 0 <= j < |results.keys| ==> results.keys[j] in catalog)
    && (forall j :: 0 <= j < |results.keys| ==>
          |results.values[results.keys[j]]| >= TotalRows(seqData, catalog[results.keys[j]]))
  }

  /// Row of `generateXmat`'s matrix that belongs to anchor `i` of protein `p`.
  function RowIndex(seqData: Dict<string>, m: MotifDef, p: nat, i: int): int
    requires seqData.HasKeys()
    requires p < |seqData.keys|
  {
    RowsBefore(seqData, m, p) + (i - m.windLeft)
  }

  /// The row of a valid anchor lies inside the rows of its own protein, and
  /// so below the total.
  lemma RowIndexInBounds(seqData: Dict<string>, m: MotifDef, p: nat, i: int)
    requires seqData.HasKeys()
    requires p < |seqData.keys|
    requires ValidAnchor(m, |seqData.values[seqData.keys[p]]|, i)
    ensures RowsBefore(seqData, m, p) <= RowIndex(seqData, m, p, i) < RowsBefore(seqData, m, p + 1)
    ensures RowIndex(seqData, m, p, i) < TotalRows(seqData, m)
  {
    RowsBeforeMonotone(seqData, m, p + 1, |seqData.keys|);
  }

  /// A (protein, residue, motif) triple, by protein index, residue index and
  /// index of the motif in `results`.
  datatype Site = Site(p: nat, i: nat, j: nat)

  /// The site names an existing protein and motif and a valid anchor.
  predicate SiteIn(catalog: map<string, MotifDef>, seqData: Dict<string>, results: Dict<seq<Proba>>, s: Site)
    requires ScanInput(catalog, seqData, results)
  {
    && s.p < |seqData.keys|
    && s.j < |results.keys|
    && ValidAnchor(catalog[results.keys[s.j]], |seqData.values[seqData.keys[s.p]]|, s.i)
  }

  /// The probability the scan reads for a site: column 1 of the row that
  /// `generateXmat` produced for it. On scan input that row always exists
  /// (`RowIndexInBounds`), so the fallback 0 is never read.
  function ProbAt(catalog: map<string, MotifDef>, seqData: Dict<string>, results: Dict<seq<Proba>>, s: Site): Prob
    requires ScanInput(catalog, seqData, results)
    requires SiteIn(catalog, seqData, results, s)
  {
    var motif := results.keys[s.j];
    var rows := results.values[motif];
    var r := RowIndex(seqData, catalog[motif], s.p, s.i);
    if 0 <= r < |rows| then rows[r].positive else 0
  }

  /// The scan writes a record for the site.
  predicate Emits(catalog: map<string, MotifDef>, seqData: Dict<string>, results: Dict<seq<Proba>>, cutoff: int, s: Site)
    requires ScanInput(catalog, seqData, results)
  {
    SiteIn(catalog, seqData, results, s) && ProbAt(catalog, seqData, results, s) >= cutoff
  }

  /// The record written for a site: 1-based residue number, five residues
  /// before, the motif's residues, five residues after.
  function HitAt(catalog: map<string, MotifDef>, seqData: Dict<string>, results: Dict<seq<Proba>>, s: Site): Hit
    requires ScanInput(catalog, seqData, results)
    requires SiteIn(catalog, seqData, results, s)
  {
    var prot := seqData.keys[s.p];
    var sq := seqData.values[prot];
    var motif := results.keys[s.j];
    var span := catalog[motif].motifSpan;
    Hit(prot, s.i + 1, motif, ProbAt(catalog, seqData, results, s),
      PySlice(sq, s.i - 5, s.i), PySlice(sq, s.i, s.i + span),
      PySlice(sq, s.i + span, s.i + span + 5))
  }

  /// The record written for a site, if any.
  function HitsFor(catalog: map<string, MotifDef>, seqData: Dict<string>, results: Dict<seq<Proba>>,
                   cutoff: int, s: Site): seq<Hit>
    requires ScanInput(catalog, seqData, results)
  {
    if Emits(catalog, seqData, results, cutoff, s) then [HitAt(catalog, seqData, results, s)] else []
  }

  /// Records written at residue `i` of protein `p` for the first `j` motifs
  /// of `results`.
  function HitsAt(catalog: map<string, MotifDef>, seqData: Dict<string>, results: Dict<seq<Proba>>,
                  cutoff: int, p: nat, i: nat, j: nat): seq<Hit>
    requires ScanInput(catalog, seqData, results)
    requires j <= |results.keys|
    decreases j
  {
    if j == 0 then []
    else HitsAt(catalog, seqData, results, cutoff, p, i, j - 1) + HitsFor(catalog, seqData, results, cutoff, Site(p, i, j - 1))
  }

  /// Records written at residues `0 .. n-1` of protein `p`.
  function HitsBelow(catalog: map<string, MotifDef>, seqData: Dict<string>, results: Dict<seq<Proba>>, cutoff: int,
                     p: nat, n: nat): seq<Hit>
    requires ScanInput(catalog, seqData, results)
    decreases n
  {
    if n == 0 then []
    else HitsBelow(catalog, seqData, results, cutoff, p, n - 1) + HitsAt(catalog, seqData, results, cutoff, p, n - 1, |results.keys|)
  }

  /// Records written for the first `p` proteins.
  function HitsUpTo(catalog: map<string, MotifDef>, seqData: Dict<string>, results: Dict<seq<Proba>>, cutoff: int, p: nat): seq<Hit>
    requires ScanInput(catalog, seqData, results)
    requires p <= |seqData.keys|
    decreases p
  {
    if p == 0 then []
    else
      HitsUpTo(catalog, seqData, results, cutoff, p - 1)
        + HitsBelow(catalog, seqData, results, cutoff, p - 1, |seqData.values[seqData.keys[p - 1]]|)
  }

  /// The records `write_output` writes, in the order it writes them.
  function ScanHits(catalog: map<string, MotifDef>, seqData: Dict<string>, results: Dict<seq<Proba>>, cutoff: int): seq<Hit>
    requires ScanInput(catalog, seqData, results)
  {
    HitsUpTo(catalog, seqData, results, cutoff, |seqData.keys|)
  }

  /// One more motif at residue `i` appends its record, if any.
  lemma HitsAtNext(catalog: map<string, MotifDef>, seqData: Dict<string>, results: Dict<seq<Proba>>, cutoff: int, p: nat, i: nat, j: nat, done: seq<Hit>)
    requires ScanInput(catalog, seqData, results)
    requires j < |results.keys|
    ensures done + HitsAt(catalog, seqData, results, cutoff, p, i, j) + HitsFor(catalog, seqData, results, cutoff, Site(p, i, j))
      == done + HitsAt(catalog, seqData, results, cutoff, p, i, j + 1)
  {
  }

  /// One more residue of protein `p` appends its records to those before.
  lemma HitsBelowNext(catalog: map<string, MotifDef>, seqData: Dict<string>, results: Dict<seq<Proba>>, cutoff: int, p: nat, i: nat, done: seq<Hit>)
    requires ScanInput(catalog, seqData, results)
    ensures done + HitsBelow(catalog, seqData, results, cutoff, p, i) + HitsAt(catalog, seqData, results, cutoff, p, i, |results.keys|)
      == done + HitsBelow(catalog, seqData, results, cutoff, p, i + 1)
  {
  }

  /// The table after the scan visits a site: its record appended when the
  /// site emits one, the table unchanged otherwise.
  function VisitSite(catalog: map<string, MotifDef>, seqData: Dict<string>, results: Dict<seq<Proba>>, cutoff: int,
                     c: Columns, s: Site): Columns
    requires ScanInput(catalog, seqData, results)
  {
    if Emits(catalog, seqData, results, cutoff, s) then AddRow(c, HitAt(catalog, seqData, results, s)) else c
  }

  /// The table after the scan visits the first `j` motifs at residue `i` of
  /// protein `p`, starting from `c`.
  function VisitMotifs(catalog: map<string, MotifDef>, seqData: Dict<string>, results: Dict<seq<Proba>>, cutoff: int,
                       c: Columns, p: nat, i: nat, j: nat): Columns
    requires ScanInput(catalog, seqData, results)
    requires j <= |results.keys|
    decreases j
  {
    if j == 0 then c
    else VisitSite(catalog, seqData, results, cutoff, VisitMotifs(catalog, seqData, results, cutoff, c, p, i, j - 1), Site(p, i, j - 1))
  }

  /// Visiting a site writes the site's record, if any, after those already
  /// in the table.
  lemma VisitSiteTabulates(catalog: map<string, MotifDef>, seqData: Dict<string>, results: Dict<seq<Proba>>, cutoff: int,
                           hits: seq<Hit>, s: Site)
    requires ScanInput(catalog, seqData, results)
    ensures VisitSite(catalog, seqData, results, cutoff, Tabulate(hits), s)
      == Tabulate(hits + HitsFor(catalog, seqData, results, cutoff, s))
  {
    if Emits(catalog, seqData, results, cutoff, s) {
      TabulateSnoc(hits, HitAt(catalog, seqData, results, s));
    } else {
      assert hits + [] == hits;
    }
  }

  /// Visiting the motifs of a residue writes exactly that residue's records
  /// after those already in the table.
  lemma {:induction false} VisitMotifsTabulates(catalog: map<string, MotifDef>, seqData: Dict<string>, results: Dict<seq<Proba>>, cutoff: int,
                                                hits0: seq<Hit>, p: nat, i: nat, j: nat)
    requires ScanInput(catalog, seqData, results)
    requires j <= |results.keys|
    ensures VisitMotifs(catalog, seqData, results, cutoff, Tabulate(hits0), p, i, j)
      == Tabulate(hits0 + HitsAt(catalog, seqData, results, cutoff, p, i, j))
    decreases j
  {
    if j == 0 {
      assert hits0 + [] == hits0;
    } else {
      VisitMotifsTabulates(catalog, seqData, results, cutoff, hits0, p, i, j - 1);
      VisitSiteTabulates(catalog, seqData, results, cutoff, hits0 + HitsAt(catalog, seqData, results, cutoff, p, i, j - 1), Site(p, i, j - 1));
      HitsAtNext(catalog, seqData, results, cutoff, p, i, j - 1, hits0);
    }
  }

  /* ---------- the motif counters ---------- */

  /// The counters at the start of protein `p`: counter `k` has passed the
  /// rows of motif `results.keys[k]` of the first `p` proteins.
  function ProteinCounters(catalog: map<string, MotifDef>, seqData: Dict<string>, results: Dict<seq<Proba>>, p: nat): (c: seq<nat>)
    requires ScanInput(catalog, seqData, results)
    requires p <= |seqData.keys|
    ensures |c| == |results.keys|
  {
    seq(|results.keys|, k requires 0 <= k < |results.keys| => RowsBefore(seqData, catalog[results.keys[k]], p))
  }

  /// Counter `k` at residue `i` of protein `p` once the first `j` motifs
  /// have been visited there: the rows of the earlier proteins, then the
  /// anchors of this one below `i`, or up to `i` for a motif already visited.
  function CounterAt(catalog: map<string, MotifDef>, seqData: Dict<string>, results: Dict<seq<Proba>>, p: nat, i: nat, j: nat, k: nat): nat
    requires ScanInput(catalog, seqData, results)
    requires p < |seqData.keys| && k < |results.keys|
  {
    var m := catalog[results.keys[k]];
    RowsBefore(seqData, m, p) + AnchorsBelow(m, |seqData.values[seqData.keys[p]]|, if k < j then i + 1 else i)
  }

  /// The first `n` counters in that state.
  function CountersBelow(catalog: map<string, MotifDef>, seqData: Dict<string>, results: Dict<seq<Proba>>, p: nat, i: nat, j: nat, n: nat): seq<nat>
    requires ScanInput(catalog, seqData, results)
    requires p < |seqData.keys| && n <= |results.keys|
    decreases n
  {
    if n == 0 then [] else CountersBelow(catalog, seqData, results, p, i, j, n - 1) + [CounterAt(catalog, seqData, results, p, i, j, n - 1)]
  }

  /// All counters in that state.
  function ResidueCounters(catalog: map<string, MotifDef>, seqData: Dict<string>, results: Dict<seq<Proba>>, p: nat, i: nat, j: nat): seq<nat>
    requires ScanInput(catalog, seqData, results)
    requires p < |seqData.keys|
  {
    CountersBelow(catalog, seqData, results, p, i, j, |results.keys|)
  }

  /// Entry `k` of the counter list is counter `k`.
  lemma {:induction false} CountersBelowAt(catalog: map<string, MotifDef>, seqData: Dict<string>, results: Dict<seq<Proba>>, p: nat, i: nat, j: nat, n: nat)
    requires ScanInput(catalog, seqData, results)
    requires p < |seqData.keys| && n <= |results.keys|
    ensures |CountersBelow(catalog, seqData, results, p, i, j, n)| == n
    ensures forall k :: 0 <= k < n ==> CountersBelow(catalog, seqData, results, p, i, j, n)[k] == CounterAt(catalog, seqData, results, p, i, j, k)
    decreases n
  {
    if n > 0 {
      CountersBelowAt(catalog, seqData, results, p, i, j, n - 1);
    }
  }

  /// Before the first protein every counter is 0; after the last, counter
  /// `j` has passed every row of its motif.
  lemma ProteinCountersEnds(catalog: map<string, MotifDef>, seqData: Dict<string>, results: Dict<seq<Proba>>)
    requires ScanInput(catalog, seqData, results)
    ensures ProteinCounters(catalog, seqData, results, 0) == seq(|results.keys|, _ => 0)
    ensures forall j :: 0 <= j < |results.keys| ==>
      ProteinCounters(catalog, seqData, results, |seqData.keys|)[j] == TotalRows(seqData, catalog[results.keys[j]])
  {
    forall k | 0 <= k < |results.keys|
      ensures ProteinCounters(catalog, seqData, results, 0)[k] == 0
    {
    }
  }

  /// Before the first residue of a protein nothing of it has been counted.
  lemma ResidueCountersStart(catalog: map<string, MotifDef>, seqData: Dict<string>, results: Dict<seq<Proba>>, p: nat)
    requires ScanInput(catalog, seqData, results)
    requires p < |seqData.keys|
    ensures ResidueCounters(catalog, seqData, results, p, 0, 0) == ProteinCounters(catalog, seqData, results, p)
  {
    CountersBelowAt(catalog, seqData, results, p, 0, 0, |results.keys|);
  }

  /// Finishing residue `i` for every motif is starting residue `i + 1`.
  lemma ResidueCountersWrap(catalog: map<string, MotifDef>, seqData: Dict<string>, results: Dict<seq<Proba>>, p: nat, i: nat)
    requires ScanInput(catalog, seqData, results)
    requires p < |seqData.keys|
    ensures ResidueCounters(catalog, seqData, results, p, i, |results.keys|) == ResidueCounters(catalog, seqData, results, p, i + 1, 0)
  {
    CountersBelowAt(catalog, seqData, results, p, i, |results.keys|, |results.keys|);
    CountersBelowAt(catalog, seqData, results, p, i + 1, 0, |results.keys|);
  }

  /// After the last residue of protein `p` each counter has passed all of
  /// the protein's anchors, which is where protein `p + 1` starts.
  lemma ResidueCountersEnd(catalog: map<string, MotifDef>, seqData: Dict<string>, results: Dict<seq<Proba>>, p: nat)
    requires ScanInput(catalog, seqData, results)
    requires p < |seqData.keys|
    ensures ResidueCounters(catalog, seqData, results, p, |seqData.values[seqData.keys[p]]|, 0) == ProteinCounters(catalog, seqData, results, p + 1)
  {
    var len := |seqData.values[seqData.keys[p]]|;
    CountersBelowAt(catalog, seqData, results, p, len, 0, |results.keys|);
    forall k | 0 <= k < |results.keys|
      ensures ResidueCounters(catalog, seqData, results, p, len, 0)[k] == ProteinCounters(catalog, seqData, results, p + 1)[k]
    {
      AnchorsBelowFacts(catalog[results.keys[k]], len, 0);
    }
  }

  /// Visiting motif `j` changes counter `j` alone, to its value past `i`.
  lemma ResidueCountersStep(catalog: map<string, MotifDef>, seqData: Dict<string>, results: Dict<seq<Proba>>, p: nat, i: nat, j: nat)
    requires ScanInput(catalog, seqData, results)
    requires p < |seqData.keys| && j < |results.keys|
    ensures |ResidueCounters(catalog, seqData, results, p, i, j)| == |results.keys|
    ensures ResidueCounters(catalog, seqData, results, p, i, j)[j] == CounterAt(catalog, seqData, results, p, i, j, j)
    ensures ResidueCounters(catalog, seqData, results, p, i, j + 1)
      == ResidueCounters(catalog, seqData, results, p, i, j)[j := CounterAt(catalog, seqData, results, p, i, j + 1, j)]
  {
    CountersBelowAt(catalog, seqData, results, p, i, j, |results.keys|);
    CountersBelowAt(catalog, seqData, results, p, i, j + 1, |results.keys|);
  }

  /* ---------- the scan ---------- */

  /// `write_output` (nlrexpress.py) on the motif catalog `allMotifs`: the
  /// table of `ScanHits`, with every motif's counter ending at its number of
  /// rows in `generateXmat`'s matrix.
  method WriteOutput(inputData: FeaturesData, results: Dict<seq<Proba>>, cutoff: int)
    returns (table: Columns, ghost finalCounts: seq<nat>)
    requires ScanInput(AllMotifs(), inputData.seqData, results)
    ensures table == Tabulate(ScanHits(AllMotifs(), inputData.seqData, results, cutoff))
    ensures |finalCounts| == |results.keys|
    ensures forall j :: 0 <= j < |results.keys| ==>
      finalCounts[j] == TotalRows(inputData.seqData, AllMotifs()[results.keys[j]])
  {
    table, finalCounts := ScanProteins(AllMotifs(), inputData.seqData, results, cutoff);
  }

  /// The scan of `write_output` with the catalog as a parameter. Every
  /// protein, residue and motif is visited in that order; at a valid anchor
  /// the motif's counter names the row of its probabilities, a record is
  /// written when the probability reaches `cutoff`, and the counter moves on.
  /// Counter `j` belongs to `results.keys[j]`.
  method ScanProteins(catalog: map<string, MotifDef>, seqData: Dict<string>, results: Dict<seq<Proba>>, cutoff: int)
    returns (table: Columns, ghost finalCounts: seq<nat>)
    requires ScanInput(catalog, seqData, results)
    ensures table == Tabulate(ScanHits(catalog, seqData, results, cutoff))
    ensures |finalCounts| == |results.keys|
    ensures forall j :: 0 <= j < |results.keys| ==>
      finalCounts[j] == TotalRows(seqData, catalog[results.keys[j]])
  {
    ProteinCountersEnds(catalog, seqData, results);
    var countpos: seq<nat> := seq(|results.keys|, _ => 0);
    table := Columns([], [], [], [], [], [], []);
    var p: nat := 0;
    while p < |seqData.keys|
      invariant p <= |seqData.keys|
      invariant table == Tabulate(HitsUpTo(catalog, seqData, results, cutoff, p))
      invariant countpos == ProteinCounters(catalog, seqData, results, p)
    {
      table, countpos := ScanProtein(catalog, seqData, results, cutoff, p, table, countpos);
      p := p + 1;
    }
    finalCounts := countpos;
  }

  /// The body of the scan for protein `p`: its residues in order. It appends
  /// the protein's records to the table and advances every counter past the
  /// protein's rows.
  method ScanProtein(catalog: map<string, MotifDef>, seqData: Dict<string>, results: Dict<seq<Proba>>, cutoff: int, p: nat, table0: Columns, countpos0: seq<nat>)
    returns (table: Columns, countpos: seq<nat>)
    requires ScanInput(catalog, seqData, results)
    requires p < |seqData.keys|
    requires table0 == Tabulate(HitsUpTo(catalog, seqData, results, cutoff, p))
    requires countpos0 == ProteinCounters(catalog, seqData, results, p)
    ensures table == Tabulate(HitsUpTo(catalog, seqData, results, cutoff, p + 1))
    ensures countpos == ProteinCounters(catalog, seqData, results, p + 1)
  {
    var seqLength := |seqData.values[seqData.keys[p]]|;
    table, countpos := table0, countpos0;
    ghost var done := HitsUpTo(catalog, seqData, results, cutoff, p);
    assert done + HitsBelow(catalog, seqData, results, cutoff, p, 0) == done;
    ResidueCountersStart(catalog, seqData, results, p);
    var i: nat := 0;
    while i < seqLength
      invariant i <= seqLength
      invariant table == Tabulate(done + HitsBelow(catalog, seqData, results, cutoff, p, i))
      invariant countpos == ResidueCounters(catalog, seqData, results, p, i, 0)
    {
      ghost var hits := done + HitsBelow(catalog, seqData, results, cutoff, p, i);
      table, countpos := ScanResidue(catalog, seqData, results, cutoff, p, i, table, countpos);
      VisitMotifsTabulates(catalog, seqData, results, cutoff, hits, p, i, |results.keys|);
      HitsBelowNext(catalog, seqData, results, cutoff, p, i, done);
      ResidueCountersWrap(catalog, seqData, results, p, i);
      i := i + 1;
    }
    ResidueCountersEnd(catalog, seqData, results, p);
    assert HitsUpTo(catalog, seqData, results, cutoff, p + 1) == done + HitsBelow(catalog, seqData, results, cutoff, p, seqLength);
  }

  /// The body of the scan for residue `i` of protein `p`: every motif in
  /// `results` order. Each motif with a valid anchor here advances its
  /// counter by one; the others keep theirs.
  method ScanResidue(catalog: map<string, MotifDef>, seqData: Dict<string>, results: Dict<seq<Proba>>, cutoff: int, p: nat, i: nat, table0: Columns, countpos0: seq<nat>)
    returns (table: Columns, countpos: seq<nat>)
    requires ScanInput(catalog, seqData, results)
    requires p < |seqData.keys| && i < |seqData.values[seqData.keys[p]]|
    requires countpos0 == ResidueCounters(catalog, seqData, results, p, i, 0)
    ensures table == VisitMotifs(catalog, seqData, results, cutoff, table0, p, i, |results.keys|)
    ensures countpos == ResidueCounters(catalog, seqData, results, p, i, |results.keys|)
  {
    table, countpos := table0, countpos0;
    var j := 0;
    while j < |results.keys|
      invariant j <= |results.keys|
      invariant table == VisitMotifs(catalog, seqData, results, cutoff, table0, p, i, j)
      invariant countpos == ResidueCounters(catalog, seqData, results, p, i, j)
    {
      table, countpos := ScanMotif(catalog, seqData, results, cutoff, p, i, j, table, countpos);
      j := j + 1;
    }
  }

  /// The innermost body of the scan: motif `results.keys[j]` at residue `i`
  /// of protein `p`. At a valid anchor it reads the row its counter names,
  /// appends a record when the probability reaches `cutoff`, and advances
  /// the counter; elsewhere nothing changes.
  method ScanMotif(catalog: map<string, MotifDef>, seqData: Dict<string>, results: Dict<seq<Proba>>, cutoff: int, p: nat, i: nat, j: nat, table0: Columns, countpos0: seq<nat>)
    returns (table: Columns, countpos: seq<nat>)
    requires ScanInput(catalog, seqData, results)
    requires p < |seqData.keys| && i < |seqData.values[seqData.keys[p]]| && j < |results.keys|
    requires countpos0 == ResidueCounters(catalog, seqData, results, p, i, j)
    ensures table == VisitSite(catalog, seqData, results, cutoff, table0, Site(p, i, j))
    ensures countpos == ResidueCounters(catalog, seqData, results, p, i, j + 1)
  {
    var prot := seqData.keys[p];
    var sq := seqData.values[prot];
    var seqLength := |sq|;
    var motif := results.keys[j];
    var m := catalog[motif];
    ghost var s := Site(p, i, j);
    ResidueCountersStep(catalog, seqData, results, p, i, j);
    table, countpos := table0, countpos0;
    if i >= m.windLeft && i < seqLength - (m.motifSpan + m.windRight) {
      AnchorsBelowFacts(m, seqLength, i);
      RowIndexInBounds(seqData, m, p, i);
      var row := results.values[motif][countpos[j]];
      assert row.positive == ProbAt(catalog, seqData, results, s) by {
        assert countpos[j] == RowIndex(seqData, m, p, i);
      }
      if row.positive >= cutoff {
        table := Columns(
          table.protein + [prot], table.resId + [i + 1], table.motifId + [motif],
          table.probability + [row.positive], table.negative5 + [PySlice(sq, i - 5, i)],
          table.motifSeq + [PySlice(sq, i, i + m.motifSpan)],
          table.positive5 + [PySlice(sq, i + m.motifSpan, i + m.motifSpan + 5)]);
      }
      countpos := countpos[j := countpos[j] + 1];
    } else {
      assert AnchorsBelow(m, seqLength, i + 1) == AnchorsBelow(m, seqLength, i);
    }
  }
}
