# NLRexpress motif pipeline, modelled in Dafny

NLRexpress predicts NLR protein motifs. For every protein, it reads the profiles of two jackhmmer search iterations. It merges them into one feature vector per residue and cuts a fixed window of vectors around every residue that can anchor a motif. A neural classifier scores each window. The program then writes one record per anchor whose probability reaches a cutoff, and a second command labels those records with the protein family of their motif (CC, NBS, TIR or LRR).

This project models the core of that pipeline and proves what it computes:

- `Catalog` (catalog.dfy): the motif table `allMotifs`, and the anchor rule `windLeft <= i < len - (motifSpan + windRight)` that the feature builder and the scan share. It also proves the closed form of the number of anchors a scan meets.
- `HmmParser` (hmm_parser.dfy): `parse_hmm_multiprot`, the line loop over an HMMER3 profile file. Its state is the result map, the current protein, `start`, `hascomp` and `length`. The loop is proved equal to a step function. Each keyword branch (`NAME`, `LENG`, `HMM`, `COMPO`), the body-row errors, the stored rows and the `float()` failure on a stored field have their own lemma. What `str.split()`, `int()` and `float()` accept is defined character by character.
- `Features` (features.dfy): `generateInputFile`, which merges the two iterations residue by residue, and `generateXmat`, which builds the window matrix for one motif. Both are loops proved against functions, with lemmas on row counts, row order and the position of every row.
- `Scan` (scan.dfy): `write_output`, the triple loop over proteins, residues and predicted motifs. It keeps one counter per motif to find the matrix row that belongs to each anchor. The loop is split into one method per nesting level, each proved against the record list `ScanHits` and the counter state it must reach.
- `ScanProperties`, `ScanComplete`, `ScanOrder` and `HitOrder` (scan_properties.dfy, scan_complete.dfy, scan_order.dfy, hit_order.dfy) prove four things about that record list:
  - a record is in the table exactly when an anchor emits it (both directions);
  - each protein's records are in residue order;
  - each record quotes its residue windows;
  - on a matrix built by `generateXmat`, the counters read exactly the row of the anchor they are at.
- `Annotate` (annotate.dfy): `annotate`. It selects one protein's rows, sorts them by residue, labels each row through the `if`/`elif` chain, and raises on the first row it cannot label. It also proves that the table the scan writes never makes it raise.
- `Common` (common.dfy): `Option`, `Result`, distinctness, and `Dict`, a Python `dict` as its key order plus a map.

Units: a probability is an integer number of 1e-4 steps (`round(p, 4)`), which is also the number of hundredths of a percent. The cutoff 0.2 is therefore 2000. The table's probability column is `100 * p` percent, so `annotate`'s `threshold = 0.8`, compared with that column, is 80 in the same unit.

Three behaviours of the code worth knowing:

- A `NAME` line in `parse_hmm_multiprot` clears `start` and `hascomp` but not `length` (src/FeaturesData.py:165-167). `HmmParser.NameLineResets` states this.
- `annotate` does not merge neighbouring equal labels. It also does not skip rows below the threshold: the `else` branch raises for them as it does for unknown motifs (nlrexpress.py:126-135). `Annotate.LabelsMeaning` states both.
- Because the threshold is compared with the percentage column, it is 0.8 percent. Every record the scan writes with its default cutoff (20 percent) passes it, so only a table from elsewhere can make `annotate` raise (`Annotate.ScanTableAnnotates`, `Annotate.DefaultScanAnnotates`).

## Model

| member | source | states |
|---|---|---|
| Catalog.CatalogShape | src/FeaturesData.py:9-27 | the catalog has 17 motifs, each with five residues of context on both sides and a span between 3 and 16; the name list is exactly its keys |
| Catalog.AnchorWindowInBounds | src/FeaturesData.py:78-83 | for a valid anchor, every position `i + w` the window reads lies inside the sequence |
| Catalog.AnchorsBelowClosedForm | src/FeaturesData.py:72-78 | a scan over `range(n)` meets no anchors below `windLeft`, then one per position, capped at `max(0, len - windLeft - motifSpan - windRight)` |
| Catalog.AnchorsBelowFacts | src/FeaturesData.py:72-78 | a full scan meets exactly `AnchorCount` anchors; valid anchor `i` is preceded by `i - windLeft` anchors and adds one |
| Catalog.ExtEdvidExample | src/FeaturesData.py:10 | a length-26 sequence has exactly the four `extEDVID` anchors 5 to 8 |
| HmmParser.Split | src/FeaturesData.py:188 | `str.split()` yields only non-empty runs of non-whitespace, whitespace being every character Python's `str.split()` separates on, Unicode spaces included |
| HmmParser.SplitTwoFields | src/FeaturesData.py:162 | a keyword line `KEY value` with trailing whitespace splits into exactly its two fields |
| HmmParser.StripIterSuffix | src/FeaturesData.py:163 | a name ending in `-i1` loses exactly that suffix; any other name is kept |
| HmmParser.ParseIntRoundTrip | src/FeaturesData.py:170 | `int()` of the decimal numeral of `n` gives back `n` |
| HmmParser.IntIsFloat | src/FeaturesData.py:195 | every numeral `int()` reads, with sign and `_` digit groups, `float()` reads too |
| HmmParser.FloatAcceptsPoint | src/FeaturesData.py:195 | `float()` reads a value as HMMER prints it (`2.68563`) |
| HmmParser.FloatAcceptsExponent | src/FeaturesData.py:195 | `float()` reads a signed exponent form with digit groups (`-1_0e-3`) |
| HmmParser.FloatAcceptsInf | src/FeaturesData.py:194-195 | `float()` reads the infinity word in any case (`Inf`) |
| HmmParser.FloatRefuses | src/FeaturesData.py:195 | `float()` refuses a lone point, doubled underscores, an underscore next to the point, an exponent without digits and a word |
| HmmParser.ToValue | src/FeaturesData.py:194 | the field `*` becomes the infinity marker and is the only field that does; every other field is kept as its text, uninterpreted (so the text `inf`, which Python's `float` also reads as infinity, stays a text value here) |
| HmmParser.RecordOf | src/FeaturesData.py:189-195 | a stored row holds fields 1 to 20 of the line (fewer if the line is shorter), field `k + 1` under residue column `k` |
| HmmParser.ReadRow | src/FeaturesData.py:193-195 | the field loop returns a row exactly when `float()` reads every field of `l[1:21]` (`*` counting as infinity), and that row is `RecordOf` of the line |
| HmmParser.Step | src/FeaturesData.py:161-195 | one loop iteration keeps the current protein's entry in the result map whenever it does not raise |
| HmmParser.Run | src/FeaturesData.py:160-195 | after any prefix of the file the current protein, once named, has its entry in the result map |
| HmmParser.FaultPersists | src/FeaturesData.py:178-195 | once a line raises, the whole parse raises that fault |
| HmmParser.ParseHmmMultiprot | src/FeaturesData.py:138-205 | the loop returns the parse of the file, raises `FileNotFoundError` for a missing file, and raises the generic exception for any failure inside the loop |
| HmmParser.ParseLine | src/FeaturesData.py:161-195 | the loop body on one line computes exactly `Step`: the new state, or the fault the line raises |
| HmmParser.NameLineResets | src/FeaturesData.py:161-167 | a `NAME` line selects the name without `-i1`, empties its rows, clears `start` and `hascomp`, and keeps `length` |
| HmmParser.LengLineSetsLength | src/FeaturesData.py:169-170 | a `LENG n` line sets `length` to `n` and changes nothing else |
| HmmParser.HeaderLineSetsStart | src/FeaturesData.py:172-173 | the `HMM` header on line `i` sets `start` to `i + 5` and changes nothing else |
| HmmParser.CompoLineSetsHascomp | src/FeaturesData.py:175-176 | a line containing `COMPO` that no earlier branch claims sets `hascomp` and changes nothing else |
| HmmParser.BodyRowFaults | src/FeaturesData.py:178-185 | a body line before the protein's `COMPO` line, or with `length` still 0, raises |
| HmmParser.BodyRowStored | src/FeaturesData.py:187-195 | another line appends a row exactly when it is in the body window, on a match row `(i - start) % 3 == 0`, with more than 3 fields; otherwise the state is unchanged; a stored row's fields all pass `float()` |
| HmmParser.BadFieldFaults | src/FeaturesData.py:193-195 | a match row with a field `float()` refuses raises `ValueError` |
| HmmParser.BadFieldFailsParse | src/FeaturesData.py:193-205 | such a row makes the whole parse raise the generic exception |
| HmmParser.RowsComeFromLastBlock | src/FeaturesData.py:161-195 | every protein in the result was named by a `NAME` line, and each of its rows is the record of a body line after the last `NAME` line naming it, so a repeated name keeps only its last block |
| HmmParser.RowsWellFormed | src/FeaturesData.py:189-195 | every stored row has 3 to 20 values and never the raw `*` |
| Features.Merged | src/FeaturesData.py:98-106 | a merged vector is iteration 1's values followed by iteration 2's, or by iteration 1's again when iteration 2 lacks the protein |
| Features.MergedFallback | src/FeaturesData.py:104-106 | without iteration 2 the second half repeats iteration 1 and is never zero-filled |
| Features.MergeResidues | src/FeaturesData.py:96-106 | the residue loop succeeds exactly when every residue has its rows, and then yields one merged vector per residue; otherwise it raises the matching error |
| Features.GenerateInputFile | src/FeaturesData.py:89-108 | the result has exactly the proteins of `seqData`, in its order, with one merged vector per residue, or raises for the first protein that cannot be merged |
| Features.FlattenLength | src/FeaturesData.py:82-83 | concatenating `n` vectors of width `w` gives `n * w` values |
| Features.FlattenSlot | src/FeaturesData.py:82-83 | concatenating vectors of width `w` puts value `c` of vector `k` at position `k * w + c` |
| Features.WindowVectors | src/FeaturesData.py:82 | a window covers positions `i - windLeft` to `i + motifSpan + windRight`, in ascending order |
| Features.AppendWindow | src/FeaturesData.py:81-83 | appending an empty row and extending it vector by vector leaves exactly the anchor's window as the new last row |
| Features.WindowLength | src/FeaturesData.py:82-83 | a window row has `(windLeft + motifSpan + windRight + 1) * w` values |
| Features.WindowLayout | src/FeaturesData.py:82-83 | value `c` of the profile vector at residue `i - windLeft + k` sits at position `k * w + c` of the window row, so the row lists the window's residues in position order |
| Features.AppendProteinRows | src/FeaturesData.py:72-83 | the loop over one protein appends exactly that protein's rows to the matrix |
| Features.RowsBelowLength | src/FeaturesData.py:72-78 | scanning positions `0 .. n-1` yields one row per valid anchor among them |
| Features.RowsBelowAt | src/FeaturesData.py:72-83 | row `j` of a protein is the window of anchor `windLeft + j`, which lies inside the sequence |
| Features.ProteinRowCount | src/FeaturesData.py:72-83 | a protein contributes exactly `AnchorCount` rows |
| Features.ProteinRowAt | src/FeaturesData.py:72-83 | the protein's `j`-th row is the window of anchor `windLeft + j`: the rows follow the anchors in ascending order |
| Features.GenerateXmat | src/FeaturesData.py:64-87 | the loop returns the matrix of all proteins' rows in `hmmData` order |
| Features.RowsBeforeMonotone | src/FeaturesData.py:69-78 | the number of rows contributed by earlier proteins only grows |
| Features.XmatUpToLength | src/FeaturesData.py:69-83 | on aligned data the first `p` proteins give exactly `RowsBefore(p)` rows |
| Features.XmatLength | src/FeaturesData.py:64-87 | on aligned data the matrix has exactly one row per valid (protein, anchor) pair |
| Features.XmatUpToPrefix | src/FeaturesData.py:69-83 | later proteins only append rows |
| Features.XmatUpToRow | src/FeaturesData.py:69-83 | in the rows of the first `q` proteins, for any `q > p`, row `j` of protein `p` sits right after the rows of the first `p` proteins: later proteins do not move it |
| Features.XmatRowAt | src/FeaturesData.py:69-83 | the row at index `RowsBefore(p) + (i - windLeft)` of the whole matrix is the window of protein `p` at anchor `i` |
| Scan.TabulateLockstep | nlrexpress.py:70-87 | the seven output lists have one entry per record, entry `k` of each being a field of record `k` |
| Scan.TabulateSnoc | nlrexpress.py:81-87 | writing a record appends exactly one entry to each of the seven lists |
| Scan.PySlice | nlrexpress.py:85-87 | a Python slice inside the sequence is the subsequence, never longer than the sequence, and empty when the end does not pass the start |
| Scan.PySliceEdges | nlrexpress.py:85-87 | a slice that overruns the end stops at the end; a negative start counts from the end, so the slice is empty when that position is at or past the stop |
| Scan.RowIndexInBounds | nlrexpress.py:79-80 | the row a counter names for a valid anchor lies within that protein's rows and below the motif's total |
| Scan.VisitSiteTabulates | nlrexpress.py:79-87 | visiting a motif at a residue appends that site's record to the seven lists when it reaches the cutoff, and nothing otherwise |
| Scan.VisitMotifsTabulates | nlrexpress.py:77-87 | visiting the motifs of a residue in `results` order appends exactly that residue's records |
| Scan.ProteinCountersEnds | nlrexpress.py:70-89 | every counter starts at 0, and after the last protein counter `j` has passed every row of its motif |
| Scan.ResidueCountersStep | nlrexpress.py:77-89 | visiting a motif changes only that motif's counter, to its count including the current residue |
| Scan.ResidueCountersEnd | nlrexpress.py:72-89 | after a protein's last residue each counter has passed all of that protein's anchors |
| Scan.WriteOutput | nlrexpress.py:66-89 | the seven lists hold exactly the records `ScanHits`, in scan order, and each motif's counter ends at its number of matrix rows |
| Scan.ScanProteins | src/util.py:4-27 | the same scan, with the catalog as a parameter: the lists are `ScanHits` and the counters end at `TotalRows` |
| Scan.ScanProtein | nlrexpress.py:72-89 | one protein appends its records and moves every counter past its anchors |
| Scan.ScanResidue | nlrexpress.py:76-89 | one residue visits its motifs in `results` order, appending their records, and each motif valid there advances by one |
| Scan.ScanMotif | nlrexpress.py:77-89 | at a valid anchor it reads the row the counter names, writes a record when `p >= cutoff`, and advances the counter whether or not it wrote; elsewhere nothing changes |
| ScanProperties.HitsUpToSound | nlrexpress.py:72-87 | every record of the first `p` proteins comes from an emitting site of one of them |
| ScanProperties.RecordShape | nlrexpress.py:81-87 | a record has `res_id = i + 1`, a probability at or above the cutoff, exactly 5 residues before, the `motifSpan` residues of the motif, and exactly 5 after |
| ScanProperties.PipelineRows | nlrexpress.py:60-89 | on predictions made over `generateXmat`'s matrices the scan's input is valid, and the probability it reads at an anchor is the classifier's output on that anchor's window |
| ScanComplete.HitsBelowComplete | nlrexpress.py:76-87 | every emitting site of a protein's first `n` residues has its record among their records |
| ScanComplete.HitsUpToGrows | nlrexpress.py:72-87 | later proteins only append: a record of the first `p` proteins is a record of the first `q >= p` |
| ScanComplete.HitsUpToComplete | nlrexpress.py:72-87 | every emitting site of the first `p` proteins has its record among theirs |
| ScanComplete.ScanHitsExact | nlrexpress.py:79-87 | a record is in the table exactly when some protein, valid anchor and motif have a probability at or above the cutoff and produce it |
| ScanOrder.HitsBelowShape | nlrexpress.py:76-87 | the records of a protein's first `n` residues name that protein and carry residue numbers 1 to `n` |
| ScanOrder.HitsBelowOrdered | nlrexpress.py:76-87 | a protein's records come in residue order |
| ScanOrder.HitsUpToOrdered | nlrexpress.py:72-87 | in the records of the first `p` proteins, each protein's records come in residue order |
| ScanOrder.ScanHitsOrdered | nlrexpress.py:72-87 | two records of the same protein come in the order of their residues |
| Annotate.FamiliesPartitionCatalog | nlrexpress.py:96-99 | the four family lists are pairwise disjoint and together are exactly the catalog's motifs |
| Annotate.ClassifyMeaning | nlrexpress.py:126-135 | a row gets label `l` exactly when its motif is in `l`'s list and its probability reaches 0.8; it raises exactly when the probability is lower or the motif is unknown |
| Annotate.RowsOfCounts | nlrexpress.py:114 | selecting a protein keeps each of its rows as often as it occurs, and nothing else |
| Annotate.SortByResIdSpec | nlrexpress.py:117 | the sorted rows are in residue order and are a permutation of the input |
| Annotate.ProteinsSpec | nlrexpress.py:108 | the protein list names every protein of the table, each once |
| Annotate.LabelsMeaning | nlrexpress.py:124-135 | labelling succeeds exactly when every row can be labelled, giving one label per row and no merging; otherwise it raises for the first row that cannot be labelled, naming its residue and protein |
| Annotate.LabelsOk | nlrexpress.py:124-133 | a successful labelling has one label per row, each the label of that row |
| Annotate.LabelsErr | nlrexpress.py:124-135 | a failed labelling raises for the first row that cannot be labelled, naming its residue and the protein |
| Annotate.LabelsKeepsError | nlrexpress.py:134-135 | an exception on one row ends the protein with that exception |
| Annotate.AnnotateProtein | nlrexpress.py:113-135 | the loop returns the labels of the protein's rows in residue order, or the exception |
| Annotate.AnnotateAll | nlrexpress.py:108-137 | the proteins are labelled in order of first appearance; the first exception stops the run, and the labels printed before it stay printed |
| Annotate.ScanTableAnnotates | nlrexpress.py:101-135 | on the table written by the scan with a cutoff at or above the threshold, every protein is labelled without exception, one label per record |
| Annotate.DefaultScanAnnotates | nlrexpress.py:64-137 | on the table the pipeline writes with the default cutoff `0.2`, annotating any protein never raises |

## Left out

- Running jackhmmer, reading the FASTA file and the surrounding path plumbing (`generateFeatures`, `run_jackhmmer`, `processFastaFile`): these are subprocess and file I/O. Profiles and sequences are inputs of the model.
- The neural classifiers (`predict`, `ModuleData`): they are pickled models that cannot be inspected. `results` is an input of the scan. `ScanProperties.PipelineRows` takes the classifier as an arbitrary function.
- Floating point: an emission field is checked against what `float()` accepts, and a field it refuses raises, but the value is kept as its text, with `*` as infinity, and never converted to a number. Probabilities are the fixed-point integers described above, so `round(p, 4)` is the identity on them.
- HmmParser.ParseInt: reads ASCII digits only. Python's `int()` also reads other Unicode decimal digits (Arabic-Indic, full-width and so on), which never occur in an HMMER file; `HmmParser.IsFloatLiteral` has the same restriction for `float()`.
- HmmParser.Split: separates on exactly the whitespace characters of Python's `str.split()`, and the model takes the file as its list of lines, so the line splitting of `readlines()` is not modelled.
- Scan.WriteOutput: reports the probability at the 1e-4 resolution of `round(p, 4)`, whereas the source writes `100 * p` from the unrounded float.
- Scan.WriteOutput: requires every motif in `results` to be a catalog motif with at least one probability row per valid anchor. The source raises `KeyError` or `IndexError` otherwise, and the model does not represent those exceptions.
- Scan.ScanProteins: has the same two limits as `Scan.WriteOutput`: the probability at 1e-4 resolution, and no `KeyError` or `IndexError` for a motif without a catalog entry or without enough rows.
- HmmParser.ParseHmmMultiprot: the file is its list of lines. Every exception inside the `try` becomes the one generic exception, as the bare `except` does: a keyword line without a value, a `LENG` value `int()` refuses, a body row before `COMPO` or `LENG`, a row with no protein named, and a stored field `float()` refuses. The exception messages and the logging are not modelled.
- Annotate.SortByResIdSpec: fixes one order (stable) for rows with equal `res_id`, whereas pandas' default sort does not promise one.
- pandas and output: the DataFrame, `to_csv`, `read_csv` and `print` are not modelled. The seven lists are the `Columns` value. `annotate` receives the table as rows and returns what it would print.
- `write_output` in src/util.py is the same code as the one in nlrexpress.py. Both are modelled by `Scan.ScanProteins`, with `Scan.WriteOutput` fixing the catalog.
- Counters: `countpos` is a list aligned with the order of `results` instead of a dictionary keyed by motif. This coincides with the source when the keys are distinct, as dictionary keys are.
- `main`, the command-line parser and parse_output.py are not part of this model. Neither are `header2` and `allowed_gaps`, which the code defines but never reads.
