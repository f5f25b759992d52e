/// The feature side of the pipeline: `generateInputFile` merges the two
/// search iterations into one vector per residue, and `generateXmat` cuts
/// one flattened window per valid anchor for a motif.
module Features {
  import opened Common
  import opened Catalog
  import opened HmmParser

  /// The values of one residue after the merge (iteration 1, then 2).
  type Vector = seq<Value>

  /// One vector per residue of a protein.
  type Profile = seq<Vector>

  /// The `FeaturesData` dataclass: sequences and merged profiles, both
  /// keyed by protein in input order.
  datatype FeaturesData = FeaturesData(seqData: Dict<string>, hmmData: Dict<Profile>)

  /// What `generateXmat` reads without raising: every protein of `hmmData`
  /// has a sequence and at least one vector per residue of it.
  ghost predicate Readable(fd: FeaturesData) {
    && fd.seqData.Valid()
    && fd.hmmData.Valid()
    && forall prot :: prot in fd.hmmData.keys ==>
         prot in fd.seqData.values && |fd.hmmData.values[prot]| >= |fd.seqData.values[prot]|
  }

  /// The shape `generateFeatures` gives its result: `hmmData` has the keys
  /// of `seqData` in the same order and exactly one vector per residue.
  ghost predicate Aligned(fd: FeaturesData) {
    && fd.seqData.Valid()
    && fd.hmmData.Valid()
    && fd.hmmData.keys == fd.seqData.keys
    && forall prot :: prot in fd.seqData.keys ==> |fd.hmmData.values[prot]| == |fd.seqData.values[prot]|
  }

  lemma AlignedIsReadable(fd: FeaturesData)
    requires Aligned(fd)
    ensures Readable(fd)
  {
  }

  /* ---------- generateInputFile ---------- */

  /// The exceptions the merge can raise: `KeyError` when iteration 1 has no
  /// profile for a protein, `IndexError` when a profile is shorter than the
  /// sequence.
  datatype InputError = MissingProfile(name: string) | ShortProfile(name: string)

  /// Protein `name` can be merged: it has no residues, or iteration 1 has a
  /// row for every residue and so does iteration 2 if it knows the protein.
  ghost predicate Covered(seqData: Dict<string>, it1: map<string, seq<Record>>, it2: map<string, seq<Record>>, name: string)
    requires name in seqData.values
  {
    var n := |seqData.values[name]|;
    n == 0 || (name in it1 && |it1[name]| >= n && (name in it2 ==> |it2[name]| >= n))
  }

  /// The merged vector of residue `i`: iteration 1's values, then iteration
  /// 2's when the protein is in iteration 2, otherwise iteration 1's again.
  function Merged(it1: map<string, seq<Record>>, it2: map<string, seq<Record>>, name: string, i: nat): (r: Vector)
    requires name in it1 && i < |it1[name]|
    requires name in it2 ==> i < |it2[name]|
    ensures |r| == |it1[name][i]| + (if name in it2 then |it2[name][i]| else |it1[name][i]|)
    ensures r[..|it1[name][i]|] == it1[name][i]
    ensures name in it2 ==> r[|it1[name][i]|..] == it2[name][i]
    ensures name !in it2 ==> r[|it1[name][i]|..] == it1[name][i]
  {
    it1[name][i] + (if name in it2 then it2[name][i] else it1[name][i])
  }

  /// `prof` is the merged profile of `name`: one merged vector per residue.
  ghost predicate IsMergedProfile(seqData: Dict<string>, it1: map<string, seq<Record>>, it2: map<string, seq<Record>>,
                                  name: string, prof: Profile)
    requires name in seqData.values && Covered(seqData, it1, it2, name)
  {
    && |prof| == |seqData.values[name]|
    && forall i :: 0 <= i < |prof| ==> prof[i] == Merged(it1, it2, name, i)
  }

  /// The error raised for an uncovered protein.
  function FailureFor(it1: map<string, seq<Record>>, name: string): InputError {
    if name !in it1 then MissingProfile(name) else ShortProfile(name)
  }

  /// The inner loop of `generateInputFile` for protein `name`: one merged
  /// vector per residue, or the error its first unreadable residue raises.
  method MergeResidues(seqData: Dict<string>, it1: map<string, seq<Record>>, it2: map<string, seq<Record>>, name: string)
    returns (r: Result<Profile, InputError>)
    requires name in seqData.values
    ensures r.Ok? <==> Covered(seqData, it1, it2, name)
    ensures r.Ok? ==> IsMergedProfile(seqData, it1, it2, name, r.value)
    ensures r.Err? ==> r.error == FailureFor(it1, name)
  {
    var sq := seqData.values[name];
    var prof: Profile := [];
    var i := 0;
    while i < |sq|
      invariant 0 <= i <= |sq|
      invariant i > 0 ==> name in it1 && |it1[name]| >= i && (name in it2 ==> |it2[name]| >= i)
      invariant |prof| == i
      invariant forall j :: 0 <= j < i ==> prof[j] == Merged(it1, it2, name, j)
    {
      if name !in it1 || i >= |it1[name]| || (name in it2 && i >= |it2[name]|) {
        return Err(FailureFor(it1, name));
      }
      var v := it1[name][i];
      if name in it2 {
        v := v + it2[name][i];
      } else {
        v := v + it1[name][i];
      }
      prof := prof + [v];
      i := i + 1;
    }
    return Ok(prof);
  }

  /// `generateInputFile`: for every protein of `seqData`, in order, one
  /// merged vector per residue; the first protein that cannot be merged
  /// raises.
  method GenerateInputFile(seqData: Dict<string>, it1: map<string, seq<Record>>, it2: map<string, seq<Record>>)
    returns (r: Result<Dict<Profile>, InputError>)
    requires seqData.Valid()
    ensures r.Ok? <==> forall name :: name in seqData.keys ==> Covered(seqData, it1, it2, name)
    ensures r.Ok? ==> Aligned(FeaturesData(seqData, r.value))
    ensures r.Ok? ==> forall name :: name in seqData.keys ==>
      IsMergedProfile(seqData, it1, it2, name, r.value.values[name])
    ensures r.Err? ==> exists p :: (0 <= p < |seqData.keys| &&
      (forall q :: 0 <= q < p ==> Covered(seqData, it1, it2, seqData.keys[q])) &&
      !Covered(seqData, it1, it2, seqData.keys[p]) &&
      r.error == FailureFor(it1, seqData.keys[p]))
  {
    var keys: seq<string> := [];
    var data: map<string, Profile> := map[];
    var p := 0;
    while p < |seqData.keys|
      invariant 0 <= p <= |seqData.keys|
      invariant keys == seqData.keys[..p]
      invariant forall k :: k in data <==> k in keys
      invariant forall q :: 0 <= q < p ==> Covered(seqData, it1, it2, seqData.keys[q])
      invariant forall q :: 0 <= q < p ==>
        IsMergedProfile(seqData, it1, it2, seqData.keys[q], data[seqData.keys[q]])
      invariant forall k :: k in data ==> |data[k]| == |seqData.values[k]|
    {
      var name := seqData.keys[p];
      var merged := MergeResidues(seqData, it1, it2, name);
      if merged.Err? {
        return Err(merged.error);
      }
      var prof := merged.value;
      data := data[name := prof];
      keys := keys + [name];
      p := p + 1;
    }
    assert keys == seqData.keys;
    return Ok(Dict(keys, data));
  }

  /// When every iteration-1 row has `w` values and the protein is missing
  /// from iteration 2, the merged vector is those `w` values twice, never a
  /// zero-filled second half.
  lemma MergedFallback(it1: map<string, seq<Record>>, it2: map<string, seq<Record>>, name: string, i: nat)
    requires name in it1 && i < |it1[name]| && name !in it2
    ensures Merged(it1, it2, name, i) == it1[name][i] + it1[name][i]
  {
  }

  /* ---------- generateXmat ---------- */

  /// Concatenation of vectors in order (`X[-1] += features[i+w]`).
  function Flatten(vs: seq<Vector>): Vector {
    if |vs| == 0 then [] else Flatten(vs[..|vs| - 1]) + vs[|vs| - 1]
  }

  /// Taking one more vector of a profile appends that vector to the
  /// flattening.
  lemma FlattenExtend(features: Profile, a: int, b: int)
    requires 0 <= a <= b < |features|
    ensures Flatten(features[a .. b + 1]) == Flatten(features[a .. b]) + features[b]
  {
    var vs := features[a .. b + 1];
    assert vs[..|vs| - 1] == features[a .. b];
  }

  /// Every vector of `vs` has exactly `width` values.
  ghost predicate UniformWidth(vs: seq<Vector>, width: nat) {
    forall k :: 0 <= k < |vs| ==> |vs[k]| == width
  }

  /// Slot `c` of block `k` lies before the end of `n` blocks of width `w`.
  lemma SlotBound(k: nat, c: nat, n: nat, w: nat)
    requires k < n && c < w
    ensures k * w + c < n * w
  {
    assert (k + 1) * w <= n * w by {
      assert n * w == (k + 1) * w + (n - k - 1) * w;
    }
  }

  /// Dropping the last vector keeps the others' width.
  lemma UniformWidthInit(vs: seq<Vector>, width: nat)
    requires |vs| > 0 && UniformWidth(vs, width)
    ensures UniformWidth(vs[..|vs| - 1], width)
  {
    var init := vs[..|vs| - 1];
    forall k | 0 <= k < |init| ensures |init[k]| == width {
      assert init[k] == vs[k];
    }
  }

  /// Vectors of one width concatenate to `|vs| * width` values.
  lemma {:induction false} FlattenLength(vs: seq<Vector>, width: nat)
    requires UniformWidth(vs, width)
    ensures |Flatten(vs)| == |vs| * width
    decreases |vs|
  {
    if |vs| > 0 {
      var init := vs[..|vs| - 1];
      UniformWidthInit(vs, width);
      FlattenLength(init, width);
      assert |Flatten(vs)| == |init| * width + width;
      assert (|init| + 1) * width == |init| * width + width;
    }
  }

  /// Concatenating vectors of width `w` puts value `c` of vector `k` at
  /// position `k * w + c`: vector `k` occupies `k * w .. (k + 1) * w - 1`.
  lemma {:induction false} FlattenSlot(vs: seq<Vector>, width: nat, k: nat, c: nat)
    requires UniformWidth(vs, width)
    requires k < |vs| && c < width
    ensures k * width + c < |Flatten(vs)|
    ensures Flatten(vs)[k * width + c] == vs[k][c]
    decreases |vs|
  {
    var init := vs[..|vs| - 1];
    var last := vs[|vs| - 1];
    UniformWidthInit(vs, width);
    FlattenLength(init, width);
    assert Flatten(vs) == Flatten(init) + last;
    var base := |init| * width;
    assert |Flatten(vs)| == base + width;
    if k < |init| {
      SlotBound(k, c, |init|, width);
      FlattenSlot(init, width, k, c);
      assert init[k] == vs[k];
    } else {
      assert k * width == base;
    }
  }

  /// The window of anchor `i`: vectors `i - windLeft .. i + motifSpan +
  /// windRight`, inclusive, flattened in ascending position order.
  function Window(profile: Profile, m: MotifDef, i: int): Vector
    requires m.windLeft <= i && i + m.motifSpan + m.windRight < |profile|
  {
    Flatten(WindowVectors(profile, m, i))
  }

  /// The vectors a window covers, in ascending position order.
  function WindowVectors(profile: Profile, m: MotifDef, i: int): (vs: seq<Vector>)
    requires m.windLeft <= i && i + m.motifSpan + m.windRight < |profile|
    ensures |vs| == m.windLeft + m.motifSpan + m.windRight + 1
    ensures forall k :: 0 <= k < |vs| ==> vs[k] == profile[i - m.windLeft + k]
  {
    profile[i - m.windLeft .. i + m.motifSpan + m.windRight + 1]
  }

  /// The vectors of a window over a profile of one width share that width.
  lemma WindowUniform(profile: Profile, m: MotifDef, i: int, width: nat)
    requires m.windLeft <= i && i + m.motifSpan + m.windRight < |profile|
    requires UniformWidth(profile, width)
    ensures UniformWidth(WindowVectors(profile, m, i), width)
  {
    var vs := WindowVectors(profile, m, i);
    forall k | 0 <= k < |vs| ensures |vs[k]| == width {
      assert vs[k] == profile[i - m.windLeft + k];
    }
  }

  /// A window over vectors of width `w` has `(windLeft + motifSpan +
  /// windRight + 1) * w` values.
  lemma {:induction false} WindowLength(profile: Profile, m: MotifDef, i: int, width: nat)
    requires m.windLeft <= i && i + m.motifSpan + m.windRight < |profile|
    requires UniformWidth(profile, width)
    ensures |Window(profile, m, i)| == (m.windLeft + m.motifSpan + m.windRight + 1) * width
  {
    var vs := WindowVectors(profile, m, i);
    WindowUniform(profile, m, i, width);
    FlattenLength(vs, width);
    assert |vs| == m.windLeft + m.motifSpan + m.windRight + 1;
  }

  /// Value `c` of the vector at residue `i - windLeft + k`, the window's
  /// `k`-th, sits at position `k * w + c` of the window.
  lemma {:induction false} WindowLayout(profile: Profile, m: MotifDef, i: int, width: nat, k: nat, c: nat)
    requires m.windLeft <= i && i + m.motifSpan + m.windRight < |profile|
    requires UniformWidth(profile, width)
    requires k <= m.windLeft + m.motifSpan + m.windRight && c < width
    ensures k * width + c < |Window(profile, m, i)|
    ensures Window(profile, m, i)[k * width + c] == profile[i - m.windLeft + k][c]
  {
    var vs := WindowVectors(profile, m, i);
    WindowUniform(profile, m, i, width);
    FlattenSlot(vs, width, k, c);
  }

  /// The rows one protein contributes for anchors `0 .. n-1`, in the order
  /// the scan over `range(seqLength)` appends them.
  function RowsBelow(profile: Profile, len: nat, m: MotifDef, n: int): seq<Vector>
    requires len <= |profile|
    decreases n
  {
    if n <= 0 then []
    else RowsBelow(profile, len, m, n - 1) +
         (if ValidAnchor(m, len, n - 1) then [Window(profile, m, n - 1)] else [])
  }

  /// A protein contributes one row per valid anchor below `n`.
  lemma {:induction false} RowsBelowLength(profile: Profile, len: nat, m: MotifDef, n: int)
    requires len <= |profile|
    ensures |RowsBelow(profile, len, m, n)| == AnchorsBelow(m, len, n)
    decreases n
  {
    if n > 0 {
      RowsBelowLength(profile, len, m, n - 1);
    }
  }

  /// Scanning one more position keeps the earlier rows.
  lemma RowsBelowKeeps(profile: Profile, len: nat, m: MotifDef, n: int, j: nat)
    requires len <= |profile|
    requires n > 0 && j < |RowsBelow(profile, len, m, n - 1)|
    ensures j < |RowsBelow(profile, len, m, n)|
    ensures RowsBelow(profile, len, m, n)[j] == RowsBelow(profile, len, m, n - 1)[j]
  {
  }

  /// A row added by position `n - 1` is the window of that anchor, and it
  /// is row number `n - 1 - windLeft`.
  lemma RowsBelowNew(profile: Profile, len: nat, m: MotifDef, n: int, j: nat)
    requires len <= |profile|
    requires n > 0 && |RowsBelow(profile, len, m, n - 1)| <= j < |RowsBelow(profile, len, m, n)|
    ensures ValidAnchor(m, len, n - 1) && j == n - 1 - m.windLeft
    ensures RowsBelow(profile, len, m, n)[j] == Window(profile, m, n - 1)
  {
    var prev := RowsBelow(profile, len, m, n - 1);
    assert RowsBelow(profile, len, m, n) ==
      prev + (if ValidAnchor(m, len, n - 1) then [Window(profile, m, n - 1)] else []);
    assert ValidAnchor(m, len, n - 1);
    assert |prev| == n - 1 - m.windLeft by {
      RowsBelowLength(profile, len, m, n - 1);
      AnchorsBelowFacts(m, len, n - 1);
    }
  }

  /// Row `j` of a protein's rows is the window of anchor `windLeft + j`.
  lemma {:induction false} RowsBelowAt(profile: Profile, len: nat, m: MotifDef, n: int, j: nat)
    requires len <= |profile|
    requires j < |RowsBelow(profile, len, m, n)|
    ensures m.windLeft + j + m.motifSpan + m.windRight < len
    ensures RowsBelow(profile, len, m, n)[j] == Window(profile, m, m.windLeft + j)
    decreases n
  {
    assert n > 0;
    if j < |RowsBelow(profile, len, m, n - 1)| {
      RowsBelowKeeps(profile, len, m, n, j);
      RowsBelowAt(profile, len, m, n - 1, j);
    } else {
      RowsBelowNew(profile, len, m, n, j);
    }
  }

  /// All the rows of one protein.
  function ProteinRows(profile: Profile, len: nat, m: MotifDef): seq<Vector>
    requires len <= |profile|
  {
    RowsBelow(profile, len, m, len)
  }

  /// A protein contributes exactly `AnchorCount` rows: one per valid anchor.
  lemma ProteinRowCount(profile: Profile, len: nat, m: MotifDef)
    requires len <= |profile|
    ensures |ProteinRows(profile, len, m)| == AnchorCount(m, len)
  {
    RowsBelowLength(profile, len, m, len);
    AnchorsBelowFacts(m, len, 0);
  }

  /// The `j`-th row of a protein is the window of anchor `windLeft + j`, so
  /// the rows follow the anchors in ascending order.
  lemma ProteinRowAt(profile: Profile, len: nat, m: MotifDef, j: nat)
    requires len <= |profile|
    requires j < AnchorCount(m, len)
    ensures j < |ProteinRows(profile, len, m)|
    ensures m.windLeft + j + m.motifSpan + m.windRight < len
    ensures ProteinRows(profile, len, m)[j] == Window(profile, m, m.windLeft + j)
  {
    ProteinRowCount(profile, len, m);
    RowsBelowAt(profile, len, m, len, j);
  }

  /// The rows of the first `p` proteins of `hmmData`, in key order.
  function XmatUpTo(fd: FeaturesData, m: MotifDef, p: nat): seq<Vector>
    requires Readable(fd)
    requires p <= |fd.hmmData.keys|
  {
    if p == 0 then []
    else
      var prot := fd.hmmData.keys[p - 1];
      XmatUpTo(fd, m, p - 1) + ProteinRows(fd.hmmData.values[prot], |fd.seqData.values[prot]|, m)
  }

  /// The matrix `generateXmat` returns for motif geometry `m`.
  function Xmat(fd: FeaturesData, m: MotifDef): seq<Vector>
    requires Readable(fd)
  {
    XmatUpTo(fd, m, |fd.hmmData.keys|)
  }

  /// `generateXmat`: for every protein of `hmmData` and every valid anchor,
  /// in order, the flattened window around it.
  method GenerateXmat(fd: FeaturesData, motif: string) returns (X: seq<Vector>)
    requires motif in AllMotifs()
    requires Readable(fd)
    ensures X == Xmat(fd, AllMotifs()[motif])
  {
    var m := AllMotifs()[motif];
    X := [];
    var p := 0;
    while p < |fd.hmmData.keys|
      invariant 0 <= p <= |fd.hmmData.keys|
      invariant X == XmatUpTo(fd, m, p)
    {
      var prot := fd.hmmData.keys[p];
      X := AppendProteinRows(X, fd.hmmData.values[prot], |fd.seqData.values[prot]|, m);
      p := p + 1;
    }
  }

  /// The body of `generateXmat`'s loop over one protein: for each position
  /// `i` in `range(seqLength)` that is a valid anchor, append that anchor's row.
  method AppendProteinRows(X0: seq<Vector>, features: Profile, seqLength: nat, m: MotifDef) returns (X: seq<Vector>)
    requires seqLength <= |features|
    ensures X == X0 + RowsBelow(features, seqLength, m, seqLength)
  {
    X := X0;
    var i := 0;
    while i < seqLength
      invariant 0 <= i <= seqLength
      invariant X == X0 + RowsBelow(features, seqLength, m, i)
    {
      ghost var before := X;
      if i >= m.windLeft && i < seqLength - (m.motifSpan + m.windRight) {
        X := AppendWindow(X, features, m, i);
      }
      assert X == X0 + RowsBelow(features, seqLength, m, i + 1) by {
        assert RowsBelow(features, seqLength, m, i + 1) == RowsBelow(features, seqLength, m, i) +
          (if ValidAnchor(m, seqLength, i) then [Window(features, m, i)] else []);
      }
      i := i + 1;
    }
  }

  /// One anchor's row: append an empty row and extend it with the vectors
  /// `i - windLeft .. i + motifSpan + windRight`, one at a time.
  method AppendWindow(X0: seq<Vector>, features: Profile, m: MotifDef, i: int) returns (X: seq<Vector>)
    requires m.windLeft <= i && i + m.motifSpan + m.windRight < |features|
    ensures X == X0 + [Window(features, m, i)]
  {
    X := X0 + [[]];
    var w: int := 0 - m.windLeft;
    while w < m.motifSpan + m.windRight + 1
      invariant 0 <= w + m.windLeft && w <= m.motifSpan + m.windRight + 1
      invariant X == X0 + [Flatten(features[i - m.windLeft .. i + w])]
    {
      FlattenExtend(features, i - m.windLeft, i + w);
      assert X[..|X| - 1] == X0;
      X := X[..|X| - 1] + [X[|X| - 1] + features[i + w]];
      w := w + 1;
    }
    assert features[i - m.windLeft .. i + w] == WindowVectors(features, m, i);
  }

  /* ---------- row counts and the position of each row ---------- */

  /// Number of rows the first `p` proteins of `seqData` contribute.
  function RowsBefore(seqData: Dict<string>, m: MotifDef, p: nat): nat
    requires seqData.HasKeys()
    requires p <= |seqData.keys|
  {
    if p == 0 then 0
    else RowsBefore(seqData, m, p - 1) + AnchorCount(m, |seqData.values[seqData.keys[p - 1]]|)
  }

  /// Total rows of a motif over all proteins.
  function TotalRows(seqData: Dict<string>, m: MotifDef): nat
    requires seqData.HasKeys()
  {
    RowsBefore(seqData, m, |seqData.keys|)
  }

  /// The row counts only grow from one protein to the next.
  lemma {:induction false} RowsBeforeMonotone(seqData: Dict<string>, m: MotifDef, p: nat, q: nat)
    requires seqData.HasKeys()
    requires p <= q <= |seqData.keys|
    ensures RowsBefore(seqData, m, p) <= RowsBefore(seqData, m, q)
    decreases q
  {
    if p < q {
      RowsBeforeMonotone(seqData, m, p, q - 1);
    }
  }

  /// On aligned data the first `p` proteins give exactly `RowsBefore` rows.
  lemma {:induction false} XmatUpToLength(fd: FeaturesData, m: MotifDef, p: nat)
    requires Aligned(fd)
    requires p <= |fd.seqData.keys|
    ensures |XmatUpTo(fd, m, p)| == RowsBefore(fd.seqData, m, p)
    decreases p
  {
    if p > 0 {
      XmatUpToLength(fd, m, p - 1);
      var prot := fd.seqData.keys[p - 1];
      ProteinRowCount(fd.hmmData.values[prot], |fd.seqData.values[prot]|, m);
    }
  }

  /// On aligned data `generateXmat` produces exactly one row per valid
  /// (protein, anchor) pair: `TotalRows` rows.
  lemma XmatLength(fd: FeaturesData, m: MotifDef)
    requires Aligned(fd)
    ensures |Xmat(fd, m)| == TotalRows(fd.seqData, m)
  {
    XmatUpToLength(fd, m, |fd.seqData.keys|);
  }

  /// Later proteins only append rows: the rows of the first `p` proteins are
  /// a prefix of the rows of the first `q`.
  lemma {:induction false} XmatUpToPrefix(fd: FeaturesData, m: MotifDef, p: nat, q: nat)
    requires Readable(fd)
    requires p <= q <= |fd.hmmData.keys|
    ensures |XmatUpTo(fd, m, p)| <= |XmatUpTo(fd, m, q)|
    ensures XmatUpTo(fd, m, q)[..|XmatUpTo(fd, m, p)|] == XmatUpTo(fd, m, p)
    decreases q
  {
    if p < q {
      XmatUpToPrefix(fd, m, p, q - 1);
    }
  }

  /// Row `j` of protein `p`'s own rows is row `|XmatUpTo(p)| + j` of the
  /// rows of the first `q` proteins, for every `q` past `p`: later proteins
  /// only append.
  lemma {:induction false} XmatUpToRow(fd: FeaturesData, m: MotifDef, p: nat, q: nat, j: nat)
    requires Readable(fd)
    requires p < q <= |fd.hmmData.keys|
    requires j < |ProteinRows(fd.hmmData.values[fd.hmmData.keys[p]], |fd.seqData.values[fd.hmmData.keys[p]]|, m)|
    ensures |XmatUpTo(fd, m, p)| + j < |XmatUpTo(fd, m, q)|
    ensures XmatUpTo(fd, m, q)[|XmatUpTo(fd, m, p)| + j] ==
      ProteinRows(fd.hmmData.values[fd.hmmData.keys[p]], |fd.seqData.values[fd.hmmData.keys[p]]|, m)[j]
    decreases q
  {
    var prot := fd.hmmData.keys[q - 1];
    var before := XmatUpTo(fd, m, q - 1);
    var rows := ProteinRows(fd.hmmData.values[prot], |fd.seqData.values[prot]|, m);
    assert XmatUpTo(fd, m, q) == before + rows;
    if q - 1 == p {
      assert (before + rows)[|before| + j] == rows[j];
    } else {
      XmatUpToRow(fd, m, p, q - 1, j);
      assert (before + rows)[|XmatUpTo(fd, m, p)| + j] == before[|XmatUpTo(fd, m, p)| + j];
    }
  }

  /// The row of protein `p` at valid anchor `i` sits at index
  /// `RowsBefore(p) + (i - windLeft)` of `generateXmat`'s result, and it is
  /// the window around `i` of that protein's profile.
  lemma XmatRowAt(fd: FeaturesData, m: MotifDef, p: nat, i: int)
    requires Aligned(fd)
    requires p < |fd.seqData.keys|
    requires ValidAnchor(m, |fd.seqData.values[fd.seqData.keys[p]]|, i)
    ensures RowsBefore(fd.seqData, m, p) + (i - m.windLeft) < |Xmat(fd, m)|
    ensures i + m.motifSpan + m.windRight < |fd.hmmData.values[fd.seqData.keys[p]]|
    ensures Xmat(fd, m)[RowsBefore(fd.seqData, m, p) + (i - m.windLeft)] ==
      Window(fd.hmmData.values[fd.seqData.keys[p]], m, i)
  {
    AlignedIsReadable(fd);
    var prot := fd.seqData.keys[p];
    var len := |fd.seqData.values[prot]|;
    var profile := fd.hmmData.values[prot];
    assert |profile| == len;
    var j := i - m.windLeft;
    ProteinRowCount(profile, len, m);
    ProteinRowAt(profile, len, m, j);
    XmatUpToLength(fd, m, p);
    XmatUpToRow(fd, m, p, |fd.hmmData.keys|, j);
  }
}
