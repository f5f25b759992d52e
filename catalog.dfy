/// The motif catalog (`allMotifs`) and the anchor-validity rule that the
/// feature builder and the scan both apply.
module Catalog {

  /// Window geometry of one motif: residues of context on the left, on the
  /// right, and the motif's own length.
  datatype MotifDef = MotifDef(windLeft: nat, windRight: nat, motifSpan: nat)

  /// The catalog's keys in their declaration order.
  const MotifNames: seq<string> := [
    "extEDVID", "bA", "aA", "bC", "aC", "bDaD1", "aD3", "VG", "P-loop",
    "RNSB-A", "Walker-B", "RNSB-B", "RNSB-C", "RNSB-D", "GLPL", "MHD", "LxxLxL"
  ]

  function AllMotifs(): map<string, MotifDef> {
    map[
      "extEDVID" := MotifDef(5, 5, 12),
      "bA" := MotifDef(5, 5, 10),
      "aA" := MotifDef(5, 5, 7),
      "bC" := MotifDef(5, 5, 8),
      "aC" := MotifDef(5, 5, 6),
      "bDaD1" := MotifDef(5, 5, 16),
      "aD3" := MotifDef(5, 5, 13),
      "VG" := MotifDef(5, 5, 5),
      "P-loop" := MotifDef(5, 5, 9),
      "RNSB-A" := MotifDef(5, 5, 10),
      "Walker-B" := MotifDef(5, 5, 8),
      "RNSB-B" := MotifDef(5, 5, 7),
      "RNSB-C" := MotifDef(5, 5, 10),
      "RNSB-D" := MotifDef(5, 5, 9),
      "GLPL" := MotifDef(5, 5, 5),
      "MHD" := MotifDef(5, 5, 3),
      "LxxLxL" := MotifDef(5, 5, 6)
    ]
  }

  /// Every catalog entry has five residues of context on each side and a
  /// span between 3 and 16; the ordered name list covers exactly the keys.
  lemma CatalogShape()
    ensures |MotifNames| == 17
    ensures forall k :: k in AllMotifs() <==> k in MotifNames
    ensures forall k :: k in AllMotifs() ==>
      AllMotifs()[k].windLeft == 5 && AllMotifs()[k].windRight == 5 &&
      3 <= AllMotifs()[k].motifSpan <= 16
  {
  }

  /// Anchor `i` of a sequence of length `len` has a full window for `m`:
  /// `windLeft <= i < len - (motifSpan + windRight)`.
  predicate ValidAnchor(m: MotifDef, len: int, i: int) {
    i >= m.windLeft && i < len - (m.motifSpan + m.windRight)
  }

  /// The window `[i - windLeft, i + motifSpan + windRight]` of a valid
  /// anchor lies inside the sequence.
  lemma AnchorWindowInBounds(m: MotifDef, len: int, i: int)
    requires ValidAnchor(m, len, i)
    ensures 0 <= i - m.windLeft
    ensures i + m.motifSpan + m.windRight < len
  {
  }

  /// Number of valid anchors in a sequence of length `len`.
  function AnchorCount(m: MotifDef, len: int): nat {
    var n := len - m.windLeft - m.motifSpan - m.windRight;
    if n > 0 then n else 0
  }

  /// Number of valid anchors among positions `0 .. n-1`, counted the way a
  /// scan over `range(n)` meets them.
  function AnchorsBelow(m: MotifDef, len: int, n: int): nat
    decreases n
  {
    if n <= 0 then 0
    else AnchorsBelow(m, len, n - 1) + (if ValidAnchor(m, len, n - 1) then 1 else 0)
  }

  /// Closed form of the scan count: below the left edge nothing is counted,
  /// inside the valid range one per position, and past it the total stays
  /// at `AnchorCount`.
  lemma {:induction false} AnchorsBelowClosedForm(m: MotifDef, len: int, n: int)
    ensures n <= m.windLeft ==> AnchorsBelow(m, len, n) == 0
    ensures m.windLeft <= n ==>
      AnchorsBelow(m, len, n) == if n - m.windLeft < AnchorCount(m, len) then n - m.windLeft else AnchorCount(m, len)
    decreases n
  {
    if n > 0 {
      AnchorsBelowClosedForm(m, len, n - 1);
    }
  }

  /// A full scan of a sequence meets exactly `AnchorCount` valid anchors, and
  /// a valid anchor `i` is preceded by exactly `i - windLeft` of them.
  lemma AnchorsBelowFacts(m: MotifDef, len: int, i: int)
    ensures AnchorsBelow(m, len, if len < 0 then 0 else len) == AnchorCount(m, len)
    ensures ValidAnchor(m, len, i) ==> AnchorsBelow(m, len, i) == i - m.windLeft
    ensures ValidAnchor(m, len, i) ==> AnchorsBelow(m, len, i + 1) == AnchorsBelow(m, len, i) + 1
  {
    AnchorsBelowClosedForm(m, len, if len < 0 then 0 else len);
    AnchorsBelowClosedForm(m, len, i);
    AnchorsBelowClosedForm(m, len, i + 1);
  }

  /// The worked example: a length-26 sequence has exactly the four
  /// `extEDVID` anchors 5, 6, 7 and 8.
  lemma ExtEdvidExample()
    ensures AnchorCount(AllMotifs()["extEDVID"], 26) == 4
    ensures forall i :: ValidAnchor(AllMotifs()["extEDVID"], 26, i) <==> 5 <= i <= 8
  {
  }
}
