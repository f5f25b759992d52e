// Orderings of lists of `write_output` records, and how appending one
// list to another keeps them.

module HitOrder {
  import opened Scan

  /// Two records of the same protein come in the order of their residues.
  predicate ProteinsInResidueOrder(hs: seq<Hit>) {
    forall a, b :: 0 <= a < b < |hs| && hs[a].protein == hs[b].protein ==> hs[a].resId <= hs[b].resId
  }

  /// All records come in the order of their residues.
  predicate InResidueOrder(hs: seq<Hit>) {
    forall a, b :: 0 <= a < b < |hs| ==> hs[a].resId <= hs[b].resId
  }

  /// Every record names `protein` and residue number `n`.
  predicate OfResidue(hs: seq<Hit>, protein: string, n: int) {
    forall a :: 0 <= a < |hs| ==> hs[a].protein == protein && hs[a].resId == n
  }

  /// No record names `protein`.
  predicate NoneOf(hs: seq<Hit>, protein: string) {
    forall a :: 0 <= a < |hs| ==> hs[a].protein != protein
  }

  /// Every record names `protein` and a residue number in `1 .. n`.
  predicate OfProteinUpTo(hs: seq<Hit>, protein: string, n: int) {
    forall a :: 0 <= a < |hs| ==> hs[a].protein == protein && 1 <= hs[a].resId <= n
  }

  /// Records of residue `n` appended to records of the same protein below
  /// `n` are records of that protein up to `n`.
  lemma AppendShape(first: seq<Hit>, last: seq<Hit>, protein: string, n: int)
    requires OfProteinUpTo(first, protein, n - 1)
    requires OfResidue(last, protein, n)
    requires 1 <= n
    ensures OfProteinUpTo(first + last, protein, n)
  {
    var hs := first + last;
    forall a | 0 <= a < |hs|
      ensures hs[a].protein == protein && 1 <= hs[a].resId <= n
    {
      if a < |first| {
        assert hs[a] == first[a];
      } else {
        assert hs[a] == last[a - |first|];
      }
    }
  }

  /// Appending records of residue `n` to records below `n` kept in residue
  /// order keeps them in residue order.
  lemma AppendResidue(first: seq<Hit>, last: seq<Hit>, protein: string, n: int)
    requires OfProteinUpTo(first, protein, n - 1) && InResidueOrder(first)
    requires OfResidue(last, protein, n)
    ensures InResidueOrder(first + last)
  {
  }

  /// Appending the records of a new protein, kept in residue order, to
  /// records of other proteins keeps each protein's records in residue order.
  lemma AppendProtein(first: seq<Hit>, last: seq<Hit>, protein: string, n: int)
    requires ProteinsInResidueOrder(first)
    requires NoneOf(first, protein)
    requires OfProteinUpTo(last, protein, n)
    requires InResidueOrder(last)
    ensures ProteinsInResidueOrder(first + last)
  {
    var hs := first + last;
    forall a, b | 0 <= a < b < |hs| && hs[a].protein == hs[b].protein
      ensures hs[a].resId <= hs[b].resId
    {
      if b >= |first| {
        assert hs[b] == last[b - |first|];
        if a >= |first| {
          assert hs[a] == last[a - |first|];
        }
      }
    }
  }
}
