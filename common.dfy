/// Small shared vocabulary: optional values, results with an error, and the
/// insertion-ordered dictionary the pipeline passes between its stages.
module Common {

  datatype Option<T> = None | Some(value: T)

  datatype Result<T, E> = Ok(value: T) | Err(error: E)

  /// No element occurs twice. Stated from the last element backwards, so
  /// that the verifier unfolds it only as far as a proof asks.
  predicate Distinct<T(==)>(s: seq<T>)
    decreases |s|
  {
    |s| == 0 || (s[|s| - 1] !in s[..|s| - 1] && Distinct(s[..|s| - 1]))
  }

  /// Two positions of a distinct sequence hold different elements.
  lemma {:induction false} DistinctAt<T>(s: seq<T>, a: int, b: int)
    requires Distinct(s)
    requires 0 <= a < |s| && 0 <= b < |s| && a != b
    ensures s[a] != s[b]
    decreases |s|
  {
    var last := |s| - 1;
    if a == last {
      assert s[b] in s[..last];
    } else if b == last {
      assert s[a] in s[..last];
    } else {
      DistinctAt(s[..last], a, b);
    }
  }

  /// A Python `dict` with string keys: the entries plus their insertion
  /// order, which is the order every `for key in d` loop visits.
  datatype Dict<V> = Dict(keys: seq<string>, values: map<string, V>) {

    /// Every listed key has an entry, so `d[key]` succeeds for each key a
    /// `for key in d` loop visits.
    predicate HasKeys() {
      forall p :: 0 <= p < |keys| ==> keys[p] in values
    }

    /// Keys are unique and are exactly the keys of `values`.
    ghost predicate Valid() {
      && Distinct(keys)
      && (forall k :: k in values <==> k in keys)
    }
  }
}
