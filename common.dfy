/** Shared vocabulary of the inundation extractor: optional values, bytes,
    the three-column depth record and a few facts about sequences. */
module Common {

  datatype Option<+T> = None | Some(value: T)

  /** One byte of a downloaded file or of a response body. */
  type byte = b: int | 0 <= b < 256

  /** One row of the output table (a depth sample): longitude, latitude and
      the inundation depth in metres. Equality is exact on all three fields. */
  datatype Row = Row(lon: real, lat: real, depth: real)

  /** The column names every table of the pipeline carries. */
  const Header: seq<string> := ["Longitude", "Latitude", "InundationDepth_m"]

  /** A data frame with named columns and rows of depth samples. */
  datatype Table = Table(columns: seq<string>, rows: seq<Row>)

  function Min(a: nat, b: nat): nat { if a <= b then a else b }

  /** No element occurs twice. */
  predicate NoDuplicates<T(==)>(s: seq<T>) {
    forall i, j :: 0 <= i < j < |s| ==> s[i] != s[j]
  }

  /** `a` is a prefix of `b`. */
  predicate IsPrefix<T(==)>(a: seq<T>, b: seq<T>) {
    |a| <= |b| && b[..|a|] == a
  }

  /** `a` is obtained from `b` by deleting elements, keeping the order of the rest. */
  predicate IsSubsequence<T(==)>(a: seq<T>, b: seq<T>)
    decreases |b|
  {
    if b == [] then a == []
    else
      (a != [] && a[|a| - 1] == b[|b| - 1] && IsSubsequence(a[..|a| - 1], b[..|b| - 1]))
      || IsSubsequence(a, b[..|b| - 1])
  }
}
