/** The accumulator: merges newly sampled rows into the persisted output table,
    dropping exact duplicates over all three fields and keeping the first
    occurrence, then overwrites the table with the result. */
module Accumulator {
  import opened Common

  /** Keep-first deduplication: the element at position i survives exactly
      when it does not occur among the positions before i. */
  function Dedup<T(==)>(s: seq<T>): (r: seq<T>)
    ensures |r| <= |s|
  {
    if s == [] then []
    else
      var init := s[..|s| - 1];
      Dedup(init) + (if s[|s| - 1] in init then [] else [s[|s| - 1]])
  }

  /** Deduplication keeps exactly the elements of its input. */
  lemma {:induction false} DedupElements<T>(s: seq<T>)
    ensures forall x :: x in Dedup(s) <==> x in s
    decreases |s|
  {
    if s != [] {
      var init := s[..|s| - 1];
      DedupElements(init);
      assert s == init + [s[|s| - 1]];
    }
  }

  /** No element occurs twice in the result. */
  lemma {:induction false} DedupNoDuplicates<T>(s: seq<T>)
    ensures NoDuplicates(Dedup(s))
    decreases |s|
  {
    if s != [] {
      var init := s[..|s| - 1];
      DedupNoDuplicates(init);
      DedupElements(init);
    }
  }

  /** The result keeps the relative order of the input. */
  lemma {:induction false} DedupSubsequence<T>(s: seq<T>)
    ensures IsSubsequence(Dedup(s), s)
    decreases |s|
  {
    if s != [] {
      var init := s[..|s| - 1];
      DedupSubsequence(init);
      var d := Dedup(init);
      assert s[..|s| - 1] == init;
      if s[|s| - 1] !in init {
        assert (d + [s[|s| - 1]])[..|d|] == d;
      } else {
        assert Dedup(s) == d + [] == d;
      }
    }
  }

  /** Appending more input never changes what was already kept: the result for
      a prefix is a prefix of the result (first occurrence wins). */
  lemma {:induction false} DedupPrefix<T>(a: seq<T>, b: seq<T>)
    ensures IsPrefix(Dedup(a), Dedup(a + b))
    decreases |b|
  {
    if b != [] {
      var b' := b[..|b| - 1];
      assert (a + b)[..|a + b| - 1] == a + b';
      DedupPrefix(a, b');
    } else {
      assert a + b == a;
    }
  }

  /** A sequence without duplicates is its own deduplication. */
  lemma {:induction false} DedupOfDistinct<T>(s: seq<T>)
    requires NoDuplicates(s)
    ensures Dedup(s) == s
    decreases |s|
  {
    if s != [] {
      var init := s[..|s| - 1];
      DedupOfDistinct(init);
      assert s[|s| - 1] !in init;
      assert init + [s[|s| - 1]] == s;
    }
  }

  /** Elements that all occur already leave the result unchanged. */
  lemma {:induction false} DedupAbsorbs<T>(a: seq<T>, b: seq<T>)
    requires forall x :: x in b ==> x in a
    ensures Dedup(a + b) == Dedup(a)
    decreases |b|
  {
    if b == [] {
      assert a + b == a;
    } else {
      var b' := b[..|b| - 1];
      assert (a + b)[..|a + b| - 1] == a + b';
      assert (a + b)[|a + b| - 1] == b[|b| - 1];
      DedupAbsorbs(a, b');
    }
  }

  /** Deduplicating twice is deduplicating once. */
  lemma DedupIdempotent<T>(s: seq<T>)
    ensures Dedup(Dedup(s)) == Dedup(s)
  {
    DedupNoDuplicates(s);
    DedupOfDistinct(Dedup(s));
  }

  /** The rows a persisted table holds; an absent table holds none. */
  function Persisted(table: Option<seq<Row>>): seq<Row> {
    if table.None? then [] else table.value
  }

  /** The table written back after a merge: persisted rows, then the new rows,
      with later exact duplicates removed. */
  function Merge(table: Option<seq<Row>>, rows: seq<Row>): seq<Row> {
    Dedup(Persisted(table) + rows)
  }

  /** A merged table has no duplicate row, keeps the order of persisted rows
      followed by new rows, and holds a row exactly when either input does. */
  lemma MergeSpec(table: Option<seq<Row>>, rows: seq<Row>)
    ensures NoDuplicates(Merge(table, rows))
    ensures IsSubsequence(Merge(table, rows), Persisted(table) + rows)
    ensures forall x :: x in Merge(table, rows) <==> x in Persisted(table) || x in rows
  {
    var all := Persisted(table) + rows;
    DedupNoDuplicates(all);
    DedupSubsequence(all);
    DedupElements(all);
  }

  /** A persisted table without duplicates survives a merge as a prefix: its
      rows keep their places and win over new duplicates of them. */
  lemma MergeKeepsPersisted(existing: seq<Row>, rows: seq<Row>)
    requires NoDuplicates(existing)
    ensures IsPrefix(existing, Merge(Some(existing), rows))
  {
    DedupPrefix(existing, rows);
    DedupOfDistinct(existing);
  }

  /** Merging rows that are all already persisted leaves a duplicate-free
      table unchanged. */
  lemma MergeSubsetUnchanged(existing: seq<Row>, rows: seq<Row>)
    requires NoDuplicates(existing)
    requires forall x :: x in rows ==> x in existing
    ensures Merge(Some(existing), rows) == existing
  {
    DedupAbsorbs(existing, rows);
    DedupOfDistinct(existing);
  }

  /** Merging the same rows a second time changes nothing. */
  lemma MergeIdempotent(table: Option<seq<Row>>, rows: seq<Row>)
    ensures Merge(Some(Merge(table, rows)), rows) == Merge(table, rows)
  {
    MergeSpec(table, rows);
    MergeSubsetUnchanged(Merge(table, rows), rows);
  }

  /** Two batches, three distinct rows then two rows of which one repeats the
      first batch, starting from no table: the table ends with four rows. */
  lemma TwoBatchesExample(a: Row, b: Row, c: Row, d: Row)
    requires NoDuplicates([a, b, c, d])
    ensures Merge(Some(Merge(None, [a, b, c])), [d, a]) == [a, b, c, d]
  {
    var first, all := [a, b, c], [a, b, c, d];
    assert NoDuplicates(first) by {
      forall i, j | 0 <= i < j < 3 ensures first[i] != first[j] {
        assert first[i] == all[i] && first[j] == all[j];
      }
    }
    assert Persisted(None) + first == first;
    DedupOfDistinct(first);
    assert Persisted(Some(first)) + [d, a] == all + [a];
    DedupAbsorbs(all, [a]);
    DedupOfDistinct(all);
  }

  /** The persisted output table; `None` while no output file exists. */
  class OutputStore {
    var table: Option<seq<Row>>

    constructor (table: Option<seq<Row>>)
      ensures this.table == table
    {
      this.table := table;
    }

    /** Read the persisted rows (if any), concatenate the new rows, drop
        duplicates keeping the first, and overwrite the table. */
    method Append(rows: seq<Row>)
      modifies this
      ensures table == Some(Merge(old(table), rows))
      ensures NoDuplicates(table.value)
      ensures old(table).Some? && NoDuplicates(old(table).value) ==> IsPrefix(old(table).value, table.value)
    {
      var combined := if table.Some? then table.value + rows else rows;
      assert combined == Persisted(table) + rows;
      MergeSpec(table, rows);
      if table.Some? && NoDuplicates(table.value) {
        MergeKeepsPersisted(table.value, rows);
      }
      table := Some(Dedup(combined));
    }
  }
}
