/**
 * Rows of the `checks_results` table: one probe outcome of one check, stamped
 * with its `created_at` time in whole seconds.
 */
module Samples {
  import opened Sequences

  datatype Sample = Sample(checkId: int, createdAt: int, success: bool)

  /** `a` is no later than `b`; strictly earlier when `strict` holds. */
  predicate Precedes(a: Sample, b: Sample, strict: bool)
  {
    if strict then a.createdAt < b.createdAt else a.createdAt <= b.createdAt
  }

  /**
   * The rows are in `created_at` order (`ORDER BY created_at`); with `strict`,
   * no two rows share a timestamp.
   */
  predicate OrderedBy(s: seq<Sample>, strict: bool)
  {
    forall i, j :: 0 <= i < j < |s| ==> Precedes(s[i], s[j], strict)
  }

  /** The results of one check, in table order (the `results()` relation). */
  function ResultsOf(table: seq<Sample>, id: int): (r: seq<Sample>)
    ensures |r| <= |table|
    ensures forall x :: x in r ==> x in table && x.checkId == id
    ensures forall x :: x in table && x.checkId == id ==> x in r
    ensures forall x :: multiset(r)[x] == (if x.checkId == id then multiset(table)[x] else 0)
  {
    assert table != [] ==> table == DropLast(table) + [Last(table)];
    if table == [] then []
    else ResultsOf(DropLast(table), id) + (if Last(table).checkId == id then [Last(table)] else [])
  }

  /**
   * Selection distributes over concatenation: the rows of `a` that belong to
   * the check come first, in the order of `a`, then those of `b`.
   */
  lemma {:induction false} ResultsOfAppend(a: seq<Sample>, b: seq<Sample>, id: int)
    ensures ResultsOf(a + b, id) == ResultsOf(a, id) + ResultsOf(b, id)
    decreases |b|
  {
    if b != [] {
      assert DropLast(a + b) == a + DropLast(b);
      assert Last(a + b) == Last(b);
      ResultsOfAppend(a, DropLast(b), id);
    } else {
      assert a + b == a;
    }
  }

  /** A single row is selected exactly when it belongs to the check. */
  lemma ResultsOfSingle(x: Sample, id: int)
    ensures ResultsOf([x], id) == if x.checkId == id then [x] else []
  {
    assert DropLast([x]) == [];
  }

  /** Selecting one check's rows keeps them in time order. */
  lemma {:induction false} ResultsOfOrdered(table: seq<Sample>, id: int, strict: bool)
    requires OrderedBy(table, strict)
    ensures OrderedBy(ResultsOf(table, id), strict)
  {
    if table != [] {
      var pre, x := DropLast(table), Last(table);
      assert OrderedBy(pre, strict) by {
        forall i, j | 0 <= i < j < |pre| ensures Precedes(pre[i], pre[j], strict) {
          assert pre[i] == table[i] && pre[j] == table[j];
        }
      }
      ResultsOfOrdered(pre, id, strict);
      var r := ResultsOf(pre, id);
      assert forall y :: y in r ==> Precedes(y, x, strict) by {
        forall y | y in r ensures Precedes(y, x, strict) {
          var i :| 0 <= i < |pre| && pre[i] == y;
          assert table[i] == y && table[|table| - 1] == x;
        }
      }
      if x.checkId == id {
        OrderedSnoc(r, x, strict);
      }
    }
  }

  lemma OrderedSnoc(r: seq<Sample>, x: Sample, strict: bool)
    requires OrderedBy(r, strict) && forall y :: y in r ==> Precedes(y, x, strict)
    ensures OrderedBy(r + [x], strict)
  {
    forall i, j | 0 <= i < j < |r| + 1 ensures Precedes((r + [x])[i], (r + [x])[j], strict) {
      if j == |r| { assert r[i] in r; }
    }
  }
}
