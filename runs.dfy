/**
 * The partition behind the episode log: the inner query of `getLog` numbers the
 * time-ordered rows so that the number changes exactly where `success` changes,
 * and the outer query groups by that number. The groups are the maximal runs of
 * equal outcome. This module defines that partition row by row and proves it is
 * the one and only decomposition into maximal runs.
 */
module Runs {
  import opened Sequences
  import opened Samples

  /** Maximal runs of equal outcome, built from the first row to the last. */
  function RunsOf(s: seq<Sample>): (rs: seq<seq<Sample>>)
    ensures |rs| <= |s|
    ensures (rs == []) <==> (s == [])
    ensures forall k :: 0 <= k < |rs| ==> |rs[k]| > 0
    ensures s != [] ==> Last(Last(rs)) == Last(s)
  {
    if s == [] then []
    else
      var prev := RunsOf(DropLast(s));
      var x := Last(s);
      if prev != [] && Last(Last(prev)).success == x.success then DropLast(prev) + [Last(prev) + [x]]
      else prev + [[x]]
  }

  /** One more row either extends the last run or opens a new one. */
  lemma RunsOfSnoc(pre: seq<Sample>, x: Sample)
    ensures var prev := RunsOf(pre);
      RunsOf(pre + [x]) ==
        if prev != [] && Last(Last(prev)).success == x.success then DropLast(prev) + [Last(prev) + [x]]
        else prev + [[x]]
  {
    assert DropLast(pre + [x]) == pre;
  }

  /** The rows of the runs, run after run. */
  function Flatten(rs: seq<seq<Sample>>): seq<Sample>
  {
    if rs == [] then [] else Flatten(DropLast(rs)) + Last(rs)
  }

  lemma FlattenSnoc(rs: seq<seq<Sample>>, run: seq<Sample>)
    ensures Flatten(rs + [run]) == Flatten(rs) + run
  {
    assert DropLast(rs + [run]) == rs;
  }

  predicate Uniform(run: seq<Sample>)
  {
    forall i :: 0 <= i < |run| ==> run[i].success == run[0].success
  }

  /** Neighbouring runs have different outcomes, so none could be merged with the next. */
  ghost predicate Alternating(rs: seq<seq<Sample>>)
    requires forall k :: 0 <= k < |rs| ==> |rs[k]| > 0
  {
    forall i, j :: 0 <= i < j < |rs| && j == i + 1 ==> rs[i][0].success != rs[j][0].success
  }

  /** `rs` splits `s` into non-empty runs of one outcome each, no two neighbours alike. */
  ghost predicate IsRunDecomposition(rs: seq<seq<Sample>>, s: seq<Sample>)
  {
    && Flatten(rs) == s
    && (forall k :: 0 <= k < |rs| ==> |rs[k]| > 0 && Uniform(rs[k]))
    && Alternating(rs)
  }

  lemma ExtendRun(prev: seq<seq<Sample>>, pre: seq<Sample>, x: Sample)
    requires IsRunDecomposition(prev, pre)
    requires prev != [] && Last(Last(prev)).success == x.success
    ensures IsRunDecomposition(DropLast(prev) + [Last(prev) + [x]], pre + [x])
  {
    var body, run := DropLast(prev), Last(prev);
    var rs := body + [run + [x]];
    assert prev == body + [run];
    FlattenSnoc(body, run);
    FlattenSnoc(body, run + [x]);
    assert Uniform(prev[|prev| - 1]);
    forall k | 0 <= k < |rs| ensures |rs[k]| > 0 && Uniform(rs[k]) {
      if k < |body| { assert rs[k] == prev[k]; }
    }
    forall i, j | 0 <= i < j < |rs| && j == i + 1 ensures rs[i][0].success != rs[j][0].success {
      assert rs[i][0] == prev[i][0];
      assert rs[j][0] == prev[j][0];
    }
  }

  lemma OpenRun(prev: seq<seq<Sample>>, pre: seq<Sample>, x: Sample)
    requires IsRunDecomposition(prev, pre)
    requires prev == [] || Last(Last(prev)).success != x.success
    ensures IsRunDecomposition(prev + [[x]], pre + [x])
  {
    var rs := prev + [[x]];
    FlattenSnoc(prev, [x]);
    forall k | 0 <= k < |rs| ensures |rs[k]| > 0 && Uniform(rs[k]) {
      if k < |prev| { assert rs[k] == prev[k]; }
    }
    if prev != [] {
      var n := |prev| - 1;
      assert Uniform(prev[n]) && |prev[n]| > 0;
      assert prev[n][|prev[n]| - 1].success == prev[n][0].success;
      assert prev[n][0].success != x.success;
    }
    assert Alternating(rs) by {
      forall i, j | 0 <= i < j < |rs| && j == i + 1 ensures rs[i][0].success != rs[j][0].success {
        assert rs[i] == prev[i];
        if j < |prev| {
          assert rs[j] == prev[j];
        } else {
          assert rs[j] == [x];
        }
      }
    }
    assert Flatten(rs) == pre + [x];
  }

  /** The runs of the scan are a decomposition into maximal runs. */
  lemma {:induction false} RunsOfDecomposes(s: seq<Sample>)
    ensures IsRunDecomposition(RunsOf(s), s)
  {
    if s != [] {
      var pre, x := DropLast(s), Last(s);
      assert s == pre + [x];
      RunsOfDecomposes(pre);
      RunsOfSnoc(pre, x);
      var prev := RunsOf(pre);
      if prev != [] && Last(Last(prev)).success == x.success {
        ExtendRun(prev, pre, x);
      } else {
        OpenRun(prev, pre, x);
      }
    }
  }

  /** Removing the last run of a decomposition leaves a decomposition of the rows before it. */
  lemma DropRun(rs: seq<seq<Sample>>, s: seq<Sample>)
    requires IsRunDecomposition(rs, s) && rs != [] && |Last(rs)| == 1
    ensures IsRunDecomposition(DropLast(rs), DropLast(s))
    ensures DropLast(rs) != [] ==> Last(Last(DropLast(rs))).success != Last(s).success
    ensures Last(rs) == [Last(s)]
  {
    var body, run := DropLast(rs), Last(rs);
    assert rs == body + [run];
    FlattenSnoc(body, run);
    forall k | 0 <= k < |body| ensures |body[k]| > 0 && Uniform(body[k]) {
      assert body[k] == rs[k];
    }
    forall i, j | 0 <= i < j < |body| && j == i + 1 ensures body[i][0].success != body[j][0].success {
      assert body[i] == rs[i] && body[j] == rs[j];
    }
    if body != [] {
      var b := Last(body);
      assert b == rs[|rs| - 2] && Uniform(b);
      assert rs[|rs| - 2][0].success != rs[|rs| - 1][0].success;
    }
  }

  /** Removing the last row of a longer last run leaves a decomposition of the rows before it. */
  lemma ShortenRun(rs: seq<seq<Sample>>, s: seq<Sample>)
    requires IsRunDecomposition(rs, s) && rs != [] && |Last(rs)| > 1
    ensures IsRunDecomposition(DropLast(rs) + [DropLast(Last(rs))], DropLast(s))
    ensures Last(Last(rs)) == Last(s) && Last(Last(rs)).success == Last(DropLast(Last(rs))).success
  {
    var body, run := DropLast(rs), Last(rs);
    var shorter := body + [DropLast(run)];
    assert rs == body + [run];
    assert run == DropLast(run) + [Last(run)];
    FlattenSnoc(body, run);
    FlattenSnoc(body, DropLast(run));
    assert Uniform(rs[|rs| - 1]);
    forall k | 0 <= k < |shorter| ensures |shorter[k]| > 0 && Uniform(shorter[k]) {
      if k < |body| { assert shorter[k] == rs[k]; }
    }
    forall i, j | 0 <= i < j < |shorter| && j == i + 1
      ensures shorter[i][0].success != shorter[j][0].success
    {
      assert shorter[i] == rs[i];
      assert shorter[j][0] == rs[j][0];
    }
  }

  /** Any decomposition of `s` into maximal runs is the one the scan builds. */
  lemma {:induction false} RunsOfUnique(rs: seq<seq<Sample>>, s: seq<Sample>)
    requires IsRunDecomposition(rs, s)
    ensures rs == RunsOf(s)
    decreases |s|
  {
    if rs == [] {
      assert s == [];
    } else {
      assert |Last(rs)| > 0 by { assert |rs[|rs| - 1]| > 0; }
      assert s != [] by { FlattenSnoc(DropLast(rs), Last(rs)); assert rs == DropLast(rs) + [Last(rs)]; }
      var pre, x := DropLast(s), Last(s);
      assert s == pre + [x];
      RunsOfSnoc(pre, x);
      if |Last(rs)| == 1 {
        DropRun(rs, s);
        RunsOfUnique(DropLast(rs), pre);
        assert rs == DropLast(rs) + [[x]];
      } else {
        ShortenRun(rs, s);
        var shorter := DropLast(rs) + [DropLast(Last(rs))];
        RunsOfUnique(shorter, pre);
        assert DropLast(shorter) == DropLast(rs);
        assert Last(shorter) + [x] == Last(rs);
        assert rs == DropLast(rs) + [Last(rs)];
      }
    }
  }

  /** Every row of every run is a row of the input. */
  lemma {:induction false} RunsOfMembers(s: seq<Sample>)
    ensures forall k, y :: 0 <= k < |RunsOf(s)| && y in RunsOf(s)[k] ==> y in s
  {
    if s != [] {
      var pre, x := DropLast(s), Last(s);
      assert s == pre + [x];
      RunsOfMembers(pre);
      RunsOfSnoc(pre, x);
      var prev, rs := RunsOf(pre), RunsOf(s);
      forall k, y | 0 <= k < |rs| && y in rs[k] ensures y in s {
        if k < |prev| - 1 || (k == |prev| - 1 && rs[k] == prev[k]) {
          assert rs[k] == prev[k];
        } else if k == |prev| - 1 {
          assert rs[k] == prev[k] + [x];
        } else {
          assert rs[k] == [x];
        }
      }
    }
  }

  /**
   * Time order of the rows carries over to the runs: each run is in time order,
   * and every row of a run precedes every row of a later run.
   */
  ghost predicate RunsOrdered(rs: seq<seq<Sample>>, strict: bool)
  {
    && (forall k :: 0 <= k < |rs| ==> OrderedBy(rs[k], strict))
    && (forall k, k', i, j :: 0 <= k < k' < |rs| && 0 <= i < |rs[k]| && 0 <= j < |rs[k']|
          ==> Precedes(rs[k][i], rs[k'][j], strict))
  }

  /** Every row of the runs `prev` precedes `x`. */
  ghost predicate AllPrecede(prev: seq<seq<Sample>>, x: Sample, strict: bool)
  {
    forall k, i :: 0 <= k < |prev| && 0 <= i < |prev[k]| ==> Precedes(prev[k][i], x, strict)
  }

  lemma ExtendOrdered(prev: seq<seq<Sample>>, x: Sample, strict: bool)
    requires RunsOrdered(prev, strict) && AllPrecede(prev, x, strict) && prev != []
    ensures RunsOrdered(DropLast(prev) + [Last(prev) + [x]], strict)
  {
    var n := |prev| - 1;
    var rs := DropLast(prev) + [Last(prev) + [x]];
    forall k | 0 <= k < |rs| ensures OrderedBy(rs[k], strict) {
      if k == n {
        assert rs[k] == prev[n] + [x];
        assert OrderedBy(prev[n], strict);
      } else {
        assert rs[k] == prev[k];
      }
    }
    forall k, k', i, j | 0 <= k < k' < |rs| && 0 <= i < |rs[k]| && 0 <= j < |rs[k']|
      ensures Precedes(rs[k][i], rs[k'][j], strict)
    {
      assert rs[k] == prev[k];
      if k' == n && j == |prev[n]| {
        assert rs[k'][j] == x;
      } else {
        assert rs[k'][j] == prev[k'][j];
      }
    }
  }

  lemma OpenOrdered(prev: seq<seq<Sample>>, x: Sample, strict: bool)
    requires RunsOrdered(prev, strict) && AllPrecede(prev, x, strict)
    ensures RunsOrdered(prev + [[x]], strict)
  {
    var n := |prev|;
    var rs := prev + [[x]];
    forall k | 0 <= k < |rs| ensures OrderedBy(rs[k], strict) {
      if k < n { assert rs[k] == prev[k]; }
    }
    forall k, k', i, j | 0 <= k < k' < |rs| && 0 <= i < |rs[k]| && 0 <= j < |rs[k']|
      ensures Precedes(rs[k][i], rs[k'][j], strict)
    {
      assert rs[k] == prev[k];
      if k' == n {
        assert rs[k'][j] == x;
      } else {
        assert rs[k'] == prev[k'];
      }
    }
  }

  lemma {:induction false} RunsOfOrdered(s: seq<Sample>, strict: bool)
    requires OrderedBy(s, strict)
    ensures RunsOrdered(RunsOf(s), strict)
  {
    if s != [] {
      var pre, x := DropLast(s), Last(s);
      assert s == pre + [x];
      assert OrderedBy(pre, strict);
      RunsOfOrdered(pre, strict);
      RunsOfMembers(pre);
      RunsOfSnoc(pre, x);
      var prev := RunsOf(pre);
      forall k, i | 0 <= k < |prev| && 0 <= i < |prev[k]| ensures Precedes(prev[k][i], x, strict) {
        assert prev[k][i] in prev[k];
        assert prev[k][i] in pre;
        var m :| 0 <= m < |pre| && pre[m] == prev[k][i];
        assert s[m] == pre[m];
      }
      if prev != [] && Last(Last(prev)).success == x.success {
        ExtendOrdered(prev, x, strict);
      } else {
        OpenOrdered(prev, x, strict);
      }
    }
  }
}
