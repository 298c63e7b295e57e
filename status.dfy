/**
 * `getStatusOkAttribute` and the windowed counters `statusCount`,
 * `successCount` and `errorCount`, over the rows of one check.
 */
module Status {
  import opened Wrappers
  import opened Sequences
  import opened Samples
  import opened Humanize
  import opened EpisodeLog

  const SecondsPerHour: int := 3600

  /** The window `successCount` and `errorCount` use when no hours are given. */
  const DefaultWindowHours: int := 1

  /**
   * The outcome of the newest result of check `id` (`orderBy created_at desc`,
   * `take(1)`), or `None` for a check without results.
   */
  function StatusOk(table: seq<Sample>, id: int): (r: Option<bool>)
    ensures r.None? <==> forall x :: x in table ==> x.checkId != id
    ensures r.Some? ==> exists x :: x in table && x.checkId == id && x.success == r.value
  {
    var results := ResultsOf(table, id);
    if results == [] then None
    else
      assert Last(results) in results;
      Some(Last(results).success)
  }

  /** On time-ordered rows the status is the outcome of a result no other result of the check is newer than. */
  lemma StatusOkIsNewest(table: seq<Sample>, id: int)
    requires OrderedBy(table, false)
    requires StatusOk(table, id).Some?
    ensures exists x :: (x in table && x.checkId == id && x.success == StatusOk(table, id).value &&
                         forall y :: y in table && y.checkId == id ==> y.createdAt <= x.createdAt)
  {
    var results := ResultsOf(table, id);
    ResultsOfOrdered(table, id, false);
    var x := Last(results);
    assert x in results;
    forall y | y in table && y.checkId == id ensures y.createdAt <= x.createdAt {
      var i :| 0 <= i < |results| && results[i] == y;
      if i < |results| - 1 { assert Precedes(results[i], results[|results| - 1], false); }
    }
  }

  /**
   * The status agrees with the episode log: no results means an empty log,
   * and otherwise the newest episode has the current outcome. Both are read
   * from one row order here; the two queries of `Check` order ties
   * independently, so with two newest results at one timestamp and different
   * outcomes they need not agree.
   */
  lemma StatusOkMatchesLog(table: seq<Sample>, id: int, limit: int, lang: Label)
    requires limit >= 1
    ensures StatusOk(table, id).None? ==> GetLog(table, id, lang, 0, limit).value == []
    ensures StatusOk(table, id).Some? ==>
      |GetLog(table, id, lang, 0, limit).value| > 0 &&
      GetLog(table, id, lang, 0, limit).value[0].success == StatusOk(table, id).value
  {
    var results := ResultsOf(table, id);
    if results != [] {
      var c := Compact(results);
      assert Episodes(results)[0] == Last(c);
    }
  }

  /** A result of check `id` no older than `hours` before `now`. */
  predicate InWindow(x: Sample, id: int, hours: int, now: int)
  {
    x.checkId == id && x.createdAt >= now - hours * SecondsPerHour
  }

  /** The positions of the rows `statusCount` counts. */
  ghost function CountedIndices(table: seq<Sample>, id: int, success: bool, hours: int, now: int): set<int>
  {
    set i | 0 <= i < |table| && InWindow(table[i], id, hours, now) && table[i].success == success
  }

  /** The positions of all rows of check `id` in the window. */
  ghost function WindowIndices(table: seq<Sample>, id: int, hours: int, now: int): set<int>
  {
    set i | 0 <= i < |table| && InWindow(table[i], id, hours, now)
  }

  lemma CountedIndicesSnoc(table: seq<Sample>, id: int, success: bool, hours: int, now: int)
    requires table != []
    ensures var x := Last(table);
      CountedIndices(table, id, success, hours, now)
        == CountedIndices(DropLast(table), id, success, hours, now)
           + (if InWindow(x, id, hours, now) && x.success == success then {|table| - 1} else {})
    ensures |table| - 1 !in CountedIndices(DropLast(table), id, success, hours, now)
  {
    assert forall i :: 0 <= i < |table| - 1 ==> DropLast(table)[i] == table[i];
  }

  lemma WindowIndicesSnoc(table: seq<Sample>, id: int, hours: int, now: int)
    requires table != []
    ensures WindowIndices(table, id, hours, now)
        == WindowIndices(DropLast(table), id, hours, now)
           + (if InWindow(Last(table), id, hours, now) then {|table| - 1} else {})
    ensures |table| - 1 !in WindowIndices(DropLast(table), id, hours, now)
  {
    assert forall i :: 0 <= i < |table| - 1 ==> DropLast(table)[i] == table[i];
  }

  lemma SubsetCard<T>(a: set<T>, b: set<T>)
    requires a <= b
    ensures |a| <= |b|
  {
    assert b == a + (b - a);
  }

  /** `statusCount`: results of check `id` with outcome `success` in the window. */
  function StatusCount(table: seq<Sample>, id: int, success: bool, hours: int, now: int): (n: nat)
    ensures n == |CountedIndices(table, id, success, hours, now)|
    ensures n <= |ResultsOf(table, id)|
    ensures n == 0 <==> forall x :: x in table && InWindow(x, id, hours, now) ==> x.success != success
  {
    if table == [] then 0
    else
      var x := Last(table);
      assert table == DropLast(table) + [x];
      CountedIndicesSnoc(table, id, success, hours, now);
      StatusCount(DropLast(table), id, success, hours, now)
        + (if InWindow(x, id, hours, now) && x.success == success then 1 else 0)
  }

  /** All results of check `id` in the window, whatever their outcome. */
  function WindowCount(table: seq<Sample>, id: int, hours: int, now: int): (n: nat)
    ensures n == |WindowIndices(table, id, hours, now)|
  {
    if table == [] then 0
    else
      WindowIndicesSnoc(table, id, hours, now);
      WindowCount(DropLast(table), id, hours, now) + (if InWindow(Last(table), id, hours, now) then 1 else 0)
  }

  /** `successCount`: the successful results of check `id` in the last `hours` hours. */
  function SuccessCount(table: seq<Sample>, id: int, now: int, hours: int := DefaultWindowHours): (n: nat)
    ensures n == |CountedIndices(table, id, true, hours, now)|
    ensures n <= WindowCount(table, id, hours, now)
  {
    SubsetCard(CountedIndices(table, id, true, hours, now), WindowIndices(table, id, hours, now));
    StatusCount(table, id, true, hours, now)
  }

  /** `errorCount`: the failed results of check `id` in the last `hours` hours. */
  function ErrorCount(table: seq<Sample>, id: int, now: int, hours: int := DefaultWindowHours): (n: nat)
    ensures n == |CountedIndices(table, id, false, hours, now)|
    ensures n <= WindowCount(table, id, hours, now)
  {
    SubsetCard(CountedIndices(table, id, false, hours, now), WindowIndices(table, id, hours, now));
    StatusCount(table, id, false, hours, now)
  }

  /** Every result in the window is counted once, as a success or as an error. */
  lemma {:induction false} SuccessPlusError(table: seq<Sample>, id: int, hours: int, now: int)
    ensures SuccessCount(table, id, now, hours) + ErrorCount(table, id, now, hours) == WindowCount(table, id, hours, now)
  {
    if table != [] {
      SuccessPlusError(DropLast(table), id, hours, now);
    }
  }

  /** A wider window never counts fewer results. */
  lemma {:induction false} StatusCountMonotone(table: seq<Sample>, id: int, success: bool, h1: int, h2: int, now: int)
    requires h1 <= h2
    ensures StatusCount(table, id, success, h1, now) <= StatusCount(table, id, success, h2, now)
  {
    if table != [] {
      StatusCountMonotone(DropLast(table), id, success, h1, h2, now);
      var x := Last(table);
      if InWindow(x, id, h1, now) {
        assert h1 * SecondsPerHour <= h2 * SecondsPerHour;
      }
    }
  }

  /** Half an hour ago a success and a failure, ninety minutes ago another success. */
  lemma ScenarioCounts(now: int)
    ensures var table := [Sample(1, now - 5400, true), Sample(1, now - 1800, true), Sample(1, now - 1800, false)];
      && SuccessCount(table, 1, now) == 1
      && ErrorCount(table, 1, now) == 1
      && SuccessCount(table, 1, now, 2) == 2
  {
    var table := [Sample(1, now - 5400, true), Sample(1, now - 1800, true), Sample(1, now - 1800, false)];
    assert DropLast(table) == table[..2];
    assert DropLast(table[..2]) == table[..1];
    assert DropLast(table[..1]) == [];
    assert StatusCount(table[..1], 1, true, 1, now) == 0;
    assert StatusCount(table[..2], 1, true, 1, now) == 1;
    assert StatusCount(table[..1], 1, true, 2, now) == 1;
    assert StatusCount(table[..2], 1, true, 2, now) == 2;
  }
}
