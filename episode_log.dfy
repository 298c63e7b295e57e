/**
 * `getLog`: the history of a check as episodes, maximal runs of one outcome,
 * newest first and paginated with `LIMIT offset, limit` after grouping.
 */
module EpisodeLog {
  import opened Wrappers
  import opened Sequences
  import opened Samples
  import opened Runs
  import opened Humanize

  /** One row of the outer query: first and last time of a run, inclusive duration, outcome. */
  datatype Episode = Episode(start: int, end: int, duration: int, success: bool)

  /** One element of the array `getLog` returns, with the humanised duration. */
  datatype LogEntry = LogEntry(start: int, end: int, duration: int, durationLocale: string, success: bool)

  /** MySQL refuses a negative number in `LIMIT offset, limit`. */
  datatype LogError = NegativeLimit

  function Min(a: int, b: int): int { if a <= b then a else b }
  function Max(a: int, b: int): int { if a <= b then b else a }

  /** `start`, `end` and `duration` agree: `duration = end - start + 1`, so never below 1. */
  predicate WellTimed(e: Episode)
  {
    e.start <= e.end && e.duration == e.end - e.start + 1
  }

  /** The episode of a run that so far holds the one row `x`. */
  function Open(x: Sample): Episode
  {
    Episode(x.createdAt, x.createdAt, 1, x.success)
  }

  /** The episode `e` after the row `x` joins its run (`MIN`/`MAX` of `created_at`). */
  function Extend(e: Episode, x: Sample): Episode
  {
    var lo := Min(e.start, x.createdAt);
    var hi := Max(e.end, x.createdAt);
    Episode(lo, hi, hi - lo + 1, e.success)
  }

  /**
   * The grouping of the two nested queries as a left-to-right fold: a row with
   * the outcome of the current run extends it, any other row opens a new run.
   */
  function Compact(s: seq<Sample>): (es: seq<Episode>)
    ensures |es| <= |s| && ((es == []) <==> (s == []))
    ensures s != [] ==> Last(es).success == Last(s).success
    ensures forall k :: 0 <= k < |es| ==> WellTimed(es[k])
    ensures forall i, j :: 0 <= i < j < |es| && j == i + 1 ==> es[i].success != es[j].success
  {
    if s == [] then []
    else
      var prev := Compact(DropLast(s));
      var x := Last(s);
      if prev != [] && Last(prev).success == x.success then DropLast(prev) + [Extend(Last(prev), x)]
      else prev + [Open(x)]
  }

  lemma CompactSnoc(pre: seq<Sample>, x: Sample)
    ensures var prev := Compact(pre);
      Compact(pre + [x]) ==
        if prev != [] && Last(prev).success == x.success then DropLast(prev) + [Extend(Last(prev), x)]
        else prev + [Open(x)]
  {
    assert DropLast(pre + [x]) == pre;
  }

  /** The earliest `created_at` of a run (`MIN(created_at)`). */
  function MinTime(run: seq<Sample>): (t: int)
    requires |run| > 0
    ensures forall i :: 0 <= i < |run| ==> t <= run[i].createdAt
    ensures exists i :: 0 <= i < |run| && run[i].createdAt == t
  {
    if |run| == 1 then run[0].createdAt else Min(MinTime(DropLast(run)), Last(run).createdAt)
  }

  /** The latest `created_at` of a run (`MAX(created_at)`). */
  function MaxTime(run: seq<Sample>): (t: int)
    requires |run| > 0
    ensures forall i :: 0 <= i < |run| ==> run[i].createdAt <= t
    ensures exists i :: 0 <= i < |run| && run[i].createdAt == t
  {
    if |run| == 1 then run[0].createdAt else Max(MaxTime(DropLast(run)), Last(run).createdAt)
  }

  /** The episode that the outer query reports for one group of rows. */
  function EpisodeOf(run: seq<Sample>): (e: Episode)
    requires |run| > 0
    ensures WellTimed(e) && e.duration >= 1
    ensures |run| == 1 ==> e.duration == 1
  {
    var lo, hi := MinTime(run), MaxTime(run);
    Episode(lo, hi, hi - lo + 1, run[0].success)
  }

  lemma EpisodeOfSnoc(run: seq<Sample>, x: Sample)
    requires |run| > 0
    ensures EpisodeOf(run + [x]) == Extend(EpisodeOf(run), x)
  {
    assert DropLast(run + [x]) == run;
  }

  /** `es` is, run by run, the episodes of `runs`. */
  ghost predicate EpisodesOfRuns(es: seq<Episode>, runs: seq<seq<Sample>>)
  {
    && |es| == |runs|
    && (forall k :: 0 <= k < |runs| ==> |runs[k]| > 0 && es[k] == EpisodeOf(runs[k]))
  }

  lemma EpisodesOfRunsExtend(es: seq<Episode>, runs: seq<seq<Sample>>, x: Sample)
    requires EpisodesOfRuns(es, runs) && runs != []
    ensures EpisodesOfRuns(DropLast(es) + [Extend(Last(es), x)], DropLast(runs) + [Last(runs) + [x]])
  {
    EpisodeOfSnoc(Last(runs), x);
  }

  lemma EpisodesOfRunsOpen(es: seq<Episode>, runs: seq<seq<Sample>>, x: Sample)
    requires EpisodesOfRuns(es, runs)
    ensures EpisodesOfRuns(es + [Open(x)], runs + [[x]])
  {
  }

  /** The fold yields, run by run, the episodes of the maximal runs. */
  lemma {:induction false} CompactIsEpisodesOfRuns(s: seq<Sample>)
    ensures EpisodesOfRuns(Compact(s), RunsOf(s))
  {
    if s != [] {
      var pre, x := DropLast(s), Last(s);
      assert s == pre + [x];
      CompactIsEpisodesOfRuns(pre);
      RunsOfDecomposes(pre);
      CompactSnoc(pre, x);
      RunsOfSnoc(pre, x);
      var prev, runs := Compact(pre), RunsOf(pre);
      if prev != [] {
        var n := |runs| - 1;
        assert Uniform(runs[n]);
        assert Last(prev).success == Last(Last(runs)).success;
        if Last(prev).success == x.success {
          EpisodesOfRunsExtend(prev, runs, x);
        } else {
          EpisodesOfRunsOpen(prev, runs, x);
        }
      } else {
        EpisodesOfRunsOpen(prev, runs, x);
      }
    }
  }

  /**
   * The episodes partition the rows: they are exactly the episodes of the unique
   * decomposition of the rows into maximal runs of one outcome.
   */
  lemma CompactPartitions(s: seq<Sample>)
    ensures IsRunDecomposition(RunsOf(s), s)
    ensures forall rs :: IsRunDecomposition(rs, s) ==> rs == RunsOf(s)
    ensures |Compact(s)| == |RunsOf(s)|
    ensures forall k :: 0 <= k < |RunsOf(s)| ==> Compact(s)[k] == EpisodeOf(RunsOf(s)[k])
  {
    RunsOfDecomposes(s);
    CompactIsEpisodesOfRuns(s);
    forall rs | IsRunDecomposition(rs, s) ensures rs == RunsOf(s) {
      RunsOfUnique(rs, s);
    }
  }

  lemma OrderedRunTimes(run: seq<Sample>)
    requires |run| > 0 && OrderedBy(run, false)
    ensures MinTime(run) == run[0].createdAt && MaxTime(run) == Last(run).createdAt
  {
    var i :| 0 <= i < |run| && run[i].createdAt == MinTime(run);
    if i > 0 { assert Precedes(run[0], run[i], false); }
    var j :| 0 <= j < |run| && run[j].createdAt == MaxTime(run);
    if j < |run| - 1 { assert Precedes(run[j], run[|run| - 1], false); }
  }

  lemma StrictImpliesOrdered(s: seq<Sample>)
    requires OrderedBy(s, true)
    ensures OrderedBy(s, false)
  {
    forall i, j | 0 <= i < j < |s| ensures Precedes(s[i], s[j], false) {
      assert Precedes(s[i], s[j], true);
    }
  }

  /** On time-ordered rows each episode starts at the first and ends at the last row of its run. */
  lemma CompactBoundaries(s: seq<Sample>)
    requires OrderedBy(s, false)
    ensures |Compact(s)| == |RunsOf(s)|
    ensures forall k :: 0 <= k < |RunsOf(s)| ==>
      Compact(s)[k].start == RunsOf(s)[k][0].createdAt && Compact(s)[k].end == Last(RunsOf(s)[k]).createdAt
  {
    CompactIsEpisodesOfRuns(s);
    RunsOfOrdered(s, false);
    forall k | 0 <= k < |RunsOf(s)|
      ensures Compact(s)[k].start == RunsOf(s)[k][0].createdAt && Compact(s)[k].end == Last(RunsOf(s)[k]).createdAt
    {
      OrderedRunTimes(RunsOf(s)[k]);
    }
  }

  /** Reverses a sequence; `ORDER BY start DESC` on groups that come in time order. */
  function Reverse<T>(xs: seq<T>): seq<T>
  {
    seq(|xs|, i requires 0 <= i < |xs| => xs[|xs| - 1 - i])
  }

  /** The complete list of episodes of the rows, newest first. */
  function Episodes(s: seq<Sample>): (es: seq<Episode>)
    ensures |es| <= |s| && ((es == []) <==> (s == []))
    ensures s != [] ==> es[0].success == Last(s).success
    ensures forall k :: 0 <= k < |es| ==> WellTimed(es[k]) && es[k].duration >= 1
    ensures forall i, j :: 0 <= i < j < |es| && j == i + 1 ==> es[i].success != es[j].success
  {
    var c := Compact(s);
    var es := Reverse(c);
    assert forall k :: 0 <= k < |es| ==> es[k] == c[|c| - 1 - k];
    es
  }

  /** Times never increase down the list; with `strict` they decrease. */
  predicate Descending(ts: seq<int>, strict: bool)
  {
    forall i, j :: 0 <= i < j < |ts| ==> if strict then ts[i] > ts[j] else ts[i] >= ts[j]
  }

  /**
   * The `start` column, of a list of episodes (`Starts`) and of a page of log
   * entries (`EntryStarts`): the same projection on the two record types, so
   * that `Descending` states the one order `ORDER BY start DESC` asks for.
   */
  function Starts(es: seq<Episode>): (ts: seq<int>)
    ensures |ts| == |es| && forall k :: 0 <= k < |es| ==> ts[k] == es[k].start
  {
    seq(|es|, k requires 0 <= k < |es| => es[k].start)
  }

  function EntryStarts(log: seq<LogEntry>): (ts: seq<int>)
    ensures |ts| == |log| && forall k :: 0 <= k < |log| ==> ts[k] == log[k].start
  {
    seq(|log|, k requires 0 <= k < |log| => log[k].start)
  }

  /** On time-ordered rows the episodes of the fold start in time order. */
  lemma CompactStartsOrdered(s: seq<Sample>, strict: bool)
    requires OrderedBy(s, strict)
    ensures forall k, k' :: 0 <= k < k' < |Compact(s)| ==>
      if strict then Compact(s)[k].start < Compact(s)[k'].start else Compact(s)[k].start <= Compact(s)[k'].start
  {
    if strict { StrictImpliesOrdered(s); }
    CompactBoundaries(s);
    RunsOfOrdered(s, strict);
    var c, rs := Compact(s), RunsOf(s);
    forall k, k' | 0 <= k < k' < |c|
      ensures if strict then c[k].start < c[k'].start else c[k].start <= c[k'].start
    {
      assert Precedes(rs[k][0], rs[k'][0], strict);
    }
  }

  /**
   * On time-ordered rows the reversed list is sorted by `start` descending, as
   * `ORDER BY start DESC` asks; strictly so when no two rows share a timestamp.
   */
  lemma EpisodesNewestFirst(s: seq<Sample>, strict: bool)
    requires OrderedBy(s, strict)
    ensures Descending(Starts(Episodes(s)), strict)
  {
    CompactStartsOrdered(s, strict);
    var c := Compact(s);
    var es := Episodes(s);
    var ts := Starts(es);
    forall i, j | 0 <= i < j < |ts|
      ensures if strict then ts[i] > ts[j] else ts[i] >= ts[j]
    {
      assert es[i] == c[|c| - 1 - i] && es[j] == c[|c| - 1 - j];
    }
  }

  /** `LIMIT offset, limit`: at most `limit` items, from position `offset` on. */
  function Page<T>(xs: seq<T>, offset: nat, limit: nat): (r: seq<T>)
    ensures |r| <= limit
    ensures |r| == Min(limit, |xs| - Min(offset, |xs|))
    ensures forall i :: 0 <= i < |r| ==> offset + i < |xs| && r[i] == xs[offset + i]
  {
    xs[Min(offset, |xs|)..Min(offset + limit, |xs|)]
  }

  /** Two consecutive pages make up the page that spans both. */
  lemma PageSplit<T>(xs: seq<T>, n: nat, k: nat)
    ensures Page(xs, 0, n) + Page(xs, n, k) == Page(xs, 0, n + k)
  {
  }

  /** The array `array_map` builds for one episode, with the humanised duration. */
  function EntryOf(e: Episode, lang: Label): (r: LogEntry)
    requires e.duration >= 0
    ensures r.start == e.start && r.end == e.end && r.duration == e.duration && r.success == e.success
    ensures r.durationLocale == Humanized(e.duration, lang)
    ensures r.durationLocale == "" <==> e.duration < SecondsPerMinute
  {
    HumanizedEmptyIff(e.duration, lang);
    LogEntry(e.start, e.end, e.duration, Humanized(e.duration, lang), e.success)
  }

  /** `getLog`'s default page: the first twenty episodes. */
  const DefaultOffset: int := 0
  const DefaultLimit: int := 20

  /**
   * The query of `getLog` exactly as written: it reads every row of the results
   * table, whatever check the row belongs to.
   */
  function GetLogUnfiltered(rows: seq<Sample>, lang: Label, offset: int := DefaultOffset, limit: int := DefaultLimit)
    : (r: Result<seq<LogEntry>, LogError>)
    ensures r.Failure? <==> (offset < 0 || limit < 0)
    ensures r.Success? ==> |r.value| <= limit
    ensures r.Success? ==>
      |r.value| == Min(limit, |Episodes(rows)| - Min(offset, |Episodes(rows)|))
    ensures r.Success? ==> forall i :: 0 <= i < |r.value| ==>
      offset + i < |Episodes(rows)| && r.value[i] == EntryOf(Episodes(rows)[offset + i], lang)
    ensures r.Success? && rows == [] ==> r.value == []
  {
    if offset < 0 || limit < 0 then Failure(NegativeLimit)
    else
      var page := Page(Episodes(rows), offset, limit);
      Success(seq(|page|, i requires 0 <= i < |page| => EntryOf(page[i], lang)))
  }

  /** The episode log of check `id`: the same query over that check's results only. */
  function GetLog(table: seq<Sample>, id: int, lang: Label, offset: int := DefaultOffset, limit: int := DefaultLimit)
    : (r: Result<seq<LogEntry>, LogError>)
    ensures r.Failure? <==> (offset < 0 || limit < 0)
    ensures r.Success? ==> |r.value| <= limit
    ensures r.Success? ==>
      var es := Episodes(ResultsOf(table, id));
      |r.value| == Min(limit, |es| - Min(offset, |es|))
    ensures r.Success? ==> forall i :: 0 <= i < |r.value| ==>
      var es := Episodes(ResultsOf(table, id));
      offset + i < |es| && r.value[i] == EntryOf(es[offset + i], lang)
  {
    GetLogUnfiltered(ResultsOf(table, id), lang, offset, limit)
  }

  /** One step of the scan: the row `x` extends the current run or closes it and opens its own. */
  lemma ScanStep(pre: seq<Sample>, x: Sample, closed: seq<Episode>, lo: int, hi: int, success: bool)
    requires Compact(pre) == closed + [Episode(lo, hi, hi - lo + 1, success)]
    ensures x.success == success ==>
      Compact(pre + [x]) == closed + [Episode(Min(lo, x.createdAt), Max(hi, x.createdAt),
                                              Max(hi, x.createdAt) - Min(lo, x.createdAt) + 1, success)]
    ensures x.success != success ==>
      Compact(pre + [x]) == closed + [Episode(lo, hi, hi - lo + 1, success)] + [Open(x)]
  {
    CompactSnoc(pre, x);
    assert DropLast(Compact(pre)) == closed;
  }

  /**
   * The grouping scan as the database runs it: one pass over the ordered rows,
   * keeping the current run's first and last time and its outcome.
   */
  method ScanEpisodes(a: array<Sample>) returns (es: seq<Episode>)
    ensures es == Compact(a[..])
  {
    es := [];
    if a.Length == 0 {
      return;
    }
    var lo, hi, success := a[0].createdAt, a[0].createdAt, a[0].success;
    assert a[..1] == [] + [a[0]];
    CompactSnoc([], a[0]);
    var i := 1;
    while i < a.Length
      invariant 1 <= i <= a.Length
      invariant Compact(a[..i]) == es + [Episode(lo, hi, hi - lo + 1, success)]
    {
      var x := a[i];
      assert a[..i + 1] == a[..i] + [x];
      ScanStep(a[..i], x, es, lo, hi, success);
      if x.success == success {
        lo, hi := Min(lo, x.createdAt), Max(hi, x.createdAt);
      } else {
        es := es + [Episode(lo, hi, hi - lo + 1, success)];
        lo, hi, success := x.createdAt, x.createdAt, x.success;
      }
      i := i + 1;
    }
    assert a[..a.Length] == a[..];
    es := es + [Episode(lo, hi, hi - lo + 1, success)];
  }

  /** Consecutive pages of the log of any rows concatenate, entry by entry as the episodes do. */
  lemma PagesOfRows(rows: seq<Sample>, n: nat, k: nat, lang: Label)
    ensures GetLogUnfiltered(rows, lang, 0, n).value + GetLogUnfiltered(rows, lang, n, k).value
         == GetLogUnfiltered(rows, lang, 0, n + k).value
  {
    var es := Episodes(rows);
    PageSplit(es, n, k);
    var a, b, c := GetLogUnfiltered(rows, lang, 0, n).value, GetLogUnfiltered(rows, lang, n, k).value,
                   GetLogUnfiltered(rows, lang, 0, n + k).value;
    forall i | 0 <= i < |c| ensures (a + b)[i] == c[i] {
      if i < |a| {
        assert (a + b)[i] == a[i];
      } else {
        assert |a| == n;
        assert (a + b)[i] == b[i - n];
      }
    }
  }

  /** Page `(0, n)` followed by page `(n, k)` is page `(0, n + k)`. */
  lemma GetLogPages(table: seq<Sample>, id: int, n: nat, k: nat, lang: Label)
    ensures GetLog(table, id, lang, 0, n).Success? && GetLog(table, id, lang, n, k).Success?
    ensures GetLog(table, id, lang, 0, n).value + GetLog(table, id, lang, n, k).value
         == GetLog(table, id, lang, 0, n + k).value
  {
    PagesOfRows(ResultsOf(table, id), n, k, lang);
  }

  /** Every page lists newer episodes first; strictly so when the check's timestamps are distinct. */
  lemma GetLogNewestFirst(table: seq<Sample>, id: int, offset: int, limit: int, lang: Label, strict: bool)
    requires OrderedBy(ResultsOf(table, id), strict)
    ensures GetLog(table, id, lang, offset, limit).Success? ==>
      Descending(EntryStarts(GetLog(table, id, lang, offset, limit).value), strict)
  {
    var es := Episodes(ResultsOf(table, id));
    EpisodesNewestFirst(ResultsOf(table, id), strict);
    var r := GetLog(table, id, lang, offset, limit);
    if r.Success? {
      var ts, all := EntryStarts(r.value), Starts(es);
      forall i, j | 0 <= i < j < |ts|
        ensures if strict then ts[i] > ts[j] else ts[i] >= ts[j]
      {
        assert ts[i] == all[offset + i] && ts[j] == all[offset + j];
      }
    }
  }

  /**
   * Neighbouring entries of a page have different outcomes, and every entry
   * keeps `duration = end - start + 1 >= 1` with its humanised duration.
   */
  lemma GetLogEntriesWellFormed(table: seq<Sample>, id: int, offset: int, limit: int, lang: Label)
    ensures GetLog(table, id, lang, offset, limit).Success? ==>
      var log := GetLog(table, id, lang, offset, limit).value;
      && (forall i :: 0 <= i < |log| ==>
            log[i].start <= log[i].end && log[i].duration == log[i].end - log[i].start + 1
            && log[i].duration >= 1 && log[i].durationLocale == Humanized(log[i].duration, lang))
      && (forall i, j :: 0 <= i < j < |log| && j == i + 1 ==> log[i].success != log[j].success)
  {
    var r := GetLog(table, id, lang, offset, limit);
    if r.Success? {
      var c := Compact(ResultsOf(table, id));
      var es := Episodes(ResultsOf(table, id));
      var n := |c|;
      var log := r.value;
      forall i, j | 0 <= i < j < |log| && j == i + 1 ensures log[i].success != log[j].success {
        assert log[i].success == c[n - 1 - (offset + i)].success;
        assert log[j].success == c[n - 1 - (offset + j)].success;
      }
    }
  }

  /**
   * Five probes one second apart from time `t`, two failures then three
   * successes: two episodes, newest first.
   */
  lemma ScenarioEpisodes(id: int, t: int)
    ensures Episodes([Sample(id, t, false), Sample(id, t + 1, false), Sample(id, t + 2, true),
                      Sample(id, t + 3, true), Sample(id, t + 4, true)])
         == [Episode(t + 2, t + 4, 3, true), Episode(t, t + 1, 2, false)]
  {
    var s0, s1, s2, s3, s4 := Sample(id, t, false), Sample(id, t + 1, false), Sample(id, t + 2, true),
                              Sample(id, t + 3, true), Sample(id, t + 4, true);
    CompactSnoc([], s0);
    assert [] + [s0] == [s0];
    ScanStep([s0], s1, [], t, t, false);
    assert [s0] + [s1] == [s0, s1];
    ScanStep([s0, s1], s2, [], t, t + 1, false);
    assert [s0, s1] + [s2] == [s0, s1, s2];
    ScanStep([s0, s1, s2], s3, [Episode(t, t + 1, 2, false)], t + 2, t + 2, true);
    assert [s0, s1, s2] + [s3] == [s0, s1, s2, s3];
    ScanStep([s0, s1, s2, s3], s4, [Episode(t, t + 1, 2, false)], t + 2, t + 3, true);
    assert [s0, s1, s2, s3] + [s4] == [s0, s1, s2, s3, s4];
  }

  /**
   * The as-written query mixes checks: adding a result of check 2 changes the
   * log of check 1, and the newest entry it shows for check 1 is check 2's failure.
   */
  lemma UnfilteredLogMixesChecks(lang: Label)
    ensures var own := [Sample(1, 0, true)];
      var table := own + [Sample(2, 60, false)];
      && ResultsOf(table, 1) == own
      && GetLogUnfiltered(table, lang, 0, 20) != GetLogUnfiltered(own, lang, 0, 20)
      && GetLogUnfiltered(table, lang, 0, 20).value[0].success == false
      && GetLog(table, 1, lang, 0, 20).value[0].success == true
  {
    var own := [Sample(1, 0, true)];
    var table := own + [Sample(2, 60, false)];
    assert DropLast(table) == own;
    CompactSnoc([], own[0]);
    assert [] + own == own;
    CompactSnoc(own, Sample(2, 60, false));
    assert ResultsOf(own, 1) == own by { assert DropLast(own) == []; }
  }

  /** The corrected log of a check depends on that check's results and nothing else. */
  lemma GetLogOwnResultsOnly(t1: seq<Sample>, t2: seq<Sample>, id: int, offset: int, limit: int, lang: Label)
    requires ResultsOf(t1, id) == ResultsOf(t2, id)
    ensures GetLog(t1, id, lang, offset, limit) == GetLog(t2, id, lang, offset, limit)
  {
  }
}
