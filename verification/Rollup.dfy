/** Hourly statistics of the request log, and one rollup. */
module Rollup {
  import opened Text
  import opened Sorting
  import opened Hits

  /** Times are in seconds. */
  const HOUR := 3600

  datatype Row = Row(entry: LogEntry, time: int)

  datatype Stat = Stat(hits: nat, ips: nat)

  type Stats = map<(Str, int), Stat>

  predicate InHour(row: Row, h: int) {
    h * HOUR <= row.time < (h + 1) * HOUR
  }

  /** Truncating a time to the hour: the one hour that contains it. */
  function HourOf(t: int): (h: int)
    ensures h * HOUR <= t < (h + 1) * HOUR
  {
    t / HOUR
  }

  /** The rows of domain d in hour h. */
  function RowsIn(log: seq<Row>, d: Str, h: int): seq<Row> {
    if log == [] then []
    else
      var row := log[|log| - 1];
      RowsIn(log[..|log| - 1], d, h) + if row.entry.domain == d && InHour(row, h) then [row] else []
  }

  /** COUNT(*) and COUNT(DISTINCT client_ip). */
  function StatFor(log: seq<Row>, d: Str, h: int): Stat {
    var rows := RowsIn(log, d, h);
    Stat(|rows|, |set r | r in rows :: r.entry.clientIp|)
  }

  function DomainsIn(log: seq<Row>, h: int): set<Str> {
    set r | r in log && InHour(r, h) :: r.entry.domain
  }

  /** No row stands for no hits. */
  function StatAt(stats: Stats, d: Str, h: int): Stat {
    if (d, h) in stats then stats[(d, h)] else Stat(0, 0)
  }

  lemma {:induction false} NoRows(log: seq<Row>, d: Str, h: int)
    requires d !in DomainsIn(log, h)
    ensures RowsIn(log, d, h) == []
  {
    if log == [] {
    } else {
      var front, row := log[..|log| - 1], log[|log| - 1];
      assert row in log;
      assert forall r :: r in front ==> r in log;
      NoRows(front, d, h);
    }
  }

  lemma {:induction false} RowsOfConcat(a: seq<Row>, b: seq<Row>, d: Str, h: int)
    ensures RowsIn(a + b, d, h) == RowsIn(a, d, h) + RowsIn(b, d, h)
  {
    if b == [] {
      assert a + b == a;
    } else {
      assert (a + b)[..|a + b| - 1] == a + b[..|b| - 1];
      RowsOfConcat(a, b[..|b| - 1], d, h);
    }
  }

  // ---- What the figures mean ----

  lemma InHourIff(row: Row, h: int)
    ensures InHour(row, h) <==> row.time / 3600 == h
  {
  }

  lemma {:induction false} RowsAre(log: seq<Row>, d: Str, h: int, row: Row)
    ensures row in RowsIn(log, d, h) <==> row in log && row.entry.domain == d && InHour(row, h)
  {
    if log == [] {
    } else {
      assert log == log[..|log| - 1] + [log[|log| - 1]];
      RowsAre(log[..|log| - 1], d, h, row);
    }
  }

  /** A domain is delivered exactly when it has rows. */
  lemma DomainHasRows(log: seq<Row>, d: Str, h: int)
    ensures d in DomainsIn(log, h) <==> RowsIn(log, d, h) != []
  {
    if d !in DomainsIn(log, h) {
      NoRows(log, d, h);
    } else {
      var row :| row in log && InHour(row, h) && row.entry.domain == d;
      RowsAre(log, d, h, row);
    }
  }

  /** Some row of domain d in hour h comes from this address. */
  ghost predicate Seen(log: seq<Row>, d: Str, h: int, ip: Str) {
    exists i :: 0 <= i < |log| && log[i].entry.domain == d && log[i].time / 3600 == h && log[i].entry.clientIp == ip
  }

  lemma SeenIff(log: seq<Row>, d: Str, h: int, ip: Str)
    ensures Seen(log, d, h, ip) <==> exists r :: r in RowsIn(log, d, h) && r.entry.clientIp == ip
  {
    if r :| r in RowsIn(log, d, h) && r.entry.clientIp == ip {
      RowsAre(log, d, h, r);
      var i :| 0 <= i < |log| && log[i] == r;
      InHourIff(r, h);
    }
    if i :| 0 <= i < |log| && log[i].entry.domain == d && log[i].time / 3600 == h && log[i].entry.clientIp == ip {
      var r := log[i];
      InHourIff(r, h);
      RowsAre(log, d, h, r);
    }
  }

  /**
   * A row counts once as a hit of its domain and hour, and as one more address exactly when the
   * address has not been seen there before.
   */
  lemma FigureGrows(log: seq<Row>, row: Row, d: Str, h: int)
    ensures StatFor([], d, h) == Stat(0, 0)
    ensures var counts := row.entry.domain == d && row.time / 3600 == h;
            StatFor(log + [row], d, h) ==
            Stat(StatFor(log, d, h).hits + (if counts then 1 else 0),
                 StatFor(log, d, h).ips + (if counts && !Seen(log, d, h, row.entry.clientIp) then 1 else 0))
  {
    InHourIff(row, h);
    SeenIff(log, d, h, row.entry.clientIp);
    var before, after := RowsIn(log, d, h), RowsIn(log + [row], d, h);
    assert (log + [row])[..|log|] == log;
    var ips := set r | r in before :: r.entry.clientIp;
    if row.entry.domain == d && InHour(row, h) {
      assert after == before + [row];
      assert (set r | r in after :: r.entry.clientIp) == ips + {row.entry.clientIp};
    } else {
      assert after == before;
    }
  }

  /** The log beyond its first n rows matters for a figure exactly when it has rows of the domain and hour. */
  lemma PrefixExactIff(log: seq<Row>, n: nat, d: Str, h: int)
    requires n <= |log|
    ensures StatFor(log[..n], d, h).hits <= StatFor(log, d, h).hits
    ensures StatFor(log[..n], d, h) == StatFor(log, d, h) <==> RowsIn(log[n..], d, h) == []
    ensures StatFor(log[..n], d, h).hits == StatFor(log, d, h).hits <==> RowsIn(log[n..], d, h) == []
  {
    assert log == log[..n] + log[n..];
    RowsOfConcat(log[..n], log[n..], d, h);
    if RowsIn(log[n..], d, h) == [] {
      assert RowsIn(log, d, h) == RowsIn(log[..n], d, h);
    }
  }

  // ---- One rollup ----

  /** m with the entries of found for hour h put over it. */
  function PutHour<T>(m: map<(Str, int), T>, h: int, found: map<Str, T>): map<(Str, int), T> {
    map k | k in m.Keys + (set d | d in found :: (d, h)) :: if k.1 == h && k.0 in found then found[k.0] else m[k]
  }

  /** found is what the grouping query delivers for hour h: the figures of some of the domains with rows. */
  ghost predicate IsQuery(found: map<Str, Stat>, log: seq<Row>, h: int) {
    found.Keys <= DomainsIn(log, h) && forall d :: d in found ==> found[d] == StatFor(log, d, h)
  }

  /** Every domain with rows in the hour gets its figures; nothing else changes. */
  ghost predicate RolledUp(before: Stats, after: Stats, log: seq<Row>, h: int) {
    forall d, g :: StatAt(after, d, g) ==
      if g == h && d in DomainsIn(log, h) then StatFor(log, d, h) else StatAt(before, d, g)
  }

  lemma CompleteRollup(stats: Stats, log: seq<Row>, h: int, found: map<Str, Stat>)
    requires IsQuery(found, log, h) && found.Keys == DomainsIn(log, h)
    ensures RolledUp(stats, PutHour(stats, h, found), log, h)
  {
  }

  /** After a rollup the hour is exact exactly when it was so before for every domain the query did not deliver. */
  lemma RollupExactIff(stats: Stats, log: seq<Row>, h: int, found: map<Str, Stat>)
    requires IsQuery(found, log, h)
    ensures (forall d :: StatAt(PutHour(stats, h, found), d, h) == StatFor(log, d, h)) <==>
            (forall d :: d !in found ==> StatAt(stats, d, h) == StatFor(log, d, h))
  {
    forall d
      ensures StatAt(PutHour(stats, h, found), d, h) == if d in found then StatFor(log, d, h) else StatAt(stats, d, h)
    {
    }
  }

  /** The first n statements succeed. */
  ghost predicate Succeeding(faults: set<nat>, n: nat) {
    forall k :: 0 <= k < n ==> k !in faults
  }

  /**
   * The numbers of the statements that fail (query, begin, upserts, commit), and after how many rows
   * the grouping query ends early, if it does.
   */
  datatype RollFaults = RollFaults(statements: set<nat>, rows: Option<nat>)

  class Analytics {
    var log: seq<Row>
    var stats: Stats

    constructor ()
      ensures log == [] && stats == map[]
    {
      log, stats := [], map[];
    }

    /** The grouping query, which is not part of the transaction; limit says after how many rows it ends early. */
    method Query(h: int, limit: Option<nat>) returns (groups: seq<Str>, found: map<Str, Stat>)
      ensures IsQuery(found, log, h)
      ensures Distinct(groups) && forall d :: d in groups <==> d in found
      ensures |groups| == DeliveredCount(|DomainsIn(log, h)|, limit)
      ensures limit.None? ==> found.Keys == DomainsIn(log, h)
    {
      var all := InSomeOrder(DomainsIn(log, h));
      DistinctSize(all, DomainsIn(log, h));
      groups := Delivered(all, limit);
      found := map d | d in groups :: StatFor(log, d, h);
      forall d | d in groups ensures d in DomainsIn(log, h) {
        assert d in all;
      }
    }

    /** The transaction: upserts the figures the query delivered, all or none. */
    method Commit(h: int, groups: seq<Str>, found: map<Str, Stat>, faults: set<nat>) returns (ok: bool)
      requires 0 !in faults && forall d :: d in groups <==> d in found
      modifies this`stats
      ensures ok <==> Succeeding(faults, |groups| + 3)
      ensures stats == if ok then PutHour(old(stats), h, found) else old(stats)
    {
      if 1 in faults {
        return false;
      }
      var tx := stats;
      for i := 0 to |groups|
        invariant stats == old(stats) && Succeeding(faults, i + 2)
        invariant tx == PutFirst(stats, h, groups, found, i)
      {
        if i + 2 in faults {
          return false;
        }
        var d := groups[i];
        assert d in groups;
        tx := tx[(d, h) := found[d]];
      }
      if |groups| + 2 in faults {
        return false;
      }
      PutFirstIsAll(stats, h, groups, found);
      stats := tx;
      return true;
    }

    /**
     * Rolls up the hour of t. On any reported error the statistics stay as they were; a grouping
     * query that ends early is not noticed, and leaves the figures of the other domains as they were.
     */
    method RunRollup(t: int, faults: RollFaults) returns (ok: bool, ghost found: map<Str, Stat>)
      modifies this`stats
      ensures IsQuery(found, log, HourOf(t))
      ensures |found| == DeliveredCount(|DomainsIn(log, HourOf(t))|, faults.rows)
      ensures ok <==> Succeeding(faults.statements, |found| + 3)
      ensures stats == if ok then PutHour(old(stats), HourOf(t), found) else old(stats)
      ensures ok && faults.rows.None? ==> RolledUp(old(stats), stats, log, HourOf(t))
      ensures faults.rows == Some(0) ==> stats == old(stats)
    {
      var h := HourOf(t);
      var groups, figures := Query(h, faults.rows);
      found := figures;
      DistinctSize(groups, found.Keys);
      NothingPut(stats, h);
      if faults.rows.None? {
        CompleteRollup(stats, log, h, found);
      }
      if 0 in faults.statements {
        return false, found;
      }
      ok := Commit(h, groups, figures, faults.statements);
    }

    /** The previous hour, then the current one; a failure of either is only logged. */
    method RollupNow(now: int, previous: RollFaults, current: RollFaults)
      returns (okPrevious: bool, okCurrent: bool, ghost mid: Stats, ghost p: map<Str, Stat>, ghost c: map<Str, Stat>)
      modifies this`stats
      ensures IsQuery(p, log, HourOf(now - HOUR)) && IsQuery(c, log, HourOf(now))
      ensures |p| == DeliveredCount(|DomainsIn(log, HourOf(now - HOUR))|, previous.rows)
      ensures |c| == DeliveredCount(|DomainsIn(log, HourOf(now))|, current.rows)
      ensures okPrevious <==> Succeeding(previous.statements, |p| + 3)
      ensures okCurrent <==> Succeeding(current.statements, |c| + 3)
      ensures mid == if okPrevious then PutHour(old(stats), HourOf(now - HOUR), p) else old(stats)
      ensures stats == if okCurrent then PutHour(mid, HourOf(now), c) else mid
    {
      okPrevious, p := RunRollup(now - HOUR, previous);
      mid := stats;
      okCurrent, c := RunRollup(now, current);
    }
  }

  lemma NothingPut<T>(m: map<(Str, int), T>, h: int)
    ensures forall found: map<Str, T> :: |found| == 0 ==> PutHour(m, h, found) == m
  {
    forall found: map<Str, T> | |found| == 0 ensures PutHour(m, h, found) == m {
      assert found == map[];
      assert PutHour(m, h, found).Keys == m.Keys;
    }
  }

  /** stats after the figures of the first i of the groups have been upserted. */
  function PutFirst(stats: Stats, h: int, groups: seq<Str>, found: map<Str, Stat>, i: nat): Stats
    requires i <= |groups| && forall d :: d in groups ==> d in found
  {
    if i == 0 then stats
    else
      var d := groups[i - 1];
      assert d in groups;
      PutFirst(stats, h, groups, found, i - 1)[(d, h) := found[d]]
  }

  lemma {:induction false} PutFirstAt(stats: Stats, h: int, groups: seq<Str>, found: map<Str, Stat>, i: nat,
                                      k: (Str, int))
    requires i <= |groups| && forall d :: d in groups ==> d in found
    ensures var after := PutFirst(stats, h, groups, found, i);
            if k.1 == h && k.0 in groups[..i] then k in after && after[k] == found[k.0]
            else (k in after <==> k in stats) && (k in stats ==> after[k] == stats[k])
  {
    if i == 0 {
    } else {
      PutFirstAt(stats, h, groups, found, i - 1, k);
      assert groups[..i] == groups[..i - 1] + [groups[i - 1]];
      assert k == (k.0, k.1);
    }
  }

  lemma PutFirstIsAll(stats: Stats, h: int, groups: seq<Str>, found: map<Str, Stat>)
    requires forall d :: d in groups <==> d in found
    ensures PutFirst(stats, h, groups, found, |groups|) == PutHour(stats, h, found)
  {
    var after := PutFirst(stats, h, groups, found, |groups|);
    assert groups[..|groups|] == groups;
    forall k: (Str, int)
      ensures k in after <==> k in PutHour(stats, h, found)
      ensures k in after ==> after[k] == PutHour(stats, h, found)[k]
    {
      PutFirstAt(stats, h, groups, found, |groups|, k);
      PutHourAt(stats, h, found, k);
    }
  }

  lemma PutHourAt(stats: Stats, h: int, found: map<Str, Stat>, k: (Str, int))
    ensures var after := PutHour(stats, h, found);
            if k.1 == h && k.0 in found then k in after && after[k] == found[k.0]
            else (k in after <==> k in stats) && (k in stats ==> after[k] == stats[k])
  {
    assert k == (k.0, k.1);
  }
}
