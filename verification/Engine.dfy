/** The redirect engine: loading the cache from the store and serving requests from it. */
module Engines {
  import opened Text
  import opened Tables
  import opened Sorting
  import opened Matching
  import opened Statements
  import opened Stores
  import opened Cache
  import opened Hits

  /** What the log keeps of a request besides host, path and outcome. */
  datatype Client = Client(query: Str, ip: Str, userAgent: Str, referer: Str)

  /** The enabled ones among the rows of one domain, sorted by priority, are its rule list. */
  lemma RowsToRuleList(t: Tables, c: Content, d: DomainRow, rows: seq<RuleRow>,
                       kept: seq<CachedRule>, rs: seq<CachedRule>)
    requires Represents(t, c) && DomainStored(t, c, d)
    requires forall r :: r in rows <==> RuleStored(t, d.id, r)
    requires Distinct(kept)
    requires forall x :: x in kept <==> exists r :: r in rows && r.spec.enabled && x == CachedOf(r.path, r.spec)
    requires multiset(rs) == multiset(kept) && Descending(rs, (r: CachedRule) => r.priority)
    ensures IsRuleList(rs, c, d.name)
  {
    PermutationFacts(kept, rs);
    forall x ensures x in rs <==> EnabledRule(c, d.name, x.path) && x == CachedOf(x.path, c.rules[(d.name, x.path)]) {
      if x in rs {
        var r :| r in rows && r.spec.enabled && x == CachedOf(r.path, r.spec);
        assert RuleStored(t, d.id, r);
        assert NamedPath(t, t.rules[r.id]) == (d.name, x.path);
      }
      if EnabledRule(c, d.name, x.path) && x == CachedOf(x.path, c.rules[(d.name, x.path)]) {
        var id := t.pathIndex[(t.nameIndex[d.name], x.path)];
        assert NamedPath(t, t.rules[id]) == (d.name, x.path);
        assert RuleStored(t, d.id, t.rules[id]);
        assert t.rules[id] in rows;
      }
    }
  }

  ghost predicate EntryLoaded(cache: RuleCache, c: Content, n: Str) {
    && n in cache && Served(c, n)
    && cache[n].defaultUrl == c.domains[n].defaultUrl
    && cache[n].status == c.domains[n].status
    && IsRuleList(cache[n].rules, c, n)
  }

  lemma LoadedIsView(cache: RuleCache, c: Content, missing: set<Str>)
    requires forall n :: n in cache ==> n !in missing && EntryLoaded(cache, c, n)
    requires forall n :: Served(c, n) && n !in missing ==> n in cache
    ensures IsViewExcept(cache, c, missing)
  {
    forall n ensures n in cache <==> Served(c, n) && n !in missing {
      if n in cache { assert EntryLoaded(cache, c, n); }
    }
    forall n | n in cache ensures EntryLoaded(cache, c, n) {
    }
  }

  /** e was appended, or dropped because the channel was full. */
  predicate Sent(before: seq<LogEntry>, after: seq<LogEntry>, capacity: nat, e: LogEntry) {
    after == if |before| < capacity then before + [e] else before
  }

  class Engine {
    const store: Store
    const logCh: LogChannel
    const beaconCh: LogChannel?
    var domains: RuleCache
    ghost var loaded: Content
    ghost var missing: set<Str>

    ghost predicate Valid() reads this {
      IsViewExcept(domains, loaded, missing)
    }

    constructor (store: Store, logCh: LogChannel, beaconCh: LogChannel?)
      ensures Valid() && this.store == store && this.logCh == logCh && this.beaconCh == beaconCh
      ensures loaded == EMPTY && missing == {}
    {
      this.store, this.logCh, this.beaconCh := store, logCh, beaconCh;
      domains, loaded, missing := map[], EMPTY, {};
    }

    /** Keeps the enabled rules among the rows and sorts them again by priority. */
    method LoadRules(d: DomainRow) returns (rs: seq<CachedRule>)
      requires store.Valid() && DomainStored(store.tables, store.content, d)
      ensures IsRuleList(rs, store.content, d.name)
    {
      var rows := store.ListRules(d.id);
      RowPathsDistinct(store.tables, d.id, rows);
      var kept: seq<CachedRule> := [];
      for j := 0 to |rows|
        invariant forall x :: x in kept <==>
                    exists k :: 0 <= k < j && rows[k].spec.enabled && x == CachedOf(rows[k].path, rows[k].spec)
        invariant Distinct(kept)
      {
        if rows[j].spec.enabled {
          var x := CachedOf(rows[j].path, rows[j].spec);
          assert forall k :: 0 <= k < j ==> CachedOf(rows[k].path, rows[k].spec) != x;
          assert forall i :: 0 <= i < |kept| ==> kept[i] in kept && kept[i] != x;
          kept := kept + [x];
        }
      }
      rs := SortDescending(kept, (r: CachedRule) => r.priority);
      RowsToRuleList(store.tables, store.content, d, rows, kept, rs);
    }

    /**
     * Loads a new map from the store and swaps it in. When the domains cannot be listed nothing
     * changes; a domain whose rules cannot be read is left out.
     */
    method Reload(listFails: bool, unreadable: set<Str>) returns (r: Outcome)
      requires Valid() && store.Valid()
      modifies this
      ensures Valid()
      ensures r.Err? <==> listFails
      ensures r.Ok? ==> loaded == store.content && missing == unreadable
      ensures r.Err? ==> domains == old(domains) && loaded == old(loaded) && missing == old(missing)
    {
      if listFails {
        return Err;
      }
      FirstPage(store.content, CACHE_LIMIT, n => true);
      var rows, total := store.ListDomains([], n => true, CACHE_LIMIT, 0);
      var newMap: RuleCache := map[];
      for i := 0 to |rows|
        invariant forall n :: n in newMap ==> n !in unreadable && EntryLoaded(newMap, store.content, n)
        invariant forall j :: 0 <= j < i && rows[j].header.enabled && rows[j].name !in unreadable ==>
                    rows[j].name in newMap
      {
        var d := rows[i];
        assert RowNames(rows)[i] == d.name && d.name in Elements(RowNames(rows));
        if d.header.enabled && d.name !in unreadable {
          assert DomainStored(store.tables, store.content, d);
          var rs := LoadRules(d);
          newMap := newMap[d.name := DomainEntry(d.header.defaultUrl, d.header.status, rs)];
        }
      }
      forall n | Served(store.content, n) && n !in unreadable ensures n in newMap {
        assert n in Elements(RowNames(rows));
        var j :| 0 <= j < |rows| && RowNames(rows)[j] == n;
        assert DomainStored(store.tables, store.content, rows[j]);
      }
      LoadedIsView(newMap, store.content, unreadable);
      domains, loaded, missing := newMap, store.content, unreadable;
      return Ok;
    }

    /** The first rule that matches, or the default. */
    method Select(entry: DomainEntry, path: Str) returns (targetUrl: Str, status: int)
      ensures var i := FirstMatch(entry.rules, path);
              if i < |entry.rules| then targetUrl == entry.rules[i].target && status == entry.rules[i].status
              else targetUrl == entry.defaultUrl && status == entry.status
    {
      targetUrl, status := entry.defaultUrl, entry.status;
      var i := 0;
      while i < |entry.rules|
        invariant 0 <= i <= FirstMatch(entry.rules, path)
        invariant targetUrl == entry.defaultUrl && status == entry.status
      {
        if MatchPath(entry.rules[i].path, path) {
          targetUrl, status := entry.rules[i].target, entry.rules[i].status;
          break;
        }
        i := i + 1;
      }
    }

    /** Answers from the cache; the log entry records the same target and status, unless a channel is full. */
    method ServeHTTP(host: Str, path: Str, client: Client) returns (r: Response)
      requires Valid() && beaconCh != logCh
      modifies logCh, if beaconCh == null then {} else {beaconCh}
      ensures r == Respond(domains, host, path)
      ensures host !in missing ==> Answers(loaded, host, path, r)
      ensures r == NotFound ==> unchanged(logCh) && (beaconCh != null ==> unchanged(beaconCh))
      ensures r.Redirect? ==>
                Sent(old(logCh.items), logCh.items, logCh.capacity,
                     LogEntry(host, path, client.query, r.status, r.url, client.ip, client.userAgent, client.referer))
      ensures r.Redirect? && beaconCh != null ==>
                Sent(old(beaconCh.items), beaconCh.items, beaconCh.capacity,
                     LogEntry(host, path, client.query, r.status, r.url, client.ip, client.userAgent, client.referer))
    {
      CacheRefinesContent(domains, loaded, missing, host, path);
      if host !in domains {
        return NotFound;
      }
      var targetUrl, status := Select(domains[host], path);
      var e := LogEntry(
        host, path, client.query, status, targetUrl, client.ip, client.userAgent, client.referer);
      logCh.TrySend(e);
      if beaconCh != null {
        beaconCh.TrySend(e);
      }
      return Redirect(targetUrl, status);
    }
  }
}
