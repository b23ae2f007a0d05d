/** The in-memory rule cache of an engine, as a view of a store's content. */
module Cache {
  import opened Text
  import opened Names
  import opened Tables
  import opened Import
  import opened Export
  import opened Sorting
  import opened Matching

  datatype CachedRule = CachedRule(path: Str, target: Str, status: int, priority: int)

  datatype DomainEntry = DomainEntry(defaultUrl: Str, status: int, rules: seq<CachedRule>)

  type RuleCache = map<Str, DomainEntry>

  function CachedOf(path: Str, spec: RuleSpec): CachedRule {
    CachedRule(path, spec.target, spec.status, spec.priority)
  }

  /** rs lists the enabled rules of n once each, highest priority first, ties in any order. */
  ghost predicate IsRuleList(rs: seq<CachedRule>, c: Content, n: Str) {
    && Descending(rs, (r: CachedRule) => r.priority)
    && Distinct(rs)
    && (forall r :: r in rs <==> EnabledRule(c, n, r.path) && r == CachedOf(r.path, c.rules[(n, r.path)]))
  }

  /** The cache holds the served domains of c, except those in missing, whose rules could not be read. */
  ghost predicate IsViewExcept(cache: RuleCache, c: Content, missing: set<Str>) {
    forall n :: (n in cache <==> Served(c, n) && n !in missing) &&
      (n in cache ==>
        && cache[n].defaultUrl == c.domains[n].defaultUrl
        && cache[n].status == c.domains[n].status
        && IsRuleList(cache[n].rules, c, n))
  }

  ghost predicate IsView(cache: RuleCache, c: Content) {
    IsViewExcept(cache, c, {})
  }

  // ---- Serving from the cache ----

  /** The index of the first rule that matches, or |rs|. */
  function FirstMatch(rs: seq<CachedRule>, path: Str): (i: nat)
    ensures i <= |rs|
    ensures i < |rs| ==> MatchPath(rs[i].path, path)
    ensures forall k :: 0 <= k < i ==> !MatchPath(rs[k].path, path)
  {
    if rs == [] || MatchPath(rs[0].path, path) then 0 else 1 + FirstMatch(rs[1..], path)
  }

  function Respond(cache: RuleCache, host: Str, path: Str): Response {
    if host !in cache then NotFound
    else
      var e := cache[host];
      var i := FirstMatch(e.rules, path);
      if i < |e.rules| then Redirect(e.rules[i].target, e.rules[i].status) else Redirect(e.defaultUrl, e.status)
  }

  lemma FirstMatchIsTop(rs: seq<CachedRule>, c: Content, n: Str, path: Str)
    requires IsRuleList(rs, c, n)
    ensures var i := FirstMatch(rs, path);
            if i < |rs| then IsTop(c, n, path, rs[i].path) && rs[i] == CachedOf(rs[i].path, c.rules[(n, rs[i].path)])
            else forall p :: !Matches(c, n, path, p)
  {
    var i := FirstMatch(rs, path);
    if i < |rs| {
      assert rs[i] in rs;
    }
    forall p | Matches(c, n, path, p)
      ensures i < |rs| && c.rules[(n, p)].priority <= rs[i].priority
    {
      var r := CachedOf(p, c.rules[(n, p)]);
      assert r in rs;
      var k :| 0 <= k < |rs| && rs[k] == r;
      assert i <= k;
    }
  }

  /** What is served from a cache is an admissible answer for the content it was loaded from. */
  lemma CacheRefinesContent(cache: RuleCache, c: Content, missing: set<Str>, host: Str, path: Str)
    requires IsViewExcept(cache, c, missing)
    ensures host !in missing ==> Answers(c, host, path, Respond(cache, host, path))
    ensures host in missing ==> Respond(cache, host, path) == NotFound
  {
    if host in cache {
      var rs := cache[host].rules;
      FirstMatchIsTop(rs, c, host, path);
      var i := FirstMatch(rs, path);
      if i < |rs| {
        assert Matches(c, host, path, rs[i].path);
      }
    }
  }

  /** Not found is exactly the answer for a host that is no enabled domain among the first 100000 names. */
  lemma NotFoundIff(cache: RuleCache, c: Content, host: Str, path: Str)
    requires IsView(cache, c)
    ensures Respond(cache, host, path) == NotFound <==>
            !(host in c.domains && c.domains[host].enabled && Rank(c.domains.Keys, host) < 100000)
  {
    CacheRefinesContent(cache, c, {}, host, path);
  }

  /**
   * An engine loaded after importing the export of c answers every request like an engine loaded
   * from c, whenever the rules of top priority agree; when they do not, both answer with a rule
   * of that same priority.
   */
  lemma MeaningPreserved(c: Content, es: seq<ImportEntry>, here: RuleCache, there: RuleCache, host: Str, path: Str)
    requires c.WellFormed() && Replicable(c) && IsExport(c, es)
    requires IsView(here, c) && IsView(there, Imported(es))
    ensures TopAgrees(c, host, path) ==> Respond(here, host, path) == Respond(there, host, path)
    ensures Answers(c, host, path, Respond(here, host, path)) && Answers(c, host, path, Respond(there, host, path))
  {
    RoundTripIsIdentityIff(c, es);
    CacheRefinesContent(here, c, {}, host, path);
    CacheRefinesContent(there, c, {}, host, path);
    AnswerIsUniqueIff(c, host, path);
  }

  /** For any c: the importing side serves a host exactly when it is enabled and among the first EXPORT_LIMIT. */
  lemma ServedAfterImportIff(c: Content, es: seq<ImportEntry>, there: RuleCache, host: Str, path: Str)
    requires IsExport(c, es) && IsView(there, Imported(es))
    ensures Respond(there, host, path) != NotFound <==>
              host in First(c.domains.Keys, EXPORT_LIMIT) && host in c.domains && c.domains[host].enabled
  {
    RoundTrip(c, es);
    CutSize(c);
    var d := Imported(es);
    assert |d.domains.Keys| == |d.domains|;
    FirstSize(d.domains.Keys, CACHE_LIMIT);
    FirstSize(c.domains.Keys, EXPORT_LIMIT);
    assert host in d.domains.Keys <==> host in First(c.domains.Keys, EXPORT_LIMIT);
    CacheRefinesContent(there, d, {}, host, path);
  }
}
