/**
 * The bulk imports as transactions. A transaction works on its own copy of the tables, t, which
 * stands for content c; only a commit makes that copy the store's. Statements are numbered, and
 * faults holds the numbers of those at which the database reports an error.
 */
module Transactions {
  import opened Text
  import opened Tables
  import opened Import
  import opened Statements
  import opened Sorting

  /**
   * What goes wrong in a replacing import: the numbers of the statements that fail, and after how
   * many rows each of the two orphan queries ends early, if it does.
   */
  datatype DatabaseFaults = DatabaseFaults(statements: set<nat>, ruleRows: Option<nat>, domainRows: Option<nat>) {
    predicate Complete() {
      ruleRows.None? && domainRows.None?
    }
  }

  // ---- Replacing import ----

  /** The transaction holds everything d says, and keys are the string keys of d's rules. */
  ghost predicate Recorded(t: Tables, c: Content, d: Content, keys: set<Str>) {
    Represents(t, c) && Covers(c, d) && KeysOf(keys, t, d)
  }

  lemma CoversPut(c: Content, d: Content, name: Str, h: Header, path: Str, spec: RuleSpec)
    requires Covers(c, d)
    ensures Covers(c.PutHeader(name, h), d.PutHeader(name, h))
    ensures Covers(c.PutRule(name, path, spec), d.PutRule(name, path, spec))
  {
  }

  lemma KeysIgnoreHeaders(keys: set<Str>, t: Tables, d: Content, name: Str, h: Header)
    requires KeysOf(keys, t, d)
    ensures KeysOf(keys, t, d.PutHeader(name, h))
  {
  }

  lemma UpsertRuleRecorded(t: Tables, c: Content, d: Content, keys: set<Str>, name: Str, path: Str, spec: RuleSpec)
    requires Recorded(t, c, d, keys) && name in t.nameIndex
    ensures var id := t.nameIndex[name];
            Recorded(UpsertRule(t, id, path, spec), c.PutRule(name, path, spec), d.PutRule(name, path, spec),
                     keys + {RuleKey(id, path)})
  {
    var id := t.nameIndex[name];
    var u, more := UpsertRule(t, id, path, spec), keys + {RuleKey(id, path)};
    DomainByName(t, c, name);
    UpsertRuleRepresents(t, c, id, path, spec);
    KeysAfterPut(keys, t, d, name, path, spec);
    UpsertRuleGrows(t, id, path, spec);
    KeysKept(more, t, u, d.PutRule(name, path, spec));
    CoversPut(c, d, name, Header([], 0, true), path, spec);
  }

  lemma UpsertDomainRecorded(t: Tables, c: Content, d: Content, keys: set<Str>, name: Str, h: Header)
    requires Recorded(t, c, d, keys)
    ensures Recorded(UpsertDomain(t, name, h), c.PutHeader(name, h), d.PutHeader(name, h), keys)
  {
    var u := UpsertDomain(t, name, h);
    UpsertDomainRepresents(t, c, name, h);
    UpsertDomainGrows(t, name, h);
    KeysKept(keys, t, u, d);
    KeysIgnoreHeaders(keys, u, d, name, h);
    CoversPut(c, d, name, h, [], RuleSpec([], 0, 0, true));
  }

  lemma KeysKept(keys: set<Str>, t: Tables, u: Tables, d: Content)
    requires KeysOf(keys, t, d) && Grows(t, u)
    ensures KeysOf(keys, u, d)
  {
  }

  lemma GrowsTransitive(t: Tables, u: Tables, v: Tables)
    requires Grows(t, u) && Grows(u, v)
    ensures Grows(t, v)
  {
  }

  lemma ShrinksTransitive(t: Tables, u: Tables, v: Tables)
    requires Shrinks(t, u) && Shrinks(u, v)
    ensures Shrinks(t, v)
  {
  }

  /** How many upserts the entries take. */
  function UpsertCount(es: seq<ImportEntry>): nat {
    if es == [] then 0 else UpsertCount(es[..|es| - 1]) + 1 + |es[|es| - 1].rules|
  }

  /** No statement from a up to b fails. */
  ghost predicate Clear(faults: set<nat>, a: nat, b: nat) {
    forall k :: a <= k < b ==> k !in faults
  }

  /** Statement k is one of those from a up to b, and it fails. */
  predicate FailedWithin(faults: set<nat>, k: nat, a: nat, b: nat) {
    a <= k < b && k in faults
  }

  lemma ClearNext(faults: set<nat>, at: nat, next: nat)
    requires Clear(faults, at, next) && next !in faults
    ensures Clear(faults, at, next + 1)
  {
  }

  lemma ClearFirst(faults: set<nat>, at: nat, end: nat)
    requires at !in faults && Clear(faults, at + 1, end)
    ensures Clear(faults, at, end)
  {
  }

  lemma ClearStep(faults: set<nat>, at: nat, next: nat, after: nat)
    requires Clear(faults, at, next) && Clear(faults, next, after)
    ensures Clear(faults, at, after)
  {
  }

  lemma UpsertRuleStep(t0: Tables, t: Tables, c: Content, d: Content, keys: set<Str>,
                       name: Str, rs: seq<ImportRule>, j: nat)
    requires j < |rs| && name in t0.nameIndex
    requires Recorded(t, c, PutRules(d, name, rs[..j]), keys) && Grows(t0, t)
    ensures var id, path, spec := t0.nameIndex[name], rs[j].path, SpecOf(rs[j]);
            && Recorded(UpsertRule(t, id, path, spec), c.PutRule(name, path, spec), PutRules(d, name, rs[..j + 1]),
                        keys + {RuleKey(id, path)})
            && Grows(t0, UpsertRule(t, id, path, spec))
  {
    var id, path, spec := t0.nameIndex[name], rs[j].path, SpecOf(rs[j]);
    PutRulesStep(d, name, rs, j);
    UpsertRuleRecorded(t, c, PutRules(d, name, rs[..j]), keys, name, path, spec);
    UpsertRuleGrows(t, id, path, spec);
    GrowsTransitive(t0, t, UpsertRule(t, id, path, spec));
  }

  lemma PutRulesStep(c: Content, name: Str, rs: seq<ImportRule>, j: nat)
    requires j < |rs|
    ensures PutRules(c, name, rs[..j + 1]) == PutRules(c, name, rs[..j]).PutRule(name, rs[j].path, SpecOf(rs[j]))
  {
    assert rs[..j + 1][..j] == rs[..j];
  }

  /** Upserts the rules of one entry. d is what the entries before, and this entry's header, amount to. */
  method UpsertRules(t0: Tables, ghost c0: Content, ghost d: Content, keys0: set<Str>,
                     name: Str, rs: seq<ImportRule>, faults: set<nat>, at: nat)
    returns (ok: bool, next: nat, t: Tables, ghost c: Content, keys: set<Str>)
    requires Recorded(t0, c0, d, keys0) && name in t0.nameIndex
    ensures if ok then Clear(faults, at, at + |rs|) else FailedWithin(faults, next, at, at + |rs|)
    ensures ok ==> next == at + |rs| && c == PutRules(c0, name, rs)
    ensures ok ==> Recorded(t, c, PutRules(d, name, rs), keys) && Grows(t0, t)
  {
    next, t, c, keys := at, t0, c0, keys0;
    var id := t0.nameIndex[name];
    for j := 0 to |rs|
      invariant next == at + j && Clear(faults, at, next)
      invariant c == PutRules(c0, name, rs[..j])
      invariant Recorded(t, c, PutRules(d, name, rs[..j]), keys) && Grows(t0, t)
    {
      if next in faults {
        ok := false;
        return;
      }
      ClearNext(faults, at, next);
      UpsertRuleStep(t0, t, c, d, keys, name, rs, j);
      PutRulesStep(c0, name, rs, j);
      var path, spec := rs[j].path, SpecOf(rs[j]);
      keys := keys + {RuleKey(id, path)};
      c := c.PutRule(name, path, spec);
      t := UpsertRule(t, id, path, spec);
      next := next + 1;
    }
    assert rs[..|rs|] == rs;
    ok := true;
  }

  /** Upserts one entry: the domain, then its rules. d is what the entries before amount to. */
  method UpsertEntry(t0: Tables, ghost c0: Content, ghost d: Content, keys0: set<Str>,
                     e: ImportEntry, faults: set<nat>, at: nat)
    returns (ok: bool, next: nat, t: Tables, ghost c: Content, keys: set<Str>)
    requires Recorded(t0, c0, d, keys0)
    ensures if ok then Clear(faults, at, at + 1 + |e.rules|) else FailedWithin(faults, next, at, at + 1 + |e.rules|)
    ensures ok ==> next == at + 1 + |e.rules| && c == PutEntry(c0, e)
    ensures ok ==> Recorded(t, c, PutEntry(d, e), keys) && Grows(t0, t)
  {
    if at in faults {
      return false, at, t0, c0, keys0;
    }
    UpsertDomainRecorded(t0, c0, d, keys0, e.name, HeaderOf(e));
    UpsertDomainGrows(t0, e.name, HeaderOf(e));
    var started := UpsertDomain(t0, e.name, HeaderOf(e));
    ok, next, t, c, keys := UpsertRules(started, c0.PutHeader(e.name, HeaderOf(e)), d.PutHeader(e.name, HeaderOf(e)),
                                        keys0, e.name, e.rules, faults, at + 1);
    if ok {
      ClearFirst(faults, at, next);
      GrowsTransitive(t0, started, t);
    }
  }

  lemma PutEntryNames(d: Content, e: ImportEntry)
    ensures PutEntry(d, e).domains.Keys == d.domains.Keys + {e.name}
  {
    PutRulesFrame(d.PutHeader(e.name, HeaderOf(e)), e.name, e.rules);
  }

  lemma {:induction false} UpsertCountStep(es: seq<ImportEntry>, i: nat)
    requires i < |es|
    ensures UpsertCount(es[..i + 1]) == UpsertCount(es[..i]) + 1 + |es[i].rules| <= UpsertCount(es)
    decreases |es|
  {
    if i + 1 < |es| {
      assert es[..|es| - 1][..i + 1] == es[..i + 1] && es[..|es| - 1][..i] == es[..i];
      UpsertCountStep(es[..|es| - 1], i);
    } else {
      assert es[..i + 1] == es;
    }
  }

  lemma PutEntriesStep(c: Content, es: seq<ImportEntry>, i: nat)
    requires i < |es|
    ensures PutEntries(c, es[..i + 1]) == PutEntry(PutEntries(c, es[..i]), es[i])
    ensures Imported(es[..i + 1]) == PutEntry(Imported(es[..i]), es[i])
    ensures Imported(es[..i + 1]).domains.Keys == Imported(es[..i]).domains.Keys + {es[i].name}
  {
    assert es[..i + 1][..i] == es[..i];
    PutEntryNames(Imported(es[..i]), es[i]);
  }

  /** Upserts every entry, recording the names and the rule keys it saw. */
  method UpsertAll(t0: Tables, ghost c0: Content, entries: seq<ImportEntry>, faults: set<nat>, at: nat)
    returns (ok: bool, next: nat, t: Tables, ghost c: Content, names: set<Str>, keys: set<Str>)
    requires Represents(t0, c0)
    ensures if ok then Clear(faults, at, at + UpsertCount(entries))
            else FailedWithin(faults, next, at, at + UpsertCount(entries))
    ensures ok ==> next == at + UpsertCount(entries) && c == PutEntries(c0, entries)
    ensures ok ==> Recorded(t, c, Imported(entries), keys) && Grows(t0, t)
    ensures ok ==> names == Imported(entries).domains.Keys
  {
    next, t, c, names, keys := at, t0, c0, {}, {};
    for i := 0 to |entries|
      invariant next == at + UpsertCount(entries[..i]) && Clear(faults, at, next)
      invariant c == PutEntries(c0, entries[..i])
      invariant Recorded(t, c, Imported(entries[..i]), keys) && Grows(t0, t)
      invariant names == Imported(entries[..i]).domains.Keys
    {
      ghost var before := t;
      PutEntriesStep(c0, entries, i);
      UpsertCountStep(entries, i);
      ghost var first := next;
      ok, next, t, c, keys := UpsertEntry(t, c, Imported(entries[..i]), keys, entries[i], faults, next);
      if !ok {
        return;
      }
      ClearStep(faults, at, first, next);
      names := names + {entries[i].name};
      GrowsTransitive(t0, before, t);
    }
    assert entries[..|entries|] == entries;
    ok := true;
  }

  /** The string-keyed test picks out exactly the orphans. */
  lemma OrphanDecision(t: Tables, c: Content, d: Content, names: set<Str>, keys: set<Str>, id: int)
    requires Recorded(t, c, d, keys) && names == d.domains.Keys && id in t.rules.Keys
    ensures var row := t.rules[id];
            && row.id == id && row.domainId in t.domains
            && (Orphan(t, row, d) <==>
                t.domains[row.domainId].name in names && RuleKey(row.domainId, row.path) !in keys)
  {
    var row := t.rules[id];
    assert id in t.rules;
    KeyMembership(keys, t, d, t.domains[row.domainId].name, row.path);
  }

  /** Picks the orphans among the rows a query delivered. */
  method OrphansAmong(t: Tables, ghost c: Content, ghost d: Content, names: set<Str>, keys: set<Str>, ids: seq<int>)
    returns (orphans: seq<int>)
    requires Recorded(t, c, d, keys) && names == d.domains.Keys
    requires Distinct(ids) && forall id :: id in ids ==> id in t.rules
    ensures Distinct(orphans)
    ensures forall id :: id in orphans <==> id in ids && id in OrphanRows(t, d)
  {
    orphans := [];
    for i := 0 to |ids|
      invariant Distinct(orphans)
      invariant forall id :: id in orphans <==> id in ids[..i] && id in OrphanRows(t, d)
    {
      var id := ids[i];
      assert id in ids && id !in ids[..i] && id !in orphans;
      OrphanDecision(t, c, d, names, keys, id);
      var row := t.rules[id];
      if t.domains[row.domainId].name in names && RuleKey(row.domainId, row.path) !in keys {
        orphans := orphans + [row.id];
      }
      assert ids[..i + 1] == ids[..i] + [ids[i]];
    }
    assert ids[..|ids|] == ids;
  }

  /** The orphan rules, by domain and path. */
  function OrphanKeys(c: Content, d: Content): set<(Str, Str)> {
    set k | k in c.rules && k.0 in d.domains && k !in d.rules
  }

  ghost function OrphanRows(t: Tables, d: Content): set<int> {
    set id | id in t.rules && Orphan(t, t.rules[id], d)
  }

  /** Rows are as many as the rules they stand for. */
  lemma NamedSize(t: Tables, c: Content, ids: set<int>, keys: set<(Str, Str)>)
    requires Represents(t, c) && ids <= t.rules.Keys
    requires forall k :: k in keys <==> exists id :: id in ids && NamedPath(t, t.rules[id]) == k
    ensures |ids| == |keys|
  {
    var named := map id | id in ids :: NamedPath(t, t.rules[id]);
    forall x, y | x in named && y in named && named[x] == named[y] ensures x == y {
      var row := t.rules[y];
      NamedPathsDiffer(t, x, row.domainId, row.path);
    }
    InjectiveSize(named);
    assert named.Keys == ids;
    forall k ensures k in named.Values <==> k in keys {
      if k in named.Values {
        var id :| id in named && named[id] == k;
        assert id in ids && NamedPath(t, t.rules[id]) == k;
      }
      if k in keys {
        var id :| id in ids && NamedPath(t, t.rules[id]) == k;
        assert named[id] == k;
      }
    }
    assert named.Values == keys;
  }

  lemma RowOf(t: Tables, c: Content, k: (Str, Str)) returns (id: int)
    requires Represents(t, c) && k in c.rules
    ensures id in t.rules && t.rules[id].domainId in t.domains && NamedPath(t, t.rules[id]) == k
  {
    id := t.pathIndex[(t.nameIndex[k.0], k.1)];
  }

  /** There are as many rows as the content has rules, and as many to delete as it has orphans. */
  lemma OrphanCount(t: Tables, c: Content, d: Content)
    requires Represents(t, c)
    ensures |OrphanRows(t, d)| == |OrphanKeys(c, d)| && |t.rules| == |c.rules|
  {
    forall k ensures k in OrphanKeys(c, d) <==> exists id :: id in OrphanRows(t, d) && NamedPath(t, t.rules[id]) == k {
      if k in OrphanKeys(c, d) {
        var id := RowOf(t, c, k);
        assert id in OrphanRows(t, d);
      }
    }
    NamedSize(t, c, OrphanRows(t, d), OrphanKeys(c, d));
    forall k ensures k in c.rules.Keys <==> exists id :: id in t.rules.Keys && NamedPath(t, t.rules[id]) == k {
      if k in c.rules {
        var id := RowOf(t, c, k);
        assert id in t.rules.Keys;
      }
    }
    NamedSize(t, c, t.rules.Keys, c.rules.Keys);
    assert |t.rules| == |t.rules.Keys| && |c.rules| == |c.rules.Keys|;
  }

  /** The orphan domains. */
  function OrphanNames(c: Content, d: Content): set<Str> {
    c.domains.Keys - d.domains.Keys
  }

  /** c without some rules, and without some domains and all their rules. */
  function Pruned(c: Content, rules: set<(Str, Str)>, names: set<Str>): Content {
    Content(c.domains - names, map k | k in c.rules && k !in rules && k.0 !in names :: c.rules[k])
  }

  lemma PrunedTwice(c: Content, rules: set<(Str, Str)>, names: set<Str>)
    ensures Pruned(Pruned(c, rules, {}), {}, names) == Pruned(c, rules, names)
  {
  }

  lemma NothingPruned(c: Content)
    ensures Pruned(c, {}, {}) == c
  {
    assert Pruned(c, {}, {}).domains == c.domains && Pruned(c, {}, {}).rules == c.rules;
  }

  /** What is left of c under d is d exactly when all orphans are gone. */
  lemma PrunedIsImportedIff(c: Content, d: Content, rules: set<(Str, Str)>, names: set<Str>)
    requires c.WellFormed() && d.WellFormed() && rules <= OrphanKeys(c, d) && names <= OrphanNames(c, d)
    ensures Pruned(Overlay(c, d), rules, names) == d <==> rules == OrphanKeys(c, d) && names == OrphanNames(c, d)
  {
    var left := Pruned(Overlay(c, d), rules, names);
    forall n ensures n in left.domains <==> n in d.domains || n in OrphanNames(c, d) - names {
    }
    forall k: (Str, Str)
      ensures k in left.rules <==>
              k in d.rules || k in OrphanKeys(c, d) - rules || (k in c.rules && k.0 in OrphanNames(c, d) - names)
    {
    }
    if rules == OrphanKeys(c, d) && names == OrphanNames(c, d) {
      assert left.domains == d.domains && left.rules == d.rules;
    }
    if left == d {
      assert OrphanNames(c, d) - names == {};
      assert OrphanKeys(c, d) - rules == {};
    }
  }

  /** gone are those of the orphans that a query over so many rows has reached before its cursor ended. */
  ghost predicate Reached<T>(gone: set<T>, orphans: set<T>, rows: nat, limit: Option<nat>) {
    && gone <= orphans && |gone| <= DeliveredCount(rows, limit)
    && |orphans| <= |gone| + rows - DeliveredCount(rows, limit)
  }

  /** All of them if all rows were delivered, none if none was. */
  lemma ReachedAll<T>(gone: set<T>, orphans: set<T>, rows: nat, limit: Option<nat>)
    requires Reached(gone, orphans, rows, limit)
    ensures DeliveredCount(rows, limit) == rows ==> gone == orphans
    ensures limit == Some(0) ==> gone == {}
  {
    SubsetSize(gone, orphans);
  }

  /** The wanted ones among the delivered rows are what the query has reached. */
  lemma FoundReached<T>(all: seq<T>, limit: Option<nat>, wanted: set<T>, found: seq<T>)
    requires Distinct(all) && Distinct(found) && forall x :: x in wanted ==> x in all
    requires forall x :: x in found <==> x in Delivered(all, limit) && x in wanted
    ensures Reached(Elements(found), wanted, |all|, limit) && |Elements(found)| == |found|
  {
    MissedAtMost(all, limit, wanted);
    ElementCount(found);
    assert Elements(found) == wanted * Elements(Delivered(all, limit));
  }

  lemma DeliveredDistinct<T>(all: seq<T>, limit: Option<nat>)
    requires Distinct(all)
    ensures Distinct(Delivered(all, limit)) && forall x :: x in Delivered(all, limit) ==> x in all
  {
  }

  /** Lists the rules whose domain was imported but whose path was not. */
  method FindOrphanRules(t: Tables, ghost c: Content, ghost d: Content, names: set<Str>, keys: set<Str>,
                         limit: Option<nat>)
    returns (orphans: seq<int>)
    requires Recorded(t, c, d, keys) && names == d.domains.Keys
    ensures Distinct(orphans) && forall id :: id in orphans ==> id in OrphanRows(t, d)
    ensures Reached(Elements(orphans), OrphanRows(t, d), |t.rules|, limit) && |Elements(orphans)| == |orphans|
  {
    var ids := InSomeOrder(t.rules.Keys);
    DistinctSize(ids, t.rules.Keys);
    DeliveredDistinct(ids, limit);
    orphans := OrphansAmong(t, c, d, names, keys, Delivered(ids, limit));
    assert forall id :: id in orphans <==> id in Delivered(ids, limit) && id in OrphanRows(t, d);
    FoundReached(ids, limit, OrphanRows(t, d), orphans);
  }

  /** Between t0 and t the listed orphan rows of d have been deleted, and from c the orphans gone. */
  ghost predicate PartlyDeleted(t0: Tables, c0: Content, t: Tables, c: Content, d: Content,
                                listed: seq<int>, gone: set<(Str, Str)>)
  {
    RowsDeleted(t0, t, c, listed) && RulesDeleted(c0, c, d, listed, gone)
  }

  ghost predicate RowsDeleted(t0: Tables, t: Tables, c: Content, listed: seq<int>) {
    Represents(t, c) && Shrinks(t0, t) && RulesLeft(t0, t, listed)
  }

  ghost predicate RulesDeleted(c0: Content, c: Content, d: Content, listed: seq<int>, gone: set<(Str, Str)>) {
    c == Pruned(c0, gone, {}) && gone <= OrphanKeys(c0, d) && |gone| == |listed|
  }

  lemma DeleteRuleStep(t0: Tables, c0: Content, t: Tables, c: Content, d: Content, orphans: seq<int>, i: nat,
                       gone: set<(Str, Str)>)
    requires i < |orphans| && Distinct(orphans) && PartlyDeleted(t0, c0, t, c, d, orphans[..i], gone)
    requires orphans[i] in OrphanRows(t0, d)
    ensures orphans[i] in t.rules
    ensures PartlyDeleted(t0, c0, DeleteRule(t, orphans[i]), WithoutRule(t, c, orphans[i]), d, orphans[..i + 1],
                          gone + {NamedPath(t, t.rules[orphans[i]])})
  {
    var id := orphans[i];
    assert id !in orphans[..i];
    DeleteRuleRepresents(t, c, id);
    RulesLeftAfter(t0, t, orphans, i);
    ShrinksTransitive(t0, t, DeleteRule(t, id));
    GoneStep(t0, c0, t, c, d, gone, id);
  }

  lemma GoneStep(t0: Tables, c0: Content, t: Tables, c: Content, d: Content, gone: set<(Str, Str)>, id: int)
    requires Represents(t, c) && c == Pruned(c0, gone, {}) && gone <= OrphanKeys(c0, d)
    requires t.domains == t0.domains && id in OrphanRows(t0, d)
    requires id in t.rules && t.rules[id] == t0.rules[id]
    ensures var k := NamedPath(t, t.rules[id]);
            && k !in gone && gone + {k} <= OrphanKeys(c0, d)
            && WithoutRule(t, c, id) == Pruned(c0, gone + {k}, {})
  {
    var k := NamedPath(t, t.rules[id]);
    assert k in c.rules;
    assert c.DropRule(k.0, k.1).rules == Pruned(c0, gone + {k}, {}).rules;
  }

  /** Deletes the listed rules, all of them orphans. */
  method DeleteRules(t0: Tables, ghost c0: Content, ghost d: Content, orphans: seq<int>, faults: set<nat>, at: nat)
    returns (ok: bool, next: nat, t: Tables, ghost c: Content, ghost gone: set<(Str, Str)>)
    requires Represents(t0, c0) && Distinct(orphans)
    requires forall id :: id in orphans ==> id in OrphanRows(t0, d)
    ensures if ok then Clear(faults, at, at + |orphans|) else FailedWithin(faults, next, at, at + |orphans|)
    ensures ok ==> next == at + |orphans| && PartlyDeleted(t0, c0, t, c, d, orphans, gone)
  {
    next, t, c, gone := at, t0, c0, {};
    NothingPruned(c0);
    for i := 0 to |orphans|
      invariant next == at + i && Clear(faults, at, next)
      invariant PartlyDeleted(t0, c0, t, c, d, orphans[..i], gone)
    {
      if next in faults {
        ok := false;
        return;
      }
      var id := orphans[i];
      assert id in orphans;
      ClearNext(faults, at, next);
      DeleteRuleStep(t0, c0, t, c, d, orphans, i, gone);
      gone := gone + {NamedPath(t, t.rules[id])};
      c := WithoutRule(t, c, id);
      t := DeleteRule(t, id);
      next := next + 1;
    }
    assert orphans[..|orphans|] == orphans;
    ok := true;
  }

  lemma PrunedCovers(c: Content, d: Content, gone: set<(Str, Str)>)
    requires Covers(c, d) && gone <= OrphanKeys(c, d)
    ensures Covers(Pruned(c, gone, {}), d)
  {
  }

  /** Deletes orphan rules, those that are gone: all of them, if the query delivers all rows. */
  method DeleteOrphanRules(t0: Tables, ghost c0: Content, ghost d: Content, names: set<Str>, keys: set<Str>,
                           faults: set<nat>, limit: Option<nat>, at: nat)
    returns (ok: bool, next: nat, t: Tables, ghost c: Content, ghost gone: set<(Str, Str)>)
    requires Recorded(t0, c0, d, keys) && names == d.domains.Keys
    ensures if ok then next == at + 1 + |gone| && Clear(faults, at, next)
            else at <= next < at + 1 + DeliveredCount(|OrphanKeys(c0, d)|, limit) && next in faults
    ensures ok ==> Represents(t, c) && Covers(c, d) && Shrinks(t0, t)
    ensures ok ==> c == Pruned(c0, gone, {}) && Reached(gone, OrphanKeys(c0, d), |c0.rules|, limit)
  {
    next, t, c, gone := at, t0, c0, {};
    if next in faults {
      ok := false;
      return;
    }
    var orphans := FindOrphanRules(t0, c0, d, names, keys, limit);
    OrphanCount(t0, c0, d);
    SubsetSize(Elements(orphans), OrphanRows(t0, d));
    ok, next, t, c, gone := DeleteRules(t0, c0, d, orphans, faults, at + 1);
    if ok {
      PrunedCovers(c0, d, gone);
      ClearFirst(faults, at, next);
    }
  }

  /** t is t0 with rules removed, those listed among them. */
  ghost predicate RulesLeft(t0: Tables, t: Tables, gone: seq<int>) {
    && t.domains == t0.domains
    && (forall id :: id in t.rules <==> id in t0.rules && id !in gone)
    && (forall id :: id in t.rules ==> t.rules[id] == t0.rules[id])
  }

  lemma RulesLeftAfter(t0: Tables, t: Tables, orphans: seq<int>, i: nat)
    requires i < |orphans| && RulesLeft(t0, t, orphans[..i])
    ensures RulesLeft(t0, DeleteRule(t, orphans[i]), orphans[..i + 1])
  {
    assert orphans[..i + 1] == orphans[..i] + [orphans[i]];
  }

  /** Lists the domains that were not imported. */
  method FindOrphanDomains(t: Tables, names: set<Str>, limit: Option<nat>) returns (orphans: seq<Str>)
    ensures Distinct(orphans) && |Elements(orphans)| == |orphans|
    ensures Reached(Elements(orphans), t.nameIndex.Keys - names, |t.nameIndex|, limit)
  {
    var all := InSomeOrder(t.nameIndex.Keys);
    DistinctSize(all, t.nameIndex.Keys);
    DeliveredDistinct(all, limit);
    orphans := NamesAmong(Delivered(all, limit), names);
    FoundReached(all, limit, t.nameIndex.Keys - names, orphans);
  }

  method NamesAmong(all: seq<Str>, names: set<Str>) returns (orphans: seq<Str>)
    requires Distinct(all)
    ensures Distinct(orphans) && forall n :: n in orphans <==> n in all && n !in names
  {
    orphans := [];
    for i := 0 to |all|
      invariant Distinct(orphans)
      invariant forall n :: n in orphans <==> n in all[..i] && n !in names
    {
      if all[i] !in names {
        orphans := orphans + [all[i]];
      }
      assert all[..i + 1] == all[..i] + [all[i]];
    }
    assert all[..|all|] == all;
  }

  lemma DropOrphanDomain(c: Content, d: Content, name: Str)
    requires Covers(c, d) && d.WellFormed() && name !in d.domains
    ensures Covers(c.DropDomain(name), d) && Covers(c, c.DropDomain(name))
  {
  }

  lemma PruneNext(c0: Content, orphans: seq<Str>, i: nat)
    requires i < |orphans|
    ensures Pruned(c0, {}, Elements(orphans[..i])).DropDomain(orphans[i]) == Pruned(c0, {}, Elements(orphans[..i + 1]))
  {
    assert orphans[..i + 1] == orphans[..i] + [orphans[i]];
    assert Elements(orphans[..i + 1]) == Elements(orphans[..i]) + {orphans[i]};
    var c := Pruned(c0, {}, Elements(orphans[..i]));
    assert c.DropDomain(orphans[i]).domains == c0.domains - Elements(orphans[..i + 1]);
  }

  /** Deletes the named domains, none of them imported. */
  method DeleteDomains(t0: Tables, ghost c0: Content, ghost d: Content, orphans: seq<Str>, faults: set<nat>, at: nat)
    returns (ok: bool, next: nat, t: Tables, ghost c: Content)
    requires Represents(t0, c0) && Covers(c0, d) && d.WellFormed() && forall n :: n in orphans ==> n !in d.domains
    ensures if ok then Clear(faults, at, at + |orphans|) else FailedWithin(faults, next, at, at + |orphans|)
    ensures ok ==> next == at + |orphans|
    ensures ok ==> Represents(t, c) && Covers(c0, c) && Covers(c, d) && Shrinks(t0, t)
    ensures ok ==> c == Pruned(c0, {}, Elements(orphans))
  {
    next, t, c := at, t0, c0;
    NothingPruned(c0);
    for i := 0 to |orphans|
      invariant next == at + i && Clear(faults, at, next)
      invariant Represents(t, c) && Covers(c0, c) && Covers(c, d) && Shrinks(t0, t)
      invariant c == Pruned(c0, {}, Elements(orphans[..i]))
    {
      if next in faults {
        ok := false;
        return;
      }
      ClearNext(faults, at, next);
      var name := orphans[i];
      assert name in orphans;
      PruneNext(c0, orphans, i);
      DeleteDomainRepresents(t, c, name);
      DropOrphanDomain(c, d, name);
      ShrinksTransitive(t0, t, DeleteDomain(t, name));
      c := c.DropDomain(name);
      t := DeleteDomain(t, name);
      next := next + 1;
    }
    assert orphans[..|orphans|] == orphans;
    ok := true;
  }

  /** Deletes orphan domains, those that are gone: all of them, if the query delivers all names. */
  method DeleteOrphanDomains(t0: Tables, ghost c0: Content, ghost d: Content, names: set<Str>,
                             faults: set<nat>, limit: Option<nat>, at: nat)
    returns (ok: bool, next: nat, t: Tables, ghost c: Content, ghost gone: set<Str>)
    requires Represents(t0, c0) && Covers(c0, d) && d.WellFormed() && names == d.domains.Keys
    ensures if ok then next == at + 1 + |gone| && Clear(faults, at, next)
            else at <= next < at + 1 + DeliveredCount(|OrphanNames(c0, d)|, limit) && next in faults
    ensures ok ==> Represents(t, c) && Covers(c, d) && Shrinks(t0, t)
    ensures ok ==> c == Pruned(c0, {}, gone) && Reached(gone, OrphanNames(c0, d), |c0.domains|, limit)
  {
    next, t, c, gone := at, t0, c0, {};
    if next in faults {
      ok := false;
      return;
    }
    var orphans := FindOrphanDomains(t0, names, limit);
    gone := Elements(orphans);
    assert t0.nameIndex.Keys == c0.domains.Keys;
    assert |t0.nameIndex| == |t0.nameIndex.Keys| && |c0.domains| == |c0.domains.Keys|;
    SubsetSize(gone, OrphanNames(c0, d));
    ok, next, t, c := DeleteDomains(t0, c0, d, orphans, faults, at + 1);
    if ok {
      ClearFirst(faults, at, next);
    }
  }

  /** How many statements a replacing import takes, with the ones that begin and commit. */
  function ReplaceCount(c: Content, es: seq<ImportEntry>): nat {
    UpsertCount(es) + DeleteCount(c, Imported(es)) + 2
  }

  lemma OrphansOfOverlay(c: Content, d: Content)
    ensures OrphanKeys(Overlay(c, d), d) == OrphanKeys(c, d)
    ensures OrphanNames(Overlay(c, d), d) == OrphanNames(c, d)
  {
  }

  /** How many statements it takes to delete what is in c but not in d: two queries and the deletes. */
  function DeleteCount(c: Content, d: Content): nat {
    |OrphanKeys(c, d)| + |OrphanNames(c, d)| + 2
  }

  /**
   * What the two queries let a replacing import delete of c, the content with everything upserted:
   * of both kinds of orphans, those in the rows delivered.
   */
  ghost predicate Deletes(c: Content, d: Content, faults: DatabaseFaults, rules: set<(Str, Str)>, names: set<Str>) {
    && Reached(rules, OrphanKeys(c, d), |c.rules|, faults.ruleRows)
    && Reached(names, OrphanNames(c, d), |c.domains|, faults.domainRows)
  }

  /** Deletes the orphan rules, then the orphan domains. */
  method DeleteOrphans(t0: Tables, ghost c0: Content, ghost d: Content, names: set<Str>, keys: set<Str>,
                       faults: DatabaseFaults, at: nat)
    returns (ok: bool, next: nat, t: Tables, ghost c: Content,
             ghost goneRules: set<(Str, Str)>, ghost goneNames: set<Str>)
    requires Recorded(t0, c0, d, keys) && d.WellFormed() && names == d.domains.Keys
    ensures if ok then next == at + |goneRules| + |goneNames| + 2 && Clear(faults.statements, at, next)
            else at <= next < at + DeleteCount(c0, d) && next in faults.statements
    ensures ok ==> Represents(t, c) && Shrinks(t0, t)
    ensures ok ==> c == Pruned(c0, goneRules, goneNames) && Deletes(c0, d, faults, goneRules, goneNames)
  {
    goneNames := {};
    ok, next, t, c, goneRules := DeleteOrphanRules(t0, c0, d, names, keys, faults.statements, faults.ruleRows, at);
    if ok {
      ghost var pruned := t;
      ok, next, t, c, goneNames := DeleteDomainsThen(t, c, c0, d, names, goneRules, faults, at, next);
      if ok {
        ShrinksTransitive(t0, pruned, t);
      }
    }
  }

  /** Deletes the orphan domains after the orphan rules in goneRules have been deleted from c00. */
  method DeleteDomainsThen(t0: Tables, ghost c0: Content, ghost c00: Content, ghost d: Content, names: set<Str>,
                           ghost goneRules: set<(Str, Str)>, faults: DatabaseFaults, ghost start: nat, at: nat)
    returns (ok: bool, next: nat, t: Tables, ghost c: Content, ghost goneNames: set<Str>)
    requires Represents(t0, c0) && Covers(c0, d) && d.WellFormed() && names == d.domains.Keys
    requires c0 == Pruned(c00, goneRules, {}) && Reached(goneRules, OrphanKeys(c00, d), |c00.rules|, faults.ruleRows)
    requires at == start + 1 + |goneRules| && Clear(faults.statements, start, at)
    ensures if ok then next == at + |goneNames| + 1 && Clear(faults.statements, start, next)
            else at <= next < start + DeleteCount(c00, d) && next in faults.statements
    ensures ok ==> Represents(t, c) && Shrinks(t0, t)
    ensures ok ==> c == Pruned(c00, goneRules, goneNames) && Deletes(c00, d, faults, goneRules, goneNames)
  {
    RulesFirst(c00, d, goneRules, c0);
    ok, next, t, c, goneNames := DeleteOrphanDomains(t0, c0, d, names, faults.statements, faults.domainRows, at);
    if ok {
      ClearStep(faults.statements, start, at, next);
      PrunedTwice(c00, goneRules, goneNames);
    }
  }

  /** Deleting rules first does not change the domains. */
  lemma RulesFirst(c0: Content, d: Content, rules: set<(Str, Str)>, c: Content)
    requires c == Pruned(c0, rules, {}) && rules <= OrphanKeys(c0, d)
    ensures OrphanNames(c, d) == OrphanNames(c0, d) && |c.domains| == |c0.domains|
    ensures |rules| <= |OrphanKeys(c0, d)|
  {
    assert c.domains == c0.domains;
    SubsetSize(rules, OrphanKeys(c0, d));
  }

  /** Upserts every entry, then deletes what was not imported. */
  method ReplaceAll(t0: Tables, ghost c0: Content, entries: seq<ImportEntry>, faults: DatabaseFaults)
    returns (ok: bool, next: nat, t: Tables, ghost c: Content,
             ghost goneRules: set<(Str, Str)>, ghost goneNames: set<Str>)
    requires Represents(t0, c0) && 0 !in faults.statements
    ensures if ok then next == UpsertCount(entries) + |goneRules| + |goneNames| + 3 && Clear(faults.statements, 0, next)
            else next < ReplaceCount(c0, entries) - 1 && next in faults.statements
    ensures ok ==> Represents(t, c) && SurvivorsKeepIds(t0, t) && Evolves(t0, t)
    ensures ok ==> c == Pruned(Overlay(c0, Imported(entries)), goneRules, goneNames)
    ensures ok ==> Deletes(Overlay(c0, Imported(entries)), Imported(entries), faults, goneRules, goneNames)
  {
    var names, keys;
    ok, next, t, c, names, keys := UpsertAll(t0, c0, entries, faults.statements, 1);
    if !ok {
      goneRules, goneNames := {}, {};
      return;
    }
    PutEntriesIsOverlay(c0, entries);
    OrphansOfOverlay(c0, Imported(entries));
    ImportedWellFormed(entries);
    ghost var grown, upserted := t, next;
    ok, next, t, c, goneRules, goneNames := DeleteOrphans(t, c, Imported(entries), names, keys, faults, next);
    if ok {
      ClearFirst(faults.statements, 0, upserted);
      ClearStep(faults.statements, 0, upserted, next);
      SurvivorsAfter(t0, grown, t);
    }
  }

  /**
   * The whole transaction: begins, upserts and deletes, commits. After a failure of any statement the
   * tables are as before.
   */
  method Replace(t0: Tables, ghost c0: Content, entries: seq<ImportEntry>, faults: DatabaseFaults)
    returns (ok: bool, t: Tables, ghost c: Content, ghost goneRules: set<(Str, Str)>, ghost goneNames: set<Str>)
    requires Represents(t0, c0)
    ensures Represents(t, c) && ReplacedRows(t0, t, ok)
    ensures ReplaceResult(c0, entries, faults, ok, c, goneRules, goneNames)
  {
    var next := 0;
    ok, t, c, goneRules, goneNames := false, t0, c0, {}, {};
    if 0 !in faults.statements {
      ok, next, t, c, goneRules, goneNames := ReplaceAll(t0, c0, entries, faults);
    }
    if ok && next !in faults.statements {
      ClearNext(faults.statements, 0, next);
      ContentWellFormed(t0, c0);
      ReplaceSucceeds(c0, entries, faults, goneRules, goneNames);
    } else {
      ReplaceFails(c0, entries, faults, next, goneRules, goneNames, ok);
      ok, t, c := false, t0, c0;
    }
  }

  /** Rows keep their ids for life; after a failure they are as before. */
  ghost predicate ReplacedRows(t: Tables, u: Tables, ok: bool) {
    Evolves(t, u) && if ok then SurvivorsKeepIds(t, u) else u == t
  }

  /**
   * What a replacing import of entries makes of content c. It fails only if one of the statements it
   * takes with all orphans does, and then leaves c. It succeeds only if none of the statements it
   * takes with the orphans gone does; then these are gone, of those the two queries deliver, and
   * everything else is as the upserts left it. That is exactly the entries if and only if all
   * orphans are gone, as they are when both queries deliver all rows.
   */
  ghost predicate ReplaceResult(c: Content, entries: seq<ImportEntry>, faults: DatabaseFaults, ok: bool,
                                after: Content, rules: set<(Str, Str)>, names: set<Str>)
  {
    if ok then Replaced(c, entries, faults, after, rules, names)
    else after == c && !Clear(faults.statements, 0, ReplaceCount(c, entries))
  }

  ghost predicate Replaced(c: Content, entries: seq<ImportEntry>, faults: DatabaseFaults,
                           after: Content, rules: set<(Str, Str)>, names: set<Str>)
  {
    var d, whole := Imported(entries), Overlay(c, Imported(entries));
    && after == Pruned(whole, rules, names) && Deletes(whole, d, faults, rules, names)
    && Clear(faults.statements, 0, UpsertCount(entries) + |rules| + |names| + 4)
    && (after == d <==> rules == OrphanKeys(c, d) && names == OrphanNames(c, d))
    && (faults.ruleRows == Some(0) && faults.domainRows == Some(0) ==> after == PutEntries(c, entries))
    && (faults.Complete() ==> after == d && Clear(faults.statements, 0, ReplaceCount(c, entries)))
  }

  lemma ReplaceFails(c: Content, entries: seq<ImportEntry>, faults: DatabaseFaults, next: nat,
                     rules: set<(Str, Str)>, names: set<Str>, ok: bool)
    requires next in faults.statements
    requires if ok then
               && next == UpsertCount(entries) + |rules| + |names| + 3
               && Deletes(Overlay(c, Imported(entries)), Imported(entries), faults, rules, names)
             else next < ReplaceCount(c, entries)
    ensures ReplaceResult(c, entries, faults, false, c, rules, names)
  {
    var d := Imported(entries);
    OrphansOfOverlay(c, d);
    if ok {
      SubsetSize(rules, OrphanKeys(c, d));
      SubsetSize(names, OrphanNames(c, d));
    }
    assert next < ReplaceCount(c, entries);
  }

  lemma ReplaceMeans(c: Content, entries: seq<ImportEntry>, faults: DatabaseFaults,
                     rules: set<(Str, Str)>, names: set<Str>)
    requires c.WellFormed() && Deletes(Overlay(c, Imported(entries)), Imported(entries), faults, rules, names)
    ensures var d, after := Imported(entries), Pruned(Overlay(c, Imported(entries)), rules, names);
            && (after == d <==> rules == OrphanKeys(c, d) && names == OrphanNames(c, d))
            && (faults.Complete() ==> rules == OrphanKeys(c, d) && names == OrphanNames(c, d))
            && (faults.ruleRows == Some(0) && faults.domainRows == Some(0) ==> after == PutEntries(c, entries))
  {
    var d, whole := Imported(entries), Overlay(c, Imported(entries));
    ImportedWellFormed(entries);
    OrphansOfOverlay(c, d);
    PrunedIsImportedIff(c, d, rules, names);
    PutEntriesIsOverlay(c, entries);
    NothingPruned(whole);
    ReachedAll(rules, OrphanKeys(c, d), |whole.rules|, faults.ruleRows);
    ReachedAll(names, OrphanNames(c, d), |whole.domains|, faults.domainRows);
  }

  lemma ReplaceSucceeds(c: Content, entries: seq<ImportEntry>, faults: DatabaseFaults,
                        rules: set<(Str, Str)>, names: set<Str>)
    requires c.WellFormed() && Deletes(Overlay(c, Imported(entries)), Imported(entries), faults, rules, names)
    requires Clear(faults.statements, 0, UpsertCount(entries) + |rules| + |names| + 4)
    ensures ReplaceResult(c, entries, faults, true, Pruned(Overlay(c, Imported(entries)), rules, names), rules, names)
  {
    ReplaceMeans(c, entries, faults, rules, names);
  }

  lemma SurvivorsAfter(t: Tables, grown: Tables, u: Tables)
    requires Grows(t, grown) && Shrinks(grown, u)
    ensures SurvivorsKeepIds(t, u) && Evolves(t, u)
  {
  }

  // ---- Keeping import ----

  function KeepRuleRow(t: Tables, domainId: int, r: ImportRule): Tables {
    if (domainId, r.path) in t.pathIndex then t
    else InsertRule(t, t.lastRule + 1, domainId, r.path, KeptSpec(r))
  }

  lemma KeepRuleRowRepresents(t: Tables, c: Content, name: Str, r: ImportRule)
    requires Represents(t, c) && name in t.nameIndex
    ensures Represents(KeepRuleRow(t, t.nameIndex[name], r), KeepRule(c, name, r))
  {
    var id := t.nameIndex[name];
    DomainByName(t, c, name);
    RuleByPath(t, c, id, r.path);
    if (id, r.path) !in t.pathIndex {
      InsertRuleRepresents(t, c, t.lastRule + 1, id, r.path, KeptSpec(r));
      assert KeepRuleRow(t, id, r) == InsertRule(t, t.lastRule + 1, id, r.path, KeptSpec(r));
    }
  }

  lemma KeepRuleRowGrows(t: Tables, domainId: int, r: ImportRule)
    requires Consistent(t)
    ensures Grows(t, KeepRuleRow(t, domainId, r)) && KeepRuleRow(t, domainId, r).nameIndex == t.nameIndex
  {
  }

  lemma KeepRuleStep(t0: Tables, t: Tables, c: Content, name: Str, r: ImportRule)
    requires Represents(t, c) && Grows(t0, t) && name in t0.nameIndex
    ensures Represents(KeepRuleRow(t, t0.nameIndex[name], r), KeepRule(c, name, r))
    ensures Grows(t0, KeepRuleRow(t, t0.nameIndex[name], r))
  {
    KeepRuleRowRepresents(t, c, name, r);
    KeepRuleRowGrows(t, t.nameIndex[name], r);
    GrowsTransitive(t0, t, KeepRuleRow(t, t.nameIndex[name], r));
  }

  lemma KeepRulesStep(c: Content, name: Str, rs: seq<ImportRule>, j: nat)
    requires j < |rs|
    ensures KeepRules(c, name, rs[..j + 1]) == KeepRule(KeepRules(c, name, rs[..j]), name, rs[j])
  {
    assert rs[..j + 1][..j] == rs[..j];
  }

  method KeepAllRules(t0: Tables, ghost c0: Content, name: Str, rs: seq<ImportRule>, faults: set<nat>, at: nat)
    returns (ok: bool, next: nat, t: Tables, ghost c: Content)
    requires Represents(t0, c0) && name in t0.nameIndex
    ensures if ok then Clear(faults, at, at + |rs|) else FailedWithin(faults, next, at, at + |rs|)
    ensures ok ==> next == at + |rs| && Represents(t, c) && c == KeepRules(c0, name, rs) && Grows(t0, t)
  {
    next, t, c := at, t0, c0;
    var id := t0.nameIndex[name];
    for j := 0 to |rs|
      invariant next == at + j && Clear(faults, at, next)
      invariant Represents(t, c) && c == KeepRules(c0, name, rs[..j]) && Grows(t0, t)
    {
      if next in faults {
        ok := false;
        return;
      }
      KeepRulesStep(c0, name, rs, j);
      ClearNext(faults, at, next);
      KeepRuleStep(t0, t, c, name, rs[j]);
      c := KeepRule(c, name, rs[j]);
      t := KeepRuleRow(t, id, rs[j]);
      next := next + 1;
    }
    assert rs[..|rs|] == rs;
    ok := true;
  }

  /** INSERT OR IGNORE for one entry and its rules. */
  method KeepOne(t0: Tables, ghost c0: Content, e: ImportEntry, faults: set<nat>, at: nat)
    returns (ok: bool, next: nat, t: Tables, ghost c: Content)
    requires Represents(t0, c0)
    ensures if ok then Clear(faults, at, at + 1 + |e.rules|) else FailedWithin(faults, next, at, at + 1 + |e.rules|)
    ensures ok ==> next == at + 1 + |e.rules| && Represents(t, c) && c == KeepEntry(c0, e) && Grows(t0, t)
  {
    if at in faults {
      return false, at, t0, c0;
    }
    t, c := t0, c0;
    if e.name !in t.nameIndex {
      var h := KeptHeader(e);
      UpsertDomainRepresents(t, c, e.name, h);
      UpsertDomainGrows(t, e.name, h);
      c := c.PutHeader(e.name, h);
      t := UpsertDomain(t, e.name, h);
    }
    ghost var started := t;
    ok, next, t, c := KeepAllRules(t, c, e.name, e.rules, faults, at + 1);
    if ok {
      ClearFirst(faults, at, next);
      GrowsTransitive(t0, started, t);
    }
  }

  /** INSERT OR IGNORE for every entry and its rules. */
  method KeepAll(t0: Tables, ghost c0: Content, entries: seq<ImportEntry>, faults: set<nat>, at: nat)
    returns (ok: bool, next: nat, t: Tables, ghost c: Content, count: nat)
    requires Represents(t0, c0)
    ensures if ok then Clear(faults, at, at + UpsertCount(entries))
            else FailedWithin(faults, next, at, at + UpsertCount(entries))
    ensures ok ==> next == at + UpsertCount(entries) && count == |entries|
    ensures ok ==> Represents(t, c) && c == KeepEntries(c0, entries) && Grows(t0, t)
  {
    next, t, c, count := at, t0, c0, 0;
    for i := 0 to |entries|
      invariant next == at + UpsertCount(entries[..i]) && Clear(faults, at, next)
      invariant Represents(t, c) && c == KeepEntries(c0, entries[..i]) && Grows(t0, t) && count == i
    {
      assert entries[..i + 1][..i] == entries[..i];
      UpsertCountStep(entries, i);
      ghost var first := next;
      ghost var before := t;
      ok, next, t, c := KeepOne(t, c, entries[i], faults, next);
      if !ok {
        return;
      }
      ClearStep(faults, at, first, next);
      GrowsTransitive(t0, before, t);
      count := count + 1;
    }
    assert entries[..|entries|] == entries;
    ok := true;
  }
}
