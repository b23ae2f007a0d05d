/** The rule store: the domains and redirect_rules tables behind the admin API and the sync loop. */
module Stores {
  import opened Text
  import opened Names
  import opened Tables
  import opened Import
  import opened Export
  import opened Sorting
  import opened Statements
  import opened Transactions

  datatype Outcome = Ok | Err

  /** How the creation of a domain ends, and what may fail in it besides the unique name. */
  datatype Creation = Created | Taken | Failed

  datatype CreateFault = NoFault | InsertFails | ReadBackFails

  function RowNames(rows: seq<DomainRow>): seq<Str> {
    seq(|rows|, i requires 0 <= i < |rows| => rows[i].name)
  }

  function ExportedRule(row: RuleRow): ImportRule {
    ImportRule(row.path, row.spec.target, row.spec.status, row.spec.priority, Some(row.spec.enabled))
  }

  lemma RowPathsDistinct(t: Tables, domainId: int, rows: seq<RuleRow>)
    requires Consistent(t) && Distinct(rows) && forall r :: r in rows ==> RuleStored(t, domainId, r)
    ensures forall j, k :: 0 <= j < k < |rows| ==> rows[j].path != rows[k].path
  {
    forall j, k | 0 <= j < k < |rows| ensures rows[j].path != rows[k].path {
      assert rows[j] in rows && rows[k] in rows;
    }
  }

  /** The rows of one domain, listed by priority, are an export of its rules. */
  lemma RowsExport(t: Tables, c: Content, d: DomainRow, rows: seq<RuleRow>, rules: seq<ImportRule>)
    requires Represents(t, c) && DomainStored(t, c, d)
    requires Descending(rows, (r: RuleRow) => r.spec.priority) && Distinct(rows)
    requires forall r :: r in rows <==> RuleStored(t, d.id, r)
    requires |rules| == |rows| && forall k :: 0 <= k < |rows| ==> rules[k] == ExportedRule(rows[k])
    ensures ExportsRules(c, d.name, rules)
  {
    forall j | 0 <= j < |rules| ensures ExportsRule(c, d.name, rules[j]) {
      assert rows[j] in rows;
      assert NamedPath(t, t.rules[rows[j].id]) == (d.name, rules[j].path);
    }
    RowPathsDistinct(t, d.id, rows);
    forall p | (d.name, p) in c.rules ensures exists j :: 0 <= j < |rules| && rules[j].path == p {
      var id := t.pathIndex[(t.nameIndex[d.name], p)];
      assert RuleStored(t, d.id, t.rules[id]);
      var j :| 0 <= j < |rows| && rows[j] == t.rules[id];
      assert rules[j].path == p;
    }
  }

  /** The names a listing is about. */
  function Selected(c: Content, search: Str, like: Str -> bool): set<Str> {
    set n | n in c.domains && (search == [] || like(n))
  }

  const DEFAULT_PAGE := 50

  function PageSize(limit: int): nat {
    if limit <= 0 then DEFAULT_PAGE else limit
  }

  lemma PageOf(names: seq<Str>, offset: nat, page: nat)
    requires StrictlySorted(names)
    ensures var slice := names[Min(offset, |names|)..Min(offset + page, |names|)];
            && StrictlySorted(slice) && (forall i :: 0 <= i < |slice| ==> slice[i] in Elements(names))
            && Elements(slice) == First(Elements(names), offset + page) - First(Elements(names), offset)
  {
    SliceOfSorted(names, offset, offset + page);
    var slice := names[Min(offset, |names|)..Min(offset + page, |names|)];
    assert forall i :: 0 <= i < |slice| ==> slice[i] == names[Min(offset, |names|) + i];
  }

  /** Without a search, the first page is the first names of all. */
  lemma FirstPage(c: Content, limit: nat, like: Str -> bool)
    requires limit > 0
    ensures First(Selected(c, [], like), 0 + PageSize(limit)) - First(Selected(c, [], like), 0) ==
            First(c.domains.Keys, limit)
  {
    assert Selected(c, [], like) == c.domains.Keys;
  }

  class Store {
    var tables: Tables
    ghost var content: Content

    ghost predicate Valid() reads this {
      Represents(tables, content)
    }

    constructor ()
      ensures Valid() && content == EMPTY
    {
      tables := Tables(map[], map[], map[], map[], 0, 0);
      content := EMPTY;
    }

    // ---- Reading ----

    /**
     * SELECT ... FROM domains WHERE name LIKE %search% ORDER BY name LIMIT limit OFFSET offset, without
     * the condition when search is empty. like is the database's comparison with %search%.
     */
    method ListDomains(search: Str, like: Str -> bool, limit: int, offset: nat)
      returns (rows: seq<DomainRow>, total: nat)
      requires Valid()
      ensures var names := set n | n in content.domains && (search == [] || like(n));
              var page := if limit <= 0 then 50 else limit;
              && total == |names|
              && Elements(RowNames(rows)) == First(names, offset + page) - First(names, offset)
      ensures StrictlySorted(RowNames(rows))
      ensures forall i :: 0 <= i < |rows| ==> DomainStored(tables, content, rows[i])
    {
      var chosen := set n | n in tables.nameIndex && (search == [] || like(n));
      assert chosen == Selected(content, search, like);
      total := |chosen|;
      var names := SortNames(chosen);
      var from, to := Min(offset, |names|), Min(offset + PageSize(limit), |names|);
      PageOf(names, offset, PageSize(limit));
      rows := ReadDomains(names[from..to]);
    }

    /** Reads the rows of the given names. */
    method ReadDomains(names: seq<Str>) returns (rows: seq<DomainRow>)
      requires Valid() && forall i :: 0 <= i < |names| ==> names[i] in tables.nameIndex
      ensures RowNames(rows) == names
      ensures forall i :: 0 <= i < |rows| ==> DomainStored(tables, content, rows[i])
    {
      rows := [];
      for i := 0 to |names|
        invariant RowNames(rows) == names[..i]
        invariant forall j :: 0 <= j < |rows| ==> DomainStored(tables, content, rows[j])
      {
        DomainByName(tables, content, names[i]);
        rows := rows + [tables.domains[tables.nameIndex[names[i]]]];
      }
    }

    /** SELECT ... FROM redirect_rules WHERE domain_id = domainId ORDER BY priority DESC. */
    method ListRules(domainId: int) returns (rows: seq<RuleRow>)
      requires Valid()
      ensures Descending(rows, (r: RuleRow) => r.spec.priority)
      ensures Distinct(rows)
      ensures forall r :: r in rows <==> RuleStored(tables, domainId, r)
    {
      var found := InSomeOrder(
        set id | id in tables.rules && tables.rules[id].domainId == domainId :: tables.rules[id]);
      forall r ensures r in found <==> RuleStored(tables, domainId, r) {
        if r in found {
          var id :| id in tables.rules && tables.rules[id].domainId == domainId && r == tables.rules[id];
          assert r.id == id;
        }
      }
      rows := SortDescending(found, (r: RuleRow) => r.spec.priority);
      PermutationFacts(found, rows);
    }

    /** Reads a whole snapshot: what is published to the other regions. */
    method ExportAll() returns (entries: seq<ImportEntry>)
      requires Valid()
      ensures IsExport(content, entries)
    {
      FirstPage(content, EXPORT_LIMIT, n => true);
      var domains, total := ListDomains([], n => true, EXPORT_LIMIT, 0);
      entries := [];
      for i := 0 to |domains|
        invariant EntryNames(entries) == RowNames(domains)[..i]
        invariant forall j :: 0 <= j < |entries| ==> ExportsEntry(content, entries[j])
      {
        var d := domains[i];
        assert DomainStored(tables, content, d);
        var rows := ListRules(d.id);
        var rules := [];
        for j := 0 to |rows|
          invariant |rules| == j
          invariant forall k :: 0 <= k < j ==> rules[k] == ExportedRule(rows[k])
        {
          rules := rules + [ExportedRule(rows[j])];
        }
        RowsExport(tables, content, d, rows, rules);
        entries := entries + [ImportEntry(d.name, d.header.defaultUrl, d.header.status, Some(d.header.enabled), rules)];
      }
      assert EntryNames(entries) == RowNames(domains);
    }

    // ---- Single-row changes ----

    /**
     * Adds a domain unless the name is taken. When the row cannot be read back after the insert the
     * call fails, but the domain is there.
     */
    method CreateDomain(name: Str, h: Header, fault: CreateFault) returns (r: Creation)
      requires Valid()
      modifies this
      ensures Valid() && Grows(old(tables), tables)
      ensures r == if fault == InsertFails then Failed
                   else if name in old(content.domains) then Taken
                   else if fault == ReadBackFails then Failed
                   else Created
      ensures fault != InsertFails && r != Taken ==> content == old(content).PutHeader(name, h)
      ensures fault == InsertFails || r == Taken ==> tables == old(tables) && content == old(content)
    {
      if fault == InsertFails {
        return Failed;
      }
      if name in tables.nameIndex {
        return Taken;
      }
      UpsertDomainGrows(tables, name, h);
      UpsertDomainRepresents(tables, content, name, h);
      tables := UpsertDomain(tables, name, h);
      content := content.PutHeader(name, h);
      return if fault == ReadBackFails then Failed else Created;
    }

    /** Changes the columns of an existing domain; an unknown name is no error and no change. */
    method UpdateDomain(name: Str, h: Header, fails: bool) returns (r: Outcome)
      requires Valid()
      modifies this
      ensures Valid() && Grows(old(tables), tables)
      ensures r.Err? <==> fails
      ensures content == if r.Ok? && name in old(content.domains) then old(content).PutHeader(name, h) else old(content)
      ensures r.Err? ==> tables == old(tables)
    {
      if fails {
        return Err;
      }
      if name in tables.nameIndex {
        UpsertDomainGrows(tables, name, h);
        UpsertDomainRepresents(tables, content, name, h);
        tables := UpsertDomain(tables, name, h);
        content := content.PutHeader(name, h);
      }
      return Ok;
    }

    /** Removes a domain and, by the cascade, all its rules. */
    method DeleteDomain(name: Str, fails: bool) returns (r: Outcome)
      requires Valid()
      modifies this
      ensures Valid() && Shrinks(old(tables), tables)
      ensures r.Err? <==> fails
      ensures content == if r.Ok? then old(content).DropDomain(name) else old(content)
      ensures r.Err? ==> tables == old(tables)
    {
      if fails {
        return Err;
      }
      DeleteDomainRepresents(tables, content, name);
      tables := Statements.DeleteDomain(tables, name);
      content := content.DropDomain(name);
      return Ok;
    }

    /** Fails, changing nothing, when the domain is unknown or already has a rule for the path. */
    method CreateRule(domainId: int, path: Str, spec: RuleSpec, fails: bool) returns (r: Outcome)
      requires Valid()
      modifies this
      ensures Valid() && Grows(old(tables), tables)
      ensures r.Ok? <==> !fails && domainId in old(tables.domains) &&
                         (old(tables.domains)[domainId].name, path) !in old(content.rules)
      ensures r.Ok? ==> content == old(content).PutRule(old(tables.domains)[domainId].name, path, spec)
      ensures r.Err? ==> tables == old(tables) && content == old(content)
    {
      if fails || domainId !in tables.domains {
        return Err;
      }
      RuleByPath(tables, content, domainId, path);
      if (domainId, path) in tables.pathIndex {
        return Err;
      }
      UpsertRuleGrows(tables, domainId, path, spec);
      UpsertRuleRepresents(tables, content, domainId, path, spec);
      content := content.PutRule(tables.domains[domainId].name, path, spec);
      tables := UpsertRule(tables, domainId, path, spec);
      return Ok;
    }

    /** Changes path and columns of a rule. Fails when another rule of the domain has that path. */
    method UpdateRule(id: int, path: Str, spec: RuleSpec, fails: bool) returns (r: Outcome)
      requires Valid()
      modifies this
      ensures Valid() && Evolves(old(tables), tables)
      ensures id !in old(tables.rules) ==> (r.Err? <==> fails) && tables == old(tables) && content == old(content)
      ensures id in old(tables.rules) ==>
                var row := old(tables.rules)[id];
                row.domainId in old(tables.domains) &&
                var name := old(tables.domains)[row.domainId].name;
                && (r.Err? <==> fails || (path != row.path && (name, path) in old(content.rules)))
                && (r.Ok? ==> content == old(content).DropRule(name, row.path).PutRule(name, path, spec))
      ensures r.Err? ==> tables == old(tables) && content == old(content)
    {
      if fails {
        return Err;
      }
      if id !in tables.rules {
        return Ok;
      }
      var row := tables.rules[id];
      RuleByPath(tables, content, row.domainId, path);
      if path != row.path && (row.domainId, path) in tables.pathIndex {
        return Err;
      }
      SetRuleRepresents(tables, content, id, path, spec);
      content := content.DropRule(tables.domains[row.domainId].name, row.path)
                        .PutRule(tables.domains[row.domainId].name, path, spec);
      tables := SetRule(tables, id, path, spec);
      return Ok;
    }

    /** Removes a rule; an unknown id is no error and no change. */
    method DeleteRule(id: int, fails: bool) returns (r: Outcome)
      requires Valid()
      modifies this
      ensures Valid() && Shrinks(old(tables), tables)
      ensures r.Err? <==> fails
      ensures tables.rules == if r.Ok? then old(tables.rules) - {id} else old(tables.rules)
      ensures r.Err? ==> tables == old(tables)
      ensures content == if r.Ok? && id in old(tables.rules) && old(tables.rules)[id].domainId in old(tables.domains)
                         then old(content).DropRule(old(tables.domains)[old(tables.rules)[id].domainId].name,
                                                    old(tables.rules)[id].path)
                         else old(content)
    {
      if fails {
        return Err;
      }
      DeleteRuleRepresents(tables, content, id);
      content := WithoutRule(tables, content, id);
      tables := Statements.DeleteRule(tables, id);
      return Ok;
    }

    // ---- Bulk operations ----

    /**
     * Adds the entries, keeping every domain and rule that is there already. Statements are
     * numbered: 0 begins the transaction, the inserts follow, the last one commits. faults holds
     * the numbers of those the database fails; after any failure nothing has changed.
     */
    method BulkImport(entries: seq<ImportEntry>, faults: set<nat>) returns (r: Outcome, count: nat)
      requires Valid()
      modifies this
      ensures Valid() && Evolves(old(tables), tables)
      ensures r.Ok? <==> Clear(faults, 0, UpsertCount(entries) + 2)
      ensures r.Ok? ==>
                content == KeepEntries(old(content), entries) && count == |entries| && Grows(old(tables), tables)
      ensures r.Err? ==> content == old(content) && tables == old(tables)
    {
      if 0 in faults {
        return Err, 0;
      }
      var ok, next, t, c, n := KeepAll(tables, content, entries, faults, 1);
      if !ok || next in faults {
        assert exists k :: 0 <= k < UpsertCount(entries) + 2 && k in faults;
        return Err, 0;
      }
      ClearFirst(faults, 0, next);
      ClearNext(faults, 0, next);
      tables, content := t, c;
      return Ok, n;
    }

    /**
     * Makes the store hold exactly the entries: upserts them all, then deletes orphan rules and
     * orphan domains. Rows that survive keep their ids; after any reported failure nothing has
     * changed. An orphan query that ends early is not noticed: then only some orphans go, and the
     * others remain as they were. The store holds exactly the entries if and only if all have gone.
     */
    method BulkImportReplace(entries: seq<ImportEntry>, faults: DatabaseFaults)
      returns (r: Outcome, ghost goneRules: set<(Str, Str)>, ghost goneNames: set<Str>)
      requires Valid()
      modifies this
      ensures Valid() && ReplacedRows(old(tables), tables, r.Ok?)
      ensures ReplaceResult(old(content), entries, faults, r.Ok?, content, goneRules, goneNames)
    {
      var ok, t;
      ghost var c;
      ok, t, c, goneRules, goneNames := Replace(tables, content, entries, faults);
      tables, content := t, c;
      r := if ok then Ok else Err;
    }
  }
}
