/** The domains and redirect_rules tables, and the content they stand for once ids are forgotten. */
module Tables {
  import opened Text

  // ---- What the tables say, without ids and timestamps ----

  datatype Header = Header(defaultUrl: Str, status: int, enabled: bool)

  datatype RuleSpec = RuleSpec(target: Str, status: int, priority: int, enabled: bool)

  /** domains maps a name to its columns; rules maps (domain name, path) to the rule's columns. */
  datatype Content = Content(domains: map<Str, Header>, rules: map<(Str, Str), RuleSpec>) {
    ghost predicate WellFormed() {
      forall k :: k in rules ==> k.0 in domains
    }

    function PutHeader(name: Str, h: Header): Content {
      Content(domains[name := h], rules)
    }

    function PutRule(name: Str, path: Str, r: RuleSpec): Content {
      Content(domains, rules[(name, path) := r])
    }

    function DropRule(name: Str, path: Str): Content {
      Content(domains, rules - {(name, path)})
    }

    function DropDomain(name: Str): Content {
      Content(domains - {name}, map k | k in rules && k.0 != name :: rules[k])
    }
  }

  const EMPTY := Content(map[], map[])

  // ---- The rows ----

  datatype DomainRow = DomainRow(id: int, name: Str, header: Header)

  datatype RuleRow = RuleRow(id: int, domainId: int, path: Str, spec: RuleSpec)

  /** Both tables by primary key, their two unique indexes, and the last id each has handed out. */
  datatype Tables = Tables(
    domains: map<int, DomainRow>,
    rules: map<int, RuleRow>,
    nameIndex: map<Str, int>,
    pathIndex: map<(int, Str), int>,
    lastDomain: int,
    lastRule: int)

  ghost predicate DomainRowsOk(t: Tables) {
    forall id :: id in t.domains ==>
      var row := t.domains[id];
      row.id == id && id <= t.lastDomain && row.name in t.nameIndex && t.nameIndex[row.name] == id
  }

  ghost predicate NameIndexOk(t: Tables) {
    forall n :: n in t.nameIndex ==> t.nameIndex[n] in t.domains && t.domains[t.nameIndex[n]].name == n
  }

  ghost predicate RuleRowsOk(t: Tables) {
    forall id :: id in t.rules ==>
      var row := t.rules[id];
      row.id == id && id <= t.lastRule && row.domainId in t.domains &&
      (row.domainId, row.path) in t.pathIndex && t.pathIndex[(row.domainId, row.path)] == id
  }

  ghost predicate PathIndexOk(t: Tables) {
    forall k :: k in t.pathIndex ==>
      var id := t.pathIndex[k];
      id in t.rules && t.rules[id].domainId == k.0 && t.rules[id].path == k.1
  }

  /** Primary keys, UNIQUE(name), UNIQUE(domain_id, path) and the foreign key. */
  ghost predicate Consistent(t: Tables) {
    DomainRowsOk(t) && NameIndexOk(t) && RuleRowsOk(t) && PathIndexOk(t)
  }

  ghost predicate SameHeaders(t: Tables, c: Content)
    requires DomainRowsOk(t)
  {
    && (forall n :: n in c.domains <==> n in t.nameIndex)
    && (forall id :: id in t.domains ==> c.domains[t.domains[id].name] == t.domains[id].header)
  }

  function NamedPath(t: Tables, row: RuleRow): (Str, Str)
    requires row.domainId in t.domains
  {
    (t.domains[row.domainId].name, row.path)
  }

  ghost predicate RulesListed(t: Tables, c: Content)
    requires RuleRowsOk(t)
  {
    forall id :: id in t.rules ==>
      NamedPath(t, t.rules[id]) in c.rules && c.rules[NamedPath(t, t.rules[id])] == t.rules[id].spec
  }

  ghost predicate RulesBacked(t: Tables, c: Content) {
    forall k :: k in c.rules ==> k.0 in t.nameIndex && (t.nameIndex[k.0], k.1) in t.pathIndex
  }

  /** c is what the tables say: the same names, the same (name, path) pairs, the same columns. */
  ghost predicate Represents(t: Tables, c: Content) {
    match c
    case Content(_, _) => Consistent(t) && SameHeaders(t, c) && RulesListed(t, c) && RulesBacked(t, c)
  }

  lemma ContentIsUnique(t: Tables, c: Content, d: Content)
    requires Represents(t, c) && Represents(t, d)
    ensures c == d
  {
    forall n | n in c.domains ensures c.domains[n] == d.domains[n] {
      var id := t.nameIndex[n];
      assert id in t.domains && t.domains[id].name == n;
    }
    forall k | k in c.rules ensures k in d.rules && c.rules[k] == d.rules[k] {
      var id := t.pathIndex[(t.nameIndex[k.0], k.1)];
      assert NamedPath(t, t.rules[id]) == k;
    }
    forall k | k in d.rules ensures k in c.rules {
      var id := t.pathIndex[(t.nameIndex[k.0], k.1)];
      assert NamedPath(t, t.rules[id]) == k;
    }
  }

  lemma ContentWellFormed(t: Tables, c: Content)
    requires Represents(t, c)
    ensures c.WellFormed()
  {
  }

  lemma RowsAreUnique(t: Tables)
    requires Consistent(t)
    ensures forall i, j :: i in t.domains && j in t.domains && t.domains[i].name == t.domains[j].name ==> i == j
    ensures forall i, j :: (i in t.rules && j in t.rules && t.rules[i].domainId == t.rules[j].domainId &&
                            t.rules[i].path == t.rules[j].path) ==> i == j
    ensures forall i :: i in t.rules ==> t.rules[i].domainId in t.domains
  {
    forall i, j | i in t.rules && j in t.rules && t.rules[i].domainId == t.rules[j].domainId &&
                  t.rules[i].path == t.rules[j].path
      ensures i == j
    {
      assert t.pathIndex[(t.rules[i].domainId, t.rules[i].path)] == i;
      assert t.pathIndex[(t.rules[j].domainId, t.rules[j].path)] == j;
    }
  }

  // ---- Single statements ----

  function InsertDomain(t: Tables, id: int, name: Str, h: Header): Tables {
    t.(domains := t.domains[id := DomainRow(id, name, h)], nameIndex := t.nameIndex[name := id], lastDomain := id)
  }

  function SetHeader(t: Tables, id: int, h: Header): Tables
    requires id in t.domains
  {
    t.(domains := t.domains[id := t.domains[id].(header := h)])
  }

  /** Deletes one domain row and, through ON DELETE CASCADE, its rules. */
  function RemoveDomain(t: Tables, id: int): Tables
    requires id in t.domains
  {
    t.(domains := t.domains - {id},
       nameIndex := t.nameIndex - {t.domains[id].name},
       rules := map r | r in t.rules && t.rules[r].domainId != id :: t.rules[r],
       pathIndex := map k | k in t.pathIndex && k.0 != id :: t.pathIndex[k])
  }

  function InsertRule(t: Tables, id: int, domainId: int, path: Str, spec: RuleSpec): Tables {
    t.(rules := t.rules[id := RuleRow(id, domainId, path, spec)],
       pathIndex := t.pathIndex[(domainId, path) := id], lastRule := id)
  }

  function SetRule(t: Tables, id: int, path: Str, spec: RuleSpec): Tables
    requires id in t.rules
  {
    var row := t.rules[id];
    t.(rules := t.rules[id := row.(path := path, spec := spec)],
       pathIndex := (t.pathIndex - {(row.domainId, row.path)})[(row.domainId, path) := id])
  }

  function RemoveRule(t: Tables, id: int): Tables
    requires id in t.rules
  {
    t.(rules := t.rules - {id}, pathIndex := t.pathIndex - {(t.rules[id].domainId, t.rules[id].path)})
  }

  lemma InsertDomainRepresents(t: Tables, c: Content, id: int, name: Str, h: Header)
    requires Represents(t, c) && id > t.lastDomain && name !in t.nameIndex
    ensures Represents(InsertDomain(t, id, name, h), c.PutHeader(name, h))
  {
    var u := InsertDomain(t, id, name, h);
    assert DomainRowsOk(u);
    assert NameIndexOk(u);
    assert RuleRowsOk(u);
    assert PathIndexOk(u);
    assert SameHeaders(u, c.PutHeader(name, h));
    assert forall r :: r in u.rules ==> NamedPath(u, u.rules[r]) == NamedPath(t, t.rules[r]);
  }

  lemma SetHeaderRepresents(t: Tables, c: Content, id: int, h: Header)
    requires Represents(t, c) && id in t.domains
    ensures Represents(SetHeader(t, id, h), c.PutHeader(t.domains[id].name, h))
  {
  }

  lemma RemoveDomainRepresents(t: Tables, c: Content, id: int)
    requires Represents(t, c) && id in t.domains
    ensures Represents(RemoveDomain(t, id), c.DropDomain(t.domains[id].name))
  {
  }

  lemma NamedPathsDiffer(t: Tables, id: int, domainId: int, path: Str)
    requires Consistent(t) && id in t.rules && domainId in t.domains
    requires NamedPath(t, t.rules[id]) == (t.domains[domainId].name, path)
    ensures t.rules[id].domainId == domainId && t.rules[id].path == path
  {
  }

  lemma InsertRuleConsistent(t: Tables, id: int, domainId: int, path: Str, spec: RuleSpec)
    requires Consistent(t) && id > t.lastRule && domainId in t.domains && (domainId, path) !in t.pathIndex
    ensures Consistent(InsertRule(t, id, domainId, path, spec))
  {
    var u := InsertRule(t, id, domainId, path, spec);
    assert RuleRowsOk(u);
    assert PathIndexOk(u);
  }

  lemma InsertRuleRepresents(t: Tables, c: Content, id: int, domainId: int, path: Str, spec: RuleSpec)
    requires Represents(t, c) && id > t.lastRule && domainId in t.domains && (domainId, path) !in t.pathIndex
    ensures Represents(InsertRule(t, id, domainId, path, spec), c.PutRule(t.domains[domainId].name, path, spec))
  {
    var u := InsertRule(t, id, domainId, path, spec);
    var d := c.PutRule(t.domains[domainId].name, path, spec);
    InsertRuleConsistent(t, id, domainId, path, spec);
    forall r | r in u.rules
      ensures NamedPath(u, u.rules[r]) in d.rules && d.rules[NamedPath(u, u.rules[r])] == u.rules[r].spec
    {
      if r != id && NamedPath(t, t.rules[r]) == (t.domains[domainId].name, path) {
        NamedPathsDiffer(t, r, domainId, path);
        assert false;
      }
    }
    assert RulesBacked(u, d);
  }

  lemma SetRuleConsistent(t: Tables, id: int, path: Str, spec: RuleSpec)
    requires Consistent(t) && id in t.rules
    requires path == t.rules[id].path || (t.rules[id].domainId, path) !in t.pathIndex
    ensures Consistent(SetRule(t, id, path, spec))
  {
    var u := SetRule(t, id, path, spec);
    assert RuleRowsOk(u);
    assert PathIndexOk(u);
  }

  lemma SetRuleRepresents(t: Tables, c: Content, id: int, path: Str, spec: RuleSpec)
    requires Represents(t, c) && id in t.rules
    requires path == t.rules[id].path || (t.rules[id].domainId, path) !in t.pathIndex
    ensures var name := t.domains[t.rules[id].domainId].name;
            Represents(SetRule(t, id, path, spec), c.DropRule(name, t.rules[id].path).PutRule(name, path, spec))
  {
    var removed := RemoveRule(t, id);
    var row := t.rules[id];
    var name := t.domains[row.domainId].name;
    RemoveRuleRepresents(t, c, id);
    SetRuleConsistent(t, id, path, spec);
    var u := SetRule(t, id, path, spec);
    var d := c.DropRule(name, row.path).PutRule(name, path, spec);
    forall r | r in u.rules
      ensures NamedPath(u, u.rules[r]) in d.rules && d.rules[NamedPath(u, u.rules[r])] == u.rules[r].spec
    {
      if r != id {
        assert r in removed.rules && NamedPath(removed, removed.rules[r]) == NamedPath(u, u.rules[r]);
        if NamedPath(t, t.rules[r]) == (name, path) {
          NamedPathsDiffer(t, r, row.domainId, path);
          assert false;
        }
      }
    }
    assert RulesBacked(u, d);
  }

  lemma RemoveRuleRepresents(t: Tables, c: Content, id: int)
    requires Represents(t, c) && id in t.rules
    ensures Represents(RemoveRule(t, id), c.DropRule(t.domains[t.rules[id].domainId].name, t.rules[id].path))
  {
  }

  // ---- Ids over time ----

  /** Every row of u was in t with the same identity, or carries an id t had not handed out. */
  ghost predicate Evolves(t: Tables, u: Tables) {
    && t.lastDomain <= u.lastDomain && t.lastRule <= u.lastRule
    && (forall id :: id in u.domains ==>
          id > t.lastDomain || (id in t.domains && t.domains[id].name == u.domains[id].name))
    && (forall id :: id in u.rules ==>
          id > t.lastRule || (id in t.rules && t.rules[id].domainId == u.rules[id].domainId))
  }

  lemma EvolvesTransitive(t: Tables, u: Tables, v: Tables)
    requires Evolves(t, u) && Evolves(u, v)
    ensures Evolves(t, v)
  {
  }

  ghost predicate History(ts: seq<Tables>) {
    && (forall i :: 0 <= i < |ts| ==> Consistent(ts[i]))
    && (forall i :: 0 < i < |ts| ==> Evolves(ts[i - 1], ts[i]))
  }

  lemma {:induction false} HistoryEvolves(ts: seq<Tables>, i: nat, j: nat)
    requires History(ts) && i <= j < |ts|
    ensures Evolves(ts[i], ts[j])
    decreases j
  {
    if i == j {
    } else {
      HistoryEvolves(ts, i, j - 1);
      EvolvesTransitive(ts[i], ts[j - 1], ts[j]);
    }
  }

  /** An id whose row has gone never names a row again, in any later state. */
  lemma IdsAreNeverReused(ts: seq<Tables>, i: nat, j: nat, k: nat, id: int)
    requires History(ts) && i <= j <= k < |ts|
    ensures id in ts[i].domains && id !in ts[j].domains ==> id !in ts[k].domains
    ensures id in ts[i].rules && id !in ts[j].rules ==> id !in ts[k].rules
    ensures id in ts[i].domains && id in ts[k].domains ==> ts[i].domains[id].name == ts[k].domains[id].name
  {
    HistoryEvolves(ts, i, j);
    HistoryEvolves(ts, j, k);
    HistoryEvolves(ts, i, k);
  }
}
