/** Upserts and deletes on the tables, and the bookkeeping the replacing import does with them. */
module Statements {
  import opened Text
  import opened Tables

  // ---- The string key that stands for a (domain id, path) pair ----

  function RuleKey(domainId: int, path: Str): Str {
    PrintInt(domainId) + [COLON] + path
  }

  lemma RuleKeyInjective(a: int, p: Str, b: int, q: Str)
    requires RuleKey(a, p) == RuleKey(b, q)
    ensures a == b && p == q
  {
    var k := RuleKey(a, p);
    var i, j := |PrintInt(a)|, |PrintInt(b)|;
    assert k[..i] == PrintInt(a) && k[i] == COLON && k[i + 1..] == p;
    assert k[..j] == PrintInt(b) && k[j] == COLON && k[j + 1..] == q;
    assert forall x :: 0 <= x < i ==> k[x] == PrintInt(a)[x] != COLON;
    assert forall x :: 0 <= x < j ==> k[x] == PrintInt(b)[x] != COLON;
    assert i == j;
    ParsePrintInt(a);
    ParsePrintInt(b);
  }

  /** keys are exactly the string keys of the rules of c, under the ids t gives its domains. */
  ghost predicate KeysOf(keys: set<Str>, t: Tables, c: Content) {
    && (forall k :: k in c.rules ==> k.0 in t.nameIndex && RuleKey(t.nameIndex[k.0], k.1) in keys)
    && (forall s :: s in keys ==> exists k :: k in c.rules && k.0 in t.nameIndex && s == RuleKey(t.nameIndex[k.0], k.1))
  }

  lemma KeyMembership(keys: set<Str>, t: Tables, c: Content, name: Str, path: Str)
    requires Consistent(t) && KeysOf(keys, t, c) && name in t.nameIndex
    ensures RuleKey(t.nameIndex[name], path) in keys <==> (name, path) in c.rules
  {
    var s := RuleKey(t.nameIndex[name], path);
    if s in keys {
      var k :| k in c.rules && k.0 in t.nameIndex && s == RuleKey(t.nameIndex[k.0], k.1);
      RuleKeyInjective(t.nameIndex[name], path, t.nameIndex[k.0], k.1);
      assert t.domains[t.nameIndex[name]].name == t.domains[t.nameIndex[k.0]].name;
      assert k == (name, path);
    }
  }

  lemma KeysAfterPut(keys: set<Str>, t: Tables, c: Content, name: Str, path: Str, r: RuleSpec)
    requires KeysOf(keys, t, c) && name in t.nameIndex
    ensures KeysOf(keys + {RuleKey(t.nameIndex[name], path)}, t, c.PutRule(name, path, r))
  {
    var more, d := keys + {RuleKey(t.nameIndex[name], path)}, c.PutRule(name, path, r);
    assert (name, path) in d.rules;
    forall s | s in more ensures exists k :: k in d.rules && k.0 in t.nameIndex && s == RuleKey(t.nameIndex[k.0], k.1) {
      if s in keys {
        var k :| k in c.rules && k.0 in t.nameIndex && s == RuleKey(t.nameIndex[k.0], k.1);
        assert k in d.rules;
      }
    }
  }

  // ---- How a transaction may move the tables ----

  /** u has every row of t, under the same ids. */
  ghost predicate Grows(t: Tables, u: Tables) {
    && Evolves(t, u)
    && (forall n :: n in t.nameIndex ==> n in u.nameIndex && u.nameIndex[n] == t.nameIndex[n])
    && (forall k :: k in t.pathIndex ==> k in u.pathIndex && u.pathIndex[k] == t.pathIndex[k])
  }

  /** u has no row that t does not have. */
  ghost predicate Shrinks(t: Tables, u: Tables) {
    && Evolves(t, u)
    && (forall n :: n in u.nameIndex ==> n in t.nameIndex && u.nameIndex[n] == t.nameIndex[n])
    && (forall k :: k in u.pathIndex ==> k in t.pathIndex && u.pathIndex[k] == t.pathIndex[k])
  }

  /** A domain, or a rule of a domain, that is in both t and u has the same id in both. */
  ghost predicate SurvivorsKeepIds(t: Tables, u: Tables) {
    && (forall n :: n in t.nameIndex && n in u.nameIndex ==> u.nameIndex[n] == t.nameIndex[n])
    && (forall k :: k in t.pathIndex && k in u.pathIndex ==> u.pathIndex[k] == t.pathIndex[k])
  }

  /** The row is of a domain c has, at a path c does not have. */
  ghost predicate Orphan(t: Tables, row: RuleRow, c: Content)
  {
    row.domainId in t.domains && NamedPath(t, row).0 in c.domains && NamedPath(t, row) !in c.rules
  }

  /** row is a stored domain, with the columns c gives its name. */
  ghost predicate DomainStored(t: Tables, c: Content, row: DomainRow) {
    && row.id in t.domains && t.domains[row.id] == row
    && row.name in c.domains && c.domains[row.name] == row.header
  }

  predicate RuleStored(t: Tables, domainId: int, row: RuleRow) {
    row.id in t.rules && t.rules[row.id] == row && row.domainId == domainId
  }

  lemma DomainByName(t: Tables, c: Content, name: Str)
    requires Represents(t, c) && name in t.nameIndex
    ensures DomainStored(t, c, t.domains[t.nameIndex[name]]) && t.domains[t.nameIndex[name]].name == name
  {
    var id := t.nameIndex[name];
    assert id in t.domains && t.domains[id].id == id;
  }

  lemma RuleByPath(t: Tables, c: Content, domainId: int, path: Str)
    requires Represents(t, c) && domainId in t.domains
    ensures (domainId, path) in t.pathIndex <==> (t.domains[domainId].name, path) in c.rules
  {
    if (domainId, path) in t.pathIndex {
      var id := t.pathIndex[(domainId, path)];
      assert NamedPath(t, t.rules[id]) == (t.domains[domainId].name, path);
    }
  }

  // ---- INSERT ... ON CONFLICT DO UPDATE, and DELETE ----

  function UpsertDomain(t: Tables, name: Str, h: Header): Tables
    requires name in t.nameIndex ==> t.nameIndex[name] in t.domains
  {
    if name in t.nameIndex then SetHeader(t, t.nameIndex[name], h) else InsertDomain(t, t.lastDomain + 1, name, h)
  }

  lemma UpsertDomainGrows(t: Tables, name: Str, h: Header)
    requires Consistent(t)
    ensures Grows(t, UpsertDomain(t, name, h))
    ensures var u := UpsertDomain(t, name, h);
            name in u.nameIndex && u.nameIndex[name] in u.domains && u.domains[u.nameIndex[name]].name == name
  {
  }

  lemma UpsertDomainRepresents(t: Tables, c: Content, name: Str, h: Header)
    requires Represents(t, c)
    ensures Represents(UpsertDomain(t, name, h), c.PutHeader(name, h))
  {
    if name in t.nameIndex {
      DomainByName(t, c, name);
      SetHeaderRepresents(t, c, t.nameIndex[name], h);
      assert UpsertDomain(t, name, h) == SetHeader(t, t.nameIndex[name], h);
    } else {
      InsertDomainRepresents(t, c, t.lastDomain + 1, name, h);
      assert UpsertDomain(t, name, h) == InsertDomain(t, t.lastDomain + 1, name, h);
    }
  }

  function UpsertRule(t: Tables, domainId: int, path: Str, spec: RuleSpec): Tables
    requires (domainId, path) in t.pathIndex ==> t.pathIndex[(domainId, path)] in t.rules
  {
    if (domainId, path) in t.pathIndex then SetRule(t, t.pathIndex[(domainId, path)], path, spec)
    else InsertRule(t, t.lastRule + 1, domainId, path, spec)
  }

  lemma UpsertRuleGrows(t: Tables, domainId: int, path: Str, spec: RuleSpec)
    requires Consistent(t)
    ensures var u := UpsertRule(t, domainId, path, spec);
            Grows(t, u) && u.domains == t.domains && u.nameIndex == t.nameIndex
  {
  }

  lemma UpsertRuleRepresents(t: Tables, c: Content, domainId: int, path: Str, spec: RuleSpec)
    requires Represents(t, c) && domainId in t.domains
    ensures Represents(UpsertRule(t, domainId, path, spec), c.PutRule(t.domains[domainId].name, path, spec))
  {
    var name := t.domains[domainId].name;
    if (domainId, path) in t.pathIndex {
      var id := t.pathIndex[(domainId, path)];
      assert id in t.rules && t.rules[id].domainId == domainId && t.rules[id].path == path;
      SetRuleRepresents(t, c, id, path, spec);
      DropThenPut(c, name, path, spec);
      assert UpsertRule(t, domainId, path, spec) == SetRule(t, id, path, spec);
    } else {
      InsertRuleRepresents(t, c, t.lastRule + 1, domainId, path, spec);
      assert UpsertRule(t, domainId, path, spec) == InsertRule(t, t.lastRule + 1, domainId, path, spec);
    }
  }

  lemma DropThenPut(c: Content, name: Str, path: Str, spec: RuleSpec)
    ensures c.DropRule(name, path).PutRule(name, path, spec) == c.PutRule(name, path, spec)
  {
    assert c.DropRule(name, path).PutRule(name, path, spec).rules == c.PutRule(name, path, spec).rules;
  }

  function DeleteDomain(t: Tables, name: Str): Tables
    requires name in t.nameIndex ==> t.nameIndex[name] in t.domains
  {
    if name in t.nameIndex then RemoveDomain(t, t.nameIndex[name]) else t
  }

  lemma DeleteDomainRepresents(t: Tables, c: Content, name: Str)
    requires Represents(t, c)
    ensures Represents(DeleteDomain(t, name), c.DropDomain(name)) && Shrinks(t, DeleteDomain(t, name))
  {
    if name in t.nameIndex {
      DomainByName(t, c, name);
      RemoveDomainRepresents(t, c, t.nameIndex[name]);
    } else {
      assert c.DropDomain(name).domains == c.domains;
      assert c.DropDomain(name).rules == c.rules;
    }
  }

  function DeleteRule(t: Tables, id: int): Tables {
    if id in t.rules then RemoveRule(t, id) else t
  }

  function WithoutRule(t: Tables, c: Content, id: int): Content
    requires id in t.rules ==> t.rules[id].domainId in t.domains
  {
    if id in t.rules then c.DropRule(NamedPath(t, t.rules[id]).0, t.rules[id].path) else c
  }

  lemma DeleteRuleRepresents(t: Tables, c: Content, id: int)
    requires Represents(t, c)
    ensures Represents(DeleteRule(t, id), WithoutRule(t, c, id)) && Shrinks(t, DeleteRule(t, id))
    ensures DeleteRule(t, id).rules == t.rules - {id}
  {
    if id in t.rules {
      RemoveRuleRepresents(t, c, id);
    }
  }
}
