/** The export of a store, and what importing an export gives back. */
module Export {
  import opened Text
  import opened Names
  import opened Sorting
  import opened Tables
  import opened Import

  // ---- What an export contains ----

  ghost predicate ExportsRule(c: Content, n: Str, r: ImportRule) {
    (n, r.path) in c.rules &&
    var s := c.rules[(n, r.path)];
    r.target == s.target && r.status == s.status && r.priority == s.priority && r.enabled == Some(s.enabled)
  }

  /** rs lists every rule of n once, highest priority first; rules of equal priority come in any order. */
  ghost predicate ExportsRules(c: Content, n: Str, rs: seq<ImportRule>) {
    && (forall j :: 0 <= j < |rs| ==> ExportsRule(c, n, rs[j]))
    && (forall j, k :: 0 <= j < k < |rs| ==> rs[j].path != rs[k].path && rs[j].priority >= rs[k].priority)
    && (forall p :: (n, p) in c.rules ==> exists j :: 0 <= j < |rs| && rs[j].path == p)
  }

  function EntryNames(es: seq<ImportEntry>): seq<Str> {
    seq(|es|, i requires 0 <= i < |es| => es[i].name)
  }

  ghost predicate ExportsEntry(c: Content, e: ImportEntry) {
    && e.name in c.domains
    && e.defaultUrl == c.domains[e.name].defaultUrl
    && e.status == c.domains[e.name].status
    && e.enabled == Some(c.domains[e.name].enabled)
    && ExportsRules(c, e.name, e.rules)
  }

  /** es lists the first EXPORT_LIMIT domains by name, each with all its rules. */
  ghost predicate IsExport(c: Content, es: seq<ImportEntry>) {
    && StrictlySorted(EntryNames(es))
    && Elements(EntryNames(es)) == First(c.domains.Keys, EXPORT_LIMIT)
    && (forall i :: 0 <= i < |es| ==> ExportsEntry(c, es[i]))
  }

  // ---- What survives ----

  /** c without the domains after the first k, and without their rules. */
  ghost function Cut(c: Content, k: nat): Content {
    var first := First(c.domains.Keys, k);
    Content(map n | n in first && n in c.domains :: c.domains[n],
            map r | r in c.rules && r.0 in first :: c.rules[r])
  }

  /** c with every status code 0 replaced by 301. */
  function Normal(c: Content): Content {
    Content(map n | n in c.domains :: c.domains[n].(status := StatusOrDefault(c.domains[n].status)),
            map r | r in c.rules :: c.rules[r].(status := StatusOrDefault(c.rules[r].status)))
  }

  ghost predicate NoZeroStatus(c: Content) {
    && (forall n :: n in c.domains ==> c.domains[n].status != 0)
    && (forall r :: r in c.rules ==> c.rules[r].status != 0)
  }

  ghost predicate Replicable(c: Content) {
    |c.domains| <= EXPORT_LIMIT && NoZeroStatus(c)
  }

  lemma ExportEntryFor(c: Content, es: seq<ImportEntry>, n: Str) returns (i: nat)
    requires IsExport(c, es) && n in First(c.domains.Keys, EXPORT_LIMIT)
    ensures i < |es| && es[i].name == n
    ensures forall k :: 0 <= k < |es| && es[k].name == n ==> k == i
  {
    var names := EntryNames(es);
    assert n in Elements(names);
    i :| 0 <= i < |names| && names[i] == n;
    StrictlySortedDistinct(names);
    forall k | 0 <= k < |es| && es[k].name == n ensures k == i {
      assert names[k] == names[i];
    }
  }

  lemma ExportedNames(c: Content, es: seq<ImportEntry>, n: Str)
    requires IsExport(c, es)
    ensures HasEntry(es, n) <==> n in First(c.domains.Keys, EXPORT_LIMIT)
  {
    var names := EntryNames(es);
    if HasEntry(es, n) {
      var i :| 0 <= i < |es| && es[i].name == n;
      assert names[i] == n;
      assert n in Elements(names);
    }
    if n in First(c.domains.Keys, EXPORT_LIMIT) {
      var i := ExportEntryFor(c, es, n);
    }
  }

  lemma RoundTripHeader(c: Content, es: seq<ImportEntry>, n: Str)
    requires IsExport(c, es) && n in First(c.domains.Keys, EXPORT_LIMIT)
    ensures n in Imported(es).domains && n in c.domains
    ensures Imported(es).domains[n] == c.domains[n].(status := StatusOrDefault(c.domains[n].status))
  {
    LastEntryWins(es, n);
    var i := ExportEntryFor(c, es, n);
    var rest := es[i + 1..];
    assert forall k :: 0 <= k < |rest| ==> rest[k] == es[i + 1 + k];
    assert !HasEntry(rest, n);
  }

  lemma MentionIsRule(c: Content, es: seq<ImportEntry>, i: int, j: int, n: Str, p: Str)
    requires IsExport(c, es) && Mentions(es, i, j, n, p)
    ensures HasEntry(es, n) && (n, p) in c.rules
  {
    assert ExportsRule(c, n, es[i].rules[j]);
  }

  lemma RoundTripRule(c: Content, es: seq<ImportEntry>, n: Str, p: Str)
    requires IsExport(c, es)
    ensures (n, p) in Imported(es).rules <==> n in First(c.domains.Keys, EXPORT_LIMIT) && (n, p) in c.rules
    ensures (n, p) in Imported(es).rules ==>
              Imported(es).rules[(n, p)] == c.rules[(n, p)].(status := StatusOrDefault(c.rules[(n, p)].status))
  {
    LastRuleWins(es, n, p);
    ExportedNames(c, es, n);
    forall i, j | Mentions(es, i, j, n, p) ensures HasEntry(es, n) && (n, p) in c.rules {
      MentionIsRule(c, es, i, j, n, p);
    }
    if n in First(c.domains.Keys, EXPORT_LIMIT) {
      var i := ExportEntryFor(c, es, n);
      if (n, p) in c.rules {
        var j :| 0 <= j < |es[i].rules| && es[i].rules[j].path == p;
        assert Mentions(es, i, j, n, p);
        assert forall k, l :: Mentions(es, k, l, n, p) ==> k == i && l == j;
        assert LastMention(es, i, j, n, p);
        assert ExportsRule(c, n, es[i].rules[j]);
      }
    }
  }

  /** Importing an export gives the first EXPORT_LIMIT domains back, with status 0 turned into 301. */
  lemma RoundTrip(c: Content, es: seq<ImportEntry>)
    requires IsExport(c, es)
    ensures Imported(es) == Normal(Cut(c, EXPORT_LIMIT))
  {
    var d := Normal(Cut(c, EXPORT_LIMIT));
    forall n ensures SameAt(Imported(es), d, n) {
      LastEntryWins(es, n);
      ExportedNames(c, es, n);
      if n in First(c.domains.Keys, EXPORT_LIMIT) {
        RoundTripHeader(c, es, n);
      }
      forall p: Str
        ensures (n, p) in Imported(es).rules <==> (n, p) in d.rules
        ensures (n, p) in d.rules ==> Imported(es).rules[(n, p)] == d.rules[(n, p)]
      {
        RoundTripRule(c, es, n, p);
      }
    }
    SameEverywhere(Imported(es), d);
  }

  // ---- An export added to an empty store ----

  /** c with every domain and rule enabled. */
  function AllOn(c: Content): Content {
    Content(map n | n in c.domains :: c.domains[n].(enabled := true),
            map k | k in c.rules :: c.rules[k].(enabled := true))
  }

  ghost predicate AllEnabled(c: Content) {
    && (forall n :: n in c.domains ==> c.domains[n].enabled)
    && (forall k :: k in c.rules ==> c.rules[k].enabled)
  }

  lemma KeepHeaderOfExport(c: Content, es: seq<ImportEntry>, n: Str)
    requires IsExport(c, es)
    ensures n in KeepEntries(EMPTY, es).domains <==> n in First(c.domains.Keys, EXPORT_LIMIT)
    ensures n in KeepEntries(EMPTY, es).domains ==>
              && n in c.domains
              && KeepEntries(EMPTY, es).domains[n] ==
                 Header(c.domains[n].defaultUrl, StatusOrDefault(c.domains[n].status), true)
  {
    FirstEntryWins(EMPTY, es, n);
    ExportedNames(c, es, n);
    if n in First(c.domains.Keys, EXPORT_LIMIT) {
      var i := ExportEntryFor(c, es, n);
      assert forall k :: 0 <= k < i ==> es[..i][k] == es[k];
      assert !HasEntry(es[..i], n);
    }
  }

  lemma KeepRuleOfExport(c: Content, es: seq<ImportEntry>, n: Str, p: Str)
    requires IsExport(c, es)
    ensures (n, p) in KeepEntries(EMPTY, es).rules <==> (n, p) in Imported(es).rules
    ensures (n, p) in KeepEntries(EMPTY, es).rules ==>
              && (n, p) in c.rules
              && KeepEntries(EMPTY, es).rules[(n, p)] ==
                 c.rules[(n, p)].(status := StatusOrDefault(c.rules[(n, p)].status), enabled := true)
  {
    FirstRuleWins(EMPTY, es, n, p);
    LastRuleWins(es, n, p);
    if i, j :| Mentions(es, i, j, n, p) {
      MentionIsRule(c, es, i, j, n, p);
      OnlyMention(c, es, i, j, n, p);
      assert ExportsRule(c, n, es[i].rules[j]);
    }
  }

  /** An export mentions each rule once. */
  lemma OnlyMention(c: Content, es: seq<ImportEntry>, i: int, j: int, n: Str, p: Str)
    requires IsExport(c, es) && Mentions(es, i, j, n, p)
    ensures FirstMention(es, i, j, n, p) && LastMention(es, i, j, n, p)
  {
    ExportedNames(c, es, n);
    assert HasEntry(es, n);
    var only := ExportEntryFor(c, es, n);
    assert forall k, l :: Mentions(es, k, l, n, p) ==> k == i && l == j;
  }

  /** A keeping import of an export into an empty store gives what a replacing one gives, all of it enabled. */
  lemma KeepExport(c: Content, es: seq<ImportEntry>)
    requires IsExport(c, es)
    ensures KeepEntries(EMPTY, es) == AllOn(Normal(Cut(c, EXPORT_LIMIT)))
  {
    RoundTrip(c, es);
    var kept, d := KeepEntries(EMPTY, es), AllOn(Normal(Cut(c, EXPORT_LIMIT)));
    forall n ensures SameAt(kept, d, n) {
      KeepHeaderOfExport(c, es, n);
      LastEntryWins(es, n);
      forall p: Str
        ensures (n, p) in kept.rules <==> (n, p) in d.rules
        ensures (n, p) in d.rules ==> kept.rules[(n, p)] == d.rules[(n, p)]
      {
        KeepRuleOfExport(c, es, n, p);
      }
    }
    SameEverywhere(kept, d);
  }

  lemma AllOnIsOn(c: Content)
    ensures AllEnabled(AllOn(c))
    ensures NoZeroStatus(c) ==> NoZeroStatus(AllOn(c))
    ensures AllOn(c).domains.Keys == c.domains.Keys && |AllOn(c).domains| == |c.domains|
  {
    assert AllOn(c).domains.Keys == c.domains.Keys;
    assert |AllOn(c).domains| == |AllOn(c).domains.Keys| && |c.domains| == |c.domains.Keys|;
  }

  lemma AllOnFixes(c: Content)
    requires AllEnabled(c)
    ensures AllOn(c) == c
  {
    assert AllOn(c).domains == c.domains && AllOn(c).rules == c.rules;
  }

  /** So the keeping import gives an exported content back exactly when it is replicable and has nothing disabled. */
  lemma KeepRoundTripIff(c: Content, es: seq<ImportEntry>)
    requires c.WellFormed() && IsExport(c, es)
    ensures KeepEntries(EMPTY, es) == c <==> Replicable(c) && AllEnabled(c)
  {
    KeepExport(c, es);
    if Replicable(c) && AllEnabled(c) {
      CutKeepsAll(c);
      NormalFixes(c);
      AllOnFixes(c);
    }
    CutSize(c);
    NormalHasNoZero(Cut(c, EXPORT_LIMIT));
    AllOnIsOn(Normal(Cut(c, EXPORT_LIMIT)));
  }

  lemma CutKeepsAll(c: Content)
    requires c.WellFormed() && |c.domains| <= EXPORT_LIMIT
    ensures Cut(c, EXPORT_LIMIT) == c
  {
    FirstSize(c.domains.Keys, EXPORT_LIMIT);
    var cut := Cut(c, EXPORT_LIMIT);
    assert forall n :: n in c.domains <==> n in First(c.domains.Keys, EXPORT_LIMIT);
    assert cut.domains == c.domains && cut.rules == c.rules;
  }

  lemma NormalFixes(c: Content)
    requires NoZeroStatus(c)
    ensures Normal(c) == c
  {
    assert Normal(c).domains == c.domains && Normal(c).rules == c.rules;
  }

  lemma CutSize(c: Content)
    ensures Normal(Cut(c, EXPORT_LIMIT)).domains.Keys == First(c.domains.Keys, EXPORT_LIMIT)
    ensures |Normal(Cut(c, EXPORT_LIMIT)).domains| <= EXPORT_LIMIT
  {
    FirstSize(c.domains.Keys, EXPORT_LIMIT);
    var d := Normal(Cut(c, EXPORT_LIMIT));
    assert d.domains.Keys == First(c.domains.Keys, EXPORT_LIMIT);
    assert |d.domains| == |d.domains.Keys|;
  }

  lemma NormalHasNoZero(c: Content)
    ensures NoZeroStatus(Normal(c))
  {
  }

  /** The round trip is the identity exactly for at most EXPORT_LIMIT domains and no status 0. */
  lemma RoundTripIsIdentityIff(c: Content, es: seq<ImportEntry>)
    requires c.WellFormed() && IsExport(c, es)
    ensures Imported(es) == c <==> Replicable(c)
    ensures Replicable(c) <==>
            && |c.domains| <= 10000
            && (forall n :: n in c.domains ==> c.domains[n].status != 0)
            && (forall r :: r in c.rules ==> c.rules[r].status != 0)
  {
    RoundTrip(c, es);
    if Replicable(c) {
      CutKeepsAll(c);
      NormalFixes(c);
    } else if Imported(es) == c {
      CutSize(c);
      NormalHasNoZero(Cut(c, EXPORT_LIMIT));
      assert false;
    }
  }

  /** What an export brings back can be exported and imported again without further change. */
  lemma RoundTripTwice(c: Content, es: seq<ImportEntry>, again: seq<ImportEntry>)
    requires IsExport(c, es) && IsExport(Imported(es), again)
    ensures Imported(again) == Imported(es)
  {
    RoundTrip(c, es);
    ImportedWellFormed(es);
    CutSize(c);
    NormalHasNoZero(Cut(c, EXPORT_LIMIT));
    RoundTripIsIdentityIff(Imported(es), again);
  }
}
