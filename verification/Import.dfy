/** What the two bulk imports and the export mean for the content of a store. */
module Import {
  import opened Text
  import opened Tables

  const DEFAULT_STATUS := 301
  const EXPORT_LIMIT := 10000

  datatype ImportRule = ImportRule(path: Str, target: Str, status: int, priority: int, enabled: Option<bool>)

  datatype ImportEntry = ImportEntry(
    name: Str, defaultUrl: Str, status: int, enabled: Option<bool>, rules: seq<ImportRule>)

  function StatusOrDefault(status: int): int {
    if status == 0 then DEFAULT_STATUS else status
  }

  function ImportEnabled(b: Option<bool>): bool {
    match b
    case None => true
    case Some(v) => v
  }

  // ---- Replacing import: every entry overwrites ----

  function HeaderOf(e: ImportEntry): Header {
    Header(e.defaultUrl, StatusOrDefault(e.status), ImportEnabled(e.enabled))
  }

  function SpecOf(r: ImportRule): RuleSpec {
    RuleSpec(r.target, StatusOrDefault(r.status), r.priority, ImportEnabled(r.enabled))
  }

  function PutRules(c: Content, name: Str, rs: seq<ImportRule>): Content {
    if rs == [] then c
    else
      var r := rs[|rs| - 1];
      PutRules(c, name, rs[..|rs| - 1]).PutRule(name, r.path, SpecOf(r))
  }

  function PutEntry(c: Content, e: ImportEntry): Content {
    PutRules(c.PutHeader(e.name, HeaderOf(e)), e.name, e.rules)
  }

  function PutEntries(c: Content, es: seq<ImportEntry>): Content {
    if es == [] then c else PutEntry(PutEntries(c, es[..|es| - 1]), es[|es| - 1])
  }

  /** The content a replacing import leaves behind, whatever was there before. */
  function Imported(es: seq<ImportEntry>): Content {
    PutEntries(EMPTY, es)
  }

  ghost predicate HasEntry(es: seq<ImportEntry>, n: Str) {
    exists i :: 0 <= i < |es| && es[i].name == n
  }

  /** Rule j of entry i is about path p of domain n. */
  predicate Mentions(es: seq<ImportEntry>, i: int, j: int, n: Str, p: Str) {
    0 <= i < |es| && es[i].name == n && 0 <= j < |es[i].rules| && es[i].rules[j].path == p
  }

  ghost predicate LastMention(es: seq<ImportEntry>, i: int, j: int, n: Str, p: Str) {
    Mentions(es, i, j, n, p) && forall k, l :: Mentions(es, k, l, n, p) ==> k < i || (k == i && l <= j)
  }

  lemma {:induction false} PutRulesFrame(c: Content, name: Str, rs: seq<ImportRule>)
    ensures PutRules(c, name, rs).domains == c.domains
    ensures forall k: (Str, Str) :: k.0 != name ==> (k in PutRules(c, name, rs).rules <==> k in c.rules)
    ensures forall k: (Str, Str) :: k.0 != name && k in c.rules ==> PutRules(c, name, rs).rules[k] == c.rules[k]
    ensures forall k :: k in c.rules ==> k in PutRules(c, name, rs).rules
  {
    if rs == [] {
    } else {
      PutRulesFrame(c, name, rs[..|rs| - 1]);
    }
  }

  /** The last rule for path p, or -1. */
  ghost function LastIndex(rs: seq<ImportRule>, p: Str): (l: int)
    ensures -1 <= l < |rs|
    ensures l >= 0 ==> rs[l].path == p
    ensures forall k :: l < k < |rs| ==> rs[k].path != p
  {
    if rs == [] then -1
    else if rs[|rs| - 1].path == p then |rs| - 1
    else LastIndex(rs[..|rs| - 1], p)
  }

  lemma {:induction false} PutRulesAt(c: Content, name: Str, rs: seq<ImportRule>, p: Str)
    ensures var l, d := LastIndex(rs, p), PutRules(c, name, rs);
            && ((name, p) in d.rules <==> l >= 0 || (name, p) in c.rules)
            && (l >= 0 ==> d.rules[(name, p)] == SpecOf(rs[l]))
            && (l < 0 && (name, p) in c.rules ==> d.rules[(name, p)] == c.rules[(name, p)])
  {
    if rs == [] || rs[|rs| - 1].path == p {
    } else {
      PutRulesAt(c, name, rs[..|rs| - 1], p);
    }
  }

  lemma TailOfFront(es: seq<ImportEntry>, i: nat, n: Str)
    requires i < |es| - 1
    ensures HasEntry(es[..|es| - 1][i + 1..], n) ==> HasEntry(es[i + 1..], n)
  {
    var tail := es[..|es| - 1][i + 1..];
    if k :| 0 <= k < |tail| && tail[k].name == n {
      assert es[i + 1..][k] == tail[k];
    }
  }

  /** The domains imported are those named, and the last entry for a name decides its columns. */
  lemma {:induction false} LastEntryWins(es: seq<ImportEntry>, n: Str)
    ensures n in Imported(es).domains <==> HasEntry(es, n)
    ensures forall i :: 0 <= i < |es| && es[i].name == n && !HasEntry(es[i + 1..], n) ==>
              Imported(es).domains[n] ==
              Header(es[i].defaultUrl, if es[i].status == 0 then 301 else es[i].status, es[i].enabled != Some(false))
  {
    if es == [] {
    } else {
      var front, e := es[..|es| - 1], es[|es| - 1];
      LastEntryWins(front, n);
      PutRulesFrame(Imported(front).PutHeader(e.name, HeaderOf(e)), e.name, e.rules);
      assert HasEntry(front, n) ==> HasEntry(es, n) by {
        if HasEntry(front, n) { var i :| 0 <= i < |front| && front[i].name == n; assert es[i].name == n; }
      }
      if HasEntry(es, n) && e.name != n {
        var i :| 0 <= i < |es| && es[i].name == n;
        assert front[i].name == n;
      }
      forall i | 0 <= i < |es| && es[i].name == n && !HasEntry(es[i + 1..], n)
        ensures Imported(es).domains[n] ==
                Header(es[i].defaultUrl, if es[i].status == 0 then 301 else es[i].status, es[i].enabled != Some(false))
      {
        if i < |es| - 1 {
          assert es[i + 1..][|es| - i - 2] == e;
          assert front[i] == es[i];
          TailOfFront(es, i, n);
        }
      }
    }
  }

  lemma ImportedRuleStep(front: seq<ImportEntry>, e: ImportEntry, n: Str, p: Str)
    ensures var before, after := Imported(front), Imported(front + [e]);
            var l := LastIndex(e.rules, p);
            if e.name == n && l >= 0 then
              (n, p) in after.rules && after.rules[(n, p)] == SpecOf(e.rules[l])
            else
              && ((n, p) in after.rules <==> (n, p) in before.rules)
              && ((n, p) in before.rules ==> after.rules[(n, p)] == before.rules[(n, p)])
  {
    assert (front + [e])[..|front + [e]| - 1] == front;
    var c := Imported(front).PutHeader(e.name, HeaderOf(e));
    if e.name == n {
      PutRulesAt(c, n, e.rules, p);
    } else {
      PutRulesFrame(c, e.name, e.rules);
    }
  }

  /** The rules imported are those mentioned, and the last mention of a (domain, path) decides its columns. */
  lemma {:induction false} LastRuleWins(es: seq<ImportEntry>, n: Str, p: Str)
    ensures (n, p) in Imported(es).rules <==> exists i, j :: Mentions(es, i, j, n, p)
    ensures forall i, j :: LastMention(es, i, j, n, p) ==>
              var r := es[i].rules[j];
              Imported(es).rules[(n, p)] ==
              RuleSpec(r.target, if r.status == 0 then 301 else r.status, r.priority, r.enabled != Some(false))
  {
    if es == [] {
    } else {
      var front, e := es[..|es| - 1], es[|es| - 1];
      assert es == front + [e];
      LastRuleWins(front, n, p);
      ImportedRuleStep(front, e, n, p);
      var l := LastIndex(e.rules, p);
      if e.name == n && l >= 0 {
        assert Mentions(es, |es| - 1, l, n, p);
        forall i, j | LastMention(es, i, j, n, p) ensures i == |es| - 1 && j == l {
        }
      } else {
        MentionsOfFront(front, e, n, p);
      }
    }
  }

  lemma MentionsOfFront(front: seq<ImportEntry>, e: ImportEntry, n: Str, p: Str)
    requires e.name != n || LastIndex(e.rules, p) < 0
    ensures forall i, j :: Mentions(front + [e], i, j, n, p) <==> Mentions(front, i, j, n, p)
    ensures forall i, j :: LastMention(front + [e], i, j, n, p) ==> LastMention(front, i, j, n, p)
  {
    forall i, j ensures Mentions(front + [e], i, j, n, p) <==> Mentions(front, i, j, n, p) {
    }
  }

  /** What an import leaves is well formed: every rule belongs to an imported domain. */
  lemma {:induction false} ImportedWellFormed(es: seq<ImportEntry>)
    ensures Imported(es).WellFormed()
  {
    if es == [] {
    } else {
      var front, e := es[..|es| - 1], es[|es| - 1];
      ImportedWellFormed(front);
      PutRulesFrame(Imported(front).PutHeader(e.name, HeaderOf(e)), e.name, e.rules);
    }
  }

  /** c has everything d has, with the same columns. */
  ghost predicate Covers(c: Content, d: Content) {
    && (forall n :: n in d.domains ==> n in c.domains && c.domains[n] == d.domains[n])
    && (forall k :: k in d.rules ==> k in c.rules && c.rules[k] == d.rules[k])
  }

  /** c, with everything d has put over it. */
  function Overlay(c: Content, d: Content): Content {
    Content(c.domains + d.domains, c.rules + d.rules)
  }

  lemma OverlayPutRule(c: Content, d: Content, name: Str, path: Str, spec: RuleSpec)
    ensures Overlay(c, d).PutRule(name, path, spec) == Overlay(c, d.PutRule(name, path, spec))
  {
    assert (c.rules + d.rules)[(name, path) := spec] == c.rules + d.rules[(name, path) := spec];
  }

  lemma {:induction false} PutRulesIsOverlay(c: Content, d: Content, name: Str, rs: seq<ImportRule>)
    ensures PutRules(Overlay(c, d), name, rs) == Overlay(c, PutRules(d, name, rs))
  {
    if rs == [] {
    } else {
      var front, r := rs[..|rs| - 1], rs[|rs| - 1];
      PutRulesIsOverlay(c, d, name, front);
      OverlayPutRule(c, PutRules(d, name, front), name, r.path, SpecOf(r));
    }
  }

  lemma OverlayPutHeader(c: Content, d: Content, name: Str, h: Header)
    ensures Overlay(c, d).PutHeader(name, h) == Overlay(c, d.PutHeader(name, h))
  {
    assert (c.domains + d.domains)[name := h] == c.domains + d.domains[name := h];
  }

  /** Upserting entries into c puts what they say over c. */
  lemma {:induction false} PutEntriesIsOverlay(c: Content, es: seq<ImportEntry>)
    ensures PutEntries(c, es) == Overlay(c, Imported(es))
  {
    if es == [] {
      assert c.domains + EMPTY.domains == c.domains && c.rules + EMPTY.rules == c.rules;
    } else {
      var front, e := es[..|es| - 1], es[|es| - 1];
      var d := Imported(front);
      PutEntriesIsOverlay(c, front);
      OverlayPutHeader(c, d, e.name, HeaderOf(e));
      PutRulesIsOverlay(c, d.PutHeader(e.name, HeaderOf(e)), e.name, e.rules);
    }
  }

  /** The upserts alone already leave the imported content exactly when there is no orphan. */
  lemma NothingToDeleteIff(c: Content, es: seq<ImportEntry>)
    ensures PutEntries(c, es) == Imported(es) <==>
              c.domains.Keys <= Imported(es).domains.Keys && c.rules.Keys <= Imported(es).rules.Keys
  {
    PutEntriesIsOverlay(c, es);
    var d := Imported(es);
    assert Overlay(c, d).domains.Keys == c.domains.Keys + d.domains.Keys;
    assert Overlay(c, d).rules.Keys == c.rules.Keys + d.rules.Keys;
    if c.domains.Keys <= d.domains.Keys && c.rules.Keys <= d.rules.Keys {
      assert Overlay(c, d).domains == d.domains && Overlay(c, d).rules == d.rules;
    }
  }

  /** c and d say the same about domain n. */
  ghost predicate SameAt(c: Content, d: Content, n: Str) {
    && (n in c.domains <==> n in d.domains)
    && (n in c.domains ==> c.domains[n] == d.domains[n])
    && (forall p: Str :: (n, p) in c.rules <==> (n, p) in d.rules)
    && (forall p: Str :: (n, p) in c.rules ==> c.rules[(n, p)] == d.rules[(n, p)])
  }

  lemma SameEverywhere(c: Content, d: Content)
    requires forall n :: SameAt(c, d, n)
    ensures c == d
  {
    forall n ensures n in c.domains <==> n in d.domains { assert SameAt(c, d, n); }
    forall n | n in c.domains ensures c.domains[n] == d.domains[n] { assert SameAt(c, d, n); }
    forall k: (Str, Str) ensures k in c.rules <==> k in d.rules {
      assert SameAt(c, d, k.0);
      assert k == (k.0, k.1);
    }
    forall k: (Str, Str) | k in c.rules ensures c.rules[k] == d.rules[k] {
      assert SameAt(c, d, k.0);
      assert k == (k.0, k.1);
    }
  }

  /** The entries for domain n, in order. */
  function EntriesOf(n: Str, es: seq<ImportEntry>): seq<ImportEntry> {
    if es == [] then []
    else if es[|es| - 1].name == n then EntriesOf(n, es[..|es| - 1]) + [es[|es| - 1]]
    else EntriesOf(n, es[..|es| - 1])
  }

  // ---- Keeping import: what is there already stays ----

  /** What is added is always enabled, whatever the entry says. */
  function KeptHeader(e: ImportEntry): Header {
    Header(e.defaultUrl, StatusOrDefault(e.status), true)
  }

  function KeptSpec(r: ImportRule): RuleSpec {
    RuleSpec(r.target, StatusOrDefault(r.status), r.priority, true)
  }

  function KeepRule(c: Content, name: Str, r: ImportRule): Content {
    if (name, r.path) in c.rules then c else c.PutRule(name, r.path, KeptSpec(r))
  }

  function KeepRules(c: Content, name: Str, rs: seq<ImportRule>): Content {
    if rs == [] then c else KeepRule(KeepRules(c, name, rs[..|rs| - 1]), name, rs[|rs| - 1])
  }

  function KeepHeader(c: Content, e: ImportEntry): Content {
    if e.name in c.domains then c else c.PutHeader(e.name, KeptHeader(e))
  }

  function KeepEntry(c: Content, e: ImportEntry): Content {
    KeepRules(KeepHeader(c, e), e.name, e.rules)
  }

  /** The content after the non-replacing import of es into c. */
  function KeepEntries(c: Content, es: seq<ImportEntry>): Content {
    if es == [] then c else KeepEntry(KeepEntries(c, es[..|es| - 1]), es[|es| - 1])
  }

  lemma {:induction false} KeepRulesFrame(c: Content, name: Str, rs: seq<ImportRule>)
    ensures var d := KeepRules(c, name, rs);
            && d.domains == c.domains && Covers(d, c)
            && (forall n :: n != name ==> SameAt(d, c, n))
            && (forall j :: 0 <= j < |rs| ==> (name, rs[j].path) in d.rules)
  {
    if rs == [] {
    } else {
      KeepRulesFrame(c, name, rs[..|rs| - 1]);
      var d := KeepRules(c, name, rs[..|rs| - 1]);
      assert forall j :: 0 <= j < |rs| - 1 ==> rs[..|rs| - 1][j] == rs[j];
      forall n | n != name ensures SameAt(KeepRules(c, name, rs), c, n) {
        assert SameAt(d, c, n);
      }
    }
  }

  /** c already has the domain and every path of e. */
  ghost predicate Holds(c: Content, e: ImportEntry) {
    e.name in c.domains && forall j :: 0 <= j < |e.rules| ==> (e.name, e.rules[j].path) in c.rules
  }

  /** Nothing already present is changed, other domains are left alone, and all of e is there afterwards. */
  lemma KeepEntryFrame(c: Content, e: ImportEntry)
    ensures Covers(KeepEntry(c, e), c) && Holds(KeepEntry(c, e), e)
    ensures forall n :: n != e.name ==> SameAt(KeepEntry(c, e), c, n)
  {
    var d := KeepHeader(c, e);
    KeepRulesFrame(d, e.name, e.rules);
    forall n | n != e.name ensures SameAt(KeepEntry(c, e), c, n) {
      assert SameAt(KeepEntry(c, e), d, n) && SameAt(d, c, n);
    }
  }

  /** The import never changes a domain or a rule that exists, and afterwards every entry is held. */
  lemma {:induction false} KeepNeverOverwrites(c: Content, es: seq<ImportEntry>)
    ensures Covers(KeepEntries(c, es), c)
    ensures forall i :: 0 <= i < |es| ==> Holds(KeepEntries(c, es), es[i])
  {
    if es == [] {
    } else {
      var front := es[..|es| - 1];
      var d := KeepEntries(c, front);
      KeepNeverOverwrites(c, front);
      KeepEntryFrame(d, es[|es| - 1]);
      forall i | 0 <= i < |front| ensures Holds(KeepEntries(c, es), es[i]) {
        assert Holds(d, front[i]);
      }
    }
  }

  lemma KeepEntryHeader(c: Content, e: ImportEntry, n: Str)
    ensures var d := KeepEntry(c, e);
            if n == e.name && n !in c.domains then
              n in d.domains && d.domains[n] == Header(e.defaultUrl, StatusOrDefault(e.status), true)
            else
              (n in d.domains <==> n in c.domains) && (n in c.domains ==> d.domains[n] == c.domains[n])
  {
    KeepRulesFrame(KeepHeader(c, e), e.name, e.rules);
  }

  /**
   * The domains added are those named, and the first entry for a name decides the columns; the
   * enabled flag is ignored.
   */
  lemma {:induction false} FirstEntryWins(c: Content, es: seq<ImportEntry>, n: Str)
    ensures n in KeepEntries(c, es).domains <==> n in c.domains || HasEntry(es, n)
    ensures n !in c.domains ==> forall i :: 0 <= i < |es| && es[i].name == n && !HasEntry(es[..i], n) ==>
              KeepEntries(c, es).domains[n] ==
              Header(es[i].defaultUrl, if es[i].status == 0 then 301 else es[i].status, true)
  {
    if es == [] {
    } else {
      var front, e := es[..|es| - 1], es[|es| - 1];
      FirstEntryWins(c, front, n);
      KeepEntryHeader(KeepEntries(c, front), e, n);
      EntryInFront(front, e, n);
      assert es == front + [e];
      forall i | n !in c.domains && 0 <= i < |es| && es[i].name == n && !HasEntry(es[..i], n)
        ensures KeepEntries(c, es).domains[n] ==
                Header(es[i].defaultUrl, if es[i].status == 0 then 301 else es[i].status, true)
      {
        if i < |front| {
          assert front[i] == es[i] && front[..i] == es[..i];
        } else {
          assert es[..i] == front;
        }
      }
    }
  }

  lemma EntryInFront(front: seq<ImportEntry>, e: ImportEntry, n: Str)
    ensures HasEntry(front + [e], n) <==> HasEntry(front, n) || e.name == n
  {
    var es := front + [e];
    assert es[|front|] == e;
    if i :| 0 <= i < |front| && front[i].name == n {
      assert es[i].name == n;
    }
  }

  /** The first rule for path p, or |rs|. */
  ghost function FirstIndex(rs: seq<ImportRule>, p: Str): (f: nat)
    ensures f <= |rs|
    ensures f < |rs| ==> rs[f].path == p
    ensures forall k :: 0 <= k < f ==> rs[k].path != p
  {
    if rs == [] || rs[0].path == p then 0 else 1 + FirstIndex(rs[1..], p)
  }

  lemma FirstIndexOfFront(rs: seq<ImportRule>, p: Str)
    requires rs != []
    ensures var front, f := rs[..|rs| - 1], FirstIndex(rs, p);
            FirstIndex(front, p) == if f < |front| then f else |front|
  {
  }

  lemma {:induction false} KeepRulesAt(c: Content, name: Str, rs: seq<ImportRule>, p: Str)
    ensures var f, d := FirstIndex(rs, p), KeepRules(c, name, rs);
            if (name, p) in c.rules || f == |rs| then
              && ((name, p) in d.rules <==> (name, p) in c.rules)
              && ((name, p) in c.rules ==> d.rules[(name, p)] == c.rules[(name, p)])
            else
              (name, p) in d.rules && d.rules[(name, p)] == KeptSpec(rs[f])
  {
    if rs == [] {
    } else {
      KeepRulesAt(c, name, rs[..|rs| - 1], p);
      FirstIndexOfFront(rs, p);
    }
  }

  ghost predicate FirstMention(es: seq<ImportEntry>, i: int, j: int, n: Str, p: Str) {
    Mentions(es, i, j, n, p) && forall k, l :: Mentions(es, k, l, n, p) ==> k > i || (k == i && l >= j)
  }

  lemma KeepEntryRule(c: Content, e: ImportEntry, n: Str, p: Str)
    ensures var f, d := FirstIndex(e.rules, p), KeepEntry(c, e);
            if (n, p) in c.rules || n != e.name || f == |e.rules| then
              ((n, p) in d.rules <==> (n, p) in c.rules) && ((n, p) in c.rules ==> d.rules[(n, p)] == c.rules[(n, p)])
            else
              (n, p) in d.rules && d.rules[(n, p)] == KeptSpec(e.rules[f])
  {
    if n == e.name {
      KeepRulesAt(KeepHeader(c, e), n, e.rules, p);
    } else {
      KeepEntryFrame(c, e);
      assert SameAt(KeepEntry(c, e), c, n);
    }
  }

  /** Where (n, p) is mentioned in front + [e], and first mentioned. */
  lemma MentionsOfConcat(front: seq<ImportEntry>, e: ImportEntry, n: Str, p: Str)
    ensures forall i, j :: Mentions(front + [e], i, j, n, p) <==>
              Mentions(front, i, j, n, p) || (i == |front| && Mentions([e], 0, j, n, p))
    ensures forall i, j :: i < |front| && FirstMention(front + [e], i, j, n, p) ==> FirstMention(front, i, j, n, p)
  {
    forall i, j
      ensures Mentions(front + [e], i, j, n, p) <==>
                Mentions(front, i, j, n, p) || (i == |front| && Mentions([e], 0, j, n, p))
    {
    }
  }

  /**
   * The rules added are those mentioned, and the first mention of a (domain, path) decides the
   * columns; the enabled flag is ignored.
   */
  lemma {:induction false} FirstRuleWins(c: Content, es: seq<ImportEntry>, n: Str, p: Str)
    ensures (n, p) in KeepEntries(c, es).rules <==> (n, p) in c.rules || exists i, j :: Mentions(es, i, j, n, p)
    ensures (n, p) !in c.rules ==> forall i, j :: FirstMention(es, i, j, n, p) ==>
              var r := es[i].rules[j];
              KeepEntries(c, es).rules[(n, p)] ==
              RuleSpec(r.target, if r.status == 0 then 301 else r.status, r.priority, true)
  {
    if es == [] {
    } else {
      var front, e := es[..|es| - 1], es[|es| - 1];
      assert es == front + [e];
      var f := FirstIndex(e.rules, p);
      FirstRuleWins(c, front, n, p);
      KeepEntryRule(KeepEntries(c, front), e, n, p);
      MentionsOfConcat(front, e, n, p);
      if n == e.name && f < |e.rules| {
        assert Mentions([e], 0, f, n, p);
        assert Mentions(es, |front|, f, n, p);
      }
      FirstMentionAtEnd(front, e, n, p);
    }
  }

  /** A first mention is in front, or front has none and it is e's first rule for the path. */
  lemma FirstMentionAtEnd(front: seq<ImportEntry>, e: ImportEntry, n: Str, p: Str)
    ensures forall i, j :: FirstMention(front + [e], i, j, n, p) && i >= |front| ==>
              && i == |front| && e.name == n && j == FirstIndex(e.rules, p) < |e.rules|
              && !exists k, l :: Mentions(front, k, l, n, p)
  {
    MentionsOfConcat(front, e, n, p);
    var f := FirstIndex(e.rules, p);
    forall i, j | FirstMention(front + [e], i, j, n, p) && i >= |front|
      ensures i == |front| && e.name == n && j == f < |e.rules| && !exists k, l :: Mentions(front, k, l, n, p)
    {
      assert Mentions([e], 0, j, n, p);
      assert f <= j && Mentions([e], 0, f, n, p);
      assert Mentions(front + [e], |front|, f, n, p);
      assert forall k, l :: Mentions(front, k, l, n, p) ==> k < |front| && Mentions(front + [e], k, l, n, p);
    }
  }

  lemma {:induction false} KeepRulesHeld(c: Content, name: Str, rs: seq<ImportRule>)
    requires forall j :: 0 <= j < |rs| ==> (name, rs[j].path) in c.rules
    ensures KeepRules(c, name, rs) == c
  {
    if rs == [] {
    } else {
      assert forall j :: 0 <= j < |rs| - 1 ==> rs[..|rs| - 1][j] == rs[j];
      KeepRulesHeld(c, name, rs[..|rs| - 1]);
    }
  }

  lemma {:induction false} KeepHeldIsNoop(c: Content, es: seq<ImportEntry>)
    requires forall i :: 0 <= i < |es| ==> Holds(c, es[i])
    ensures KeepEntries(c, es) == c
  {
    if es == [] {
    } else {
      assert forall i :: 0 <= i < |es| - 1 ==> es[..|es| - 1][i] == es[i];
      KeepHeldIsNoop(c, es[..|es| - 1]);
      KeepRulesHeld(c, es[|es| - 1].name, es[|es| - 1].rules);
    }
  }

  /** Importing the same entries again changes nothing. */
  lemma KeepTwiceIsOnce(c: Content, es: seq<ImportEntry>)
    ensures KeepEntries(KeepEntries(c, es), es) == KeepEntries(c, es)
  {
    KeepNeverOverwrites(c, es);
    KeepHeldIsNoop(KeepEntries(c, es), es);
  }

  /** Importing a followed by b in one call is importing a, then b. */
  lemma {:induction false} KeepConcat(c: Content, a: seq<ImportEntry>, b: seq<ImportEntry>)
    ensures KeepEntries(c, a + b) == KeepEntries(KeepEntries(c, a), b)
  {
    if b == [] {
      assert a + b == a;
    } else {
      assert (a + b)[..|a + b| - 1] == a + b[..|b| - 1];
      KeepConcat(c, a, b[..|b| - 1]);
    }
  }

  lemma {:induction false} KeepRulesLocal(c: Content, d: Content, name: Str, rs: seq<ImportRule>)
    requires SameAt(c, d, name)
    ensures SameAt(KeepRules(c, name, rs), KeepRules(d, name, rs), name)
  {
    if rs == [] {
    } else {
      KeepRulesLocal(c, d, name, rs[..|rs| - 1]);
    }
  }

  lemma {:induction false} KeepIsPerDomain(c: Content, es: seq<ImportEntry>, n: Str)
    ensures SameAt(KeepEntries(c, es), KeepEntries(c, EntriesOf(n, es)), n)
  {
    if es == [] {
    } else {
      var front, e := es[..|es| - 1], es[|es| - 1];
      KeepIsPerDomain(c, front, n);
      KeepEntryFrame(KeepEntries(c, front), e);
      if e.name != n {
        assert SameAt(KeepEntries(c, es), KeepEntries(c, front), n);
      } else {
        var of := EntriesOf(n, front);
        assert (of + [e])[..|of + [e]| - 1] == of;
        KeepRulesLocal(KeepHeader(KeepEntries(c, front), e), KeepHeader(KeepEntries(c, of), e), n, e.rules);
      }
    }
  }

  /** Only the order among entries of one domain matters. */
  lemma KeepReorder(c: Content, a: seq<ImportEntry>, b: seq<ImportEntry>)
    requires forall n :: EntriesOf(n, a) == EntriesOf(n, b)
    ensures KeepEntries(c, a) == KeepEntries(c, b)
  {
    forall n ensures SameAt(KeepEntries(c, a), KeepEntries(c, b), n) {
      KeepIsPerDomain(c, a, n);
      KeepIsPerDomain(c, b, n);
    }
    SameEverywhere(KeepEntries(c, a), KeepEntries(c, b));
  }
}
