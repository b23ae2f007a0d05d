/** Path patterns: which paths they match, how they nest, and which rule a request gets. */
module Matching {
  import opened Text
  import opened Names
  import opened Tables

  predicate HasPrefix(s: Str, p: Str) { p <= s }

  predicate HasSuffix(s: Str, b: byte) { s != [] && s[|s| - 1] == b }

  /** A pattern matches itself and everything below it. */
  predicate MatchPath(pattern: Str, path: Str) {
    pattern == path ||
    if HasSuffix(pattern, SLASH) then HasPrefix(path, pattern) else HasPrefix(path, pattern + [SLASH])
  }

  /** The segments of a string with one more byte in front. */
  function Lengthened(x: byte, parts: seq<Str>): seq<Str>
    requires parts != []
  {
    if x == SLASH then [[]] + parts else [[x] + parts[0]] + parts[1..]
  }

  lemma SplitCons(x: byte, s: Str)
    ensures Split([x] + s, SLASH) == Lengthened(x, Split(s, SLASH))
  {
    assert ([x] + s)[1..] == s;
  }

  lemma LengthenedOrder(x: byte, a: seq<Str>, b: seq<Str>)
    requires a != [] && b != []
    ensures Lengthened(x, a) <= Lengthened(x, b) <==> a <= b
    ensures Lengthened(x, a) == Lengthened(x, b) <==> a == b
    ensures |Lengthened(x, a)| < |Lengthened(x, b)| <==> |a| < |b|
  {
    var la, lb := Lengthened(x, a), Lengthened(x, b);
    if x == SLASH {
      assert la[1..] == a && lb[1..] == b;
    } else {
      assert la[0][1..] == a[0] && lb[0][1..] == b[0];
      assert a == [a[0]] + a[1..] && b == [b[0]] + b[1..];
      assert la[1..] == a[1..] && lb[1..] == b[1..];
    }
  }

  /** Different first bytes give different first segments, and so does a byte where the other string has none. */
  lemma HeadsDiffer(x: byte, a: seq<Str>, y: byte, b: seq<Str>)
    requires a != [] && b != []
    ensures x != y ==> Lengthened(x, a)[0] != Lengthened(y, b)[0]
    ensures x != SLASH ==> Lengthened(x, a)[0] != []
  {
    assert x != SLASH ==> Lengthened(x, a)[0][0] == x;
    assert y != SLASH ==> Lengthened(y, b)[0][0] == y;
  }

  /** Being above in the directory tree, and being the same, seen on path segments. */
  lemma {:induction false} PrefixBySegments(p: Str, q: Str)
    ensures p + [SLASH] <= q <==> Split(p, SLASH) <= Split(q, SLASH) && |Split(p, SLASH)| < |Split(q, SLASH)|
    ensures p == q <==> Split(p, SLASH) == Split(q, SLASH)
  {
    if p != [] {
      assert p == [p[0]] + p[1..];
      SplitCons(p[0], p[1..]);
    }
    if q != [] {
      assert q == [q[0]] + q[1..];
      SplitCons(q[0], q[1..]);
    }
    var a, b := Split(p, SLASH), Split(q, SLASH);
    assert a <= b ==> a[0] == b[0];
    if p == [] {
      assert q != [] && q[0] == SLASH ==> [[]] <= b;
    } else if q != [] {
      var a', b' := Split(p[1..], SLASH), Split(q[1..], SLASH);
      HeadsDiffer(p[0], a', q[0], b');
      if p[0] == q[0] {
        PrefixBySegments(p[1..], q[1..]);
        LengthenedOrder(p[0], a', b');
        assert p + [SLASH] <= q <==> p[1..] + [SLASH] <= q[1..] by {
          assert p + [SLASH] == [p[0]] + (p[1..] + [SLASH]);
        }
      }
    }
  }

  /**
   * A pattern matches a path exactly when its segments are the path's first segments. The empty
   * segment after a final slash may be any segment of the path, but there must be one.
   */
  lemma MatchPathBySegments(p: Str, q: Str)
    ensures p == [] || p[|p| - 1] != SLASH ==> (MatchPath(p, q) <==> Split(p, SLASH) <= Split(q, SLASH))
    ensures p != [] && p[|p| - 1] == SLASH ==>
              (MatchPath(p, q) <==>
               Split(p, SLASH)[..|Split(p, SLASH)| - 1] <= Split(q, SLASH) && |Split(q, SLASH)| >= |Split(p, SLASH)|)
  {
    PrefixBySegments(p, q);
    if p != [] && p[|p| - 1] == SLASH {
      var above := p[..|p| - 1];
      assert p == above + [SLASH] + [];
      SplitJoin(above, [], SLASH);
      PrefixBySegments(above, q);
    }
  }

  lemma MatchIsPartialOrder(a: Str, b: Str, c: Str)
    ensures MatchPath(a, a)
    ensures MatchPath(a, b) && MatchPath(b, a) ==> a == b
    ensures MatchPath(a, b) && MatchPath(b, c) ==> MatchPath(a, c)
  {
    if MatchPath(a, b) && MatchPath(b, c) && a != b && b != c {
      assert b <= c;
      var below := if HasSuffix(a, SLASH) then a else a + [SLASH];
      assert below <= b;
      assert c[..|below|] == b[..|below|];
    }
  }

  /** The patterns that match one path form a chain. */
  lemma MatchesFormChain(a: Str, b: Str, path: Str)
    requires MatchPath(a, path) && MatchPath(b, path) && |a| <= |b|
    ensures MatchPath(a, b)
  {
    assert a <= path && b <= path;
    assert a == path[..|a|] && b == path[..|b|];
    if a != b {
      assert |a| < |b|;
      var below := if HasSuffix(a, SLASH) then a else a + [SLASH];
      assert below <= path && |below| <= |b|;
      assert below == path[..|below|] == b[..|below|];
    }
  }

  // ---- Answers ----

  datatype Response = NotFound | Redirect(url: Str, status: int)

  /** p is the path of an enabled rule of host that matches. */
  ghost predicate Matches(c: Content, host: Str, path: Str, p: Str) {
    (host, p) in c.rules && c.rules[(host, p)].enabled && MatchPath(p, path)
  }

  /** ... and no matching rule has a higher priority. */
  ghost predicate IsTop(c: Content, host: Str, path: Str, p: Str) {
    Matches(c, host, path, p) &&
    forall q :: Matches(c, host, path, q) ==> c.rules[(host, q)].priority <= c.rules[(host, p)].priority
  }

  const CACHE_LIMIT := 100000

  /** host is an enabled domain among those an engine loads. */
  ghost predicate Served(c: Content, host: Str) {
    host in First(c.domains.Keys, CACHE_LIMIT) && host in c.domains && c.domains[host].enabled
  }

  /**
   * r is an admissible answer: not found for a host that is not served; otherwise the target of a
   * matching rule of highest priority, or the domain's default when no enabled rule matches.
   */
  ghost predicate Answers(c: Content, host: Str, path: Str, r: Response) {
    if !Served(c, host) then r == NotFound
    else if exists p :: Matches(c, host, path, p) then
      exists p :: IsTop(c, host, path, p) && r == Redirect(c.rules[(host, p)].target, c.rules[(host, p)].status)
    else r == Redirect(c.domains[host].defaultUrl, c.domains[host].status)
  }

  /** All matching rules of highest priority send the request to the same place. */
  ghost predicate TopAgrees(c: Content, host: Str, path: Str) {
    forall p, q :: IsTop(c, host, path, p) && IsTop(c, host, path, q) ==>
      c.rules[(host, p)].target == c.rules[(host, q)].target && c.rules[(host, p)].status == c.rules[(host, q)].status
  }

  /** The answer is determined exactly when the rules that share the top priority agree. */
  lemma AnswerIsUniqueIff(c: Content, host: Str, path: Str)
    ensures (forall r, s :: Answers(c, host, path, r) && Answers(c, host, path, s) ==> r == s)
            <==> (Served(c, host) ==> TopAgrees(c, host, path))
  {
    if Served(c, host) && forall r, s :: Answers(c, host, path, r) && Answers(c, host, path, s) ==> r == s {
      forall p, q | IsTop(c, host, path, p) && IsTop(c, host, path, q)
        ensures c.rules[(host, p)].target == c.rules[(host, q)].target
        ensures c.rules[(host, p)].status == c.rules[(host, q)].status
      {
        assert Answers(c, host, path, Redirect(c.rules[(host, p)].target, c.rules[(host, p)].status));
        assert Answers(c, host, path, Redirect(c.rules[(host, q)].target, c.rules[(host, q)].status));
      }
    }
  }

  // ---- Longest match ----

  ghost predicate IsLongest(c: Content, host: Str, path: Str, p: Str) {
    Matches(c, host, path, p) && forall q :: Matches(c, host, path, q) ==> |q| <= |p|
  }

  ghost predicate EnabledRule(c: Content, host: Str, p: Str) {
    (host, p) in c.rules && c.rules[(host, p)].enabled
  }

  /** Among the enabled rules of host, a pattern below another one has a strictly higher priority. */
  ghost predicate PrioritiesFollowNesting(c: Content, host: Str) {
    forall a, b :: EnabledRule(c, host, a) && EnabledRule(c, host, b) && a != b && MatchPath(a, b) ==>
      c.rules[(host, a)].priority < c.rules[(host, b)].priority
  }

  /** Priorities always select a longest matching pattern exactly when they increase along nesting. */
  lemma LongestMatchIff(c: Content, host: Str)
    ensures (forall path, p :: IsTop(c, host, path, p) ==> IsLongest(c, host, path, p))
            <==> PrioritiesFollowNesting(c, host)
  {
    if PrioritiesFollowNesting(c, host) {
      forall path, p | IsTop(c, host, path, p) ensures IsLongest(c, host, path, p) {
        forall q | Matches(c, host, path, q) ensures |q| <= |p| {
          if |q| > |p| {
            MatchesFormChain(p, q, path);
            assert EnabledRule(c, host, p) && EnabledRule(c, host, q);
          }
        }
      }
    }
    if forall path, p :: IsTop(c, host, path, p) ==> IsLongest(c, host, path, p) {
      forall a, b | EnabledRule(c, host, a) && EnabledRule(c, host, b) && a != b && MatchPath(a, b)
        ensures c.rules[(host, a)].priority < c.rules[(host, b)].priority
      {
        OnlyExactIsTop(c, host, a, b);
      }
    }
  }

  /** On the path b itself, a rule for a shorter pattern must not reach the priority of the rule for b. */
  lemma OnlyExactIsTop(c: Content, host: Str, a: Str, b: Str)
    requires forall path, p :: IsTop(c, host, path, p) ==> IsLongest(c, host, path, p)
    requires EnabledRule(c, host, a) && EnabledRule(c, host, b) && a != b && MatchPath(a, b)
    ensures c.rules[(host, a)].priority < c.rules[(host, b)].priority
  {
    assert Matches(c, host, b, b) && Matches(c, host, b, a);
    var p := TopExists(c, host, b, b);
    assert IsLongest(c, host, b, p);
    assert p <= b;
    assert |p| == |b|;
    assert p == b;
    assert |a| < |b|;
    if c.rules[(host, a)].priority == c.rules[(host, b)].priority {
      assert IsTop(c, host, b, a);
      assert false;
    }
  }

  lemma TopExists(c: Content, host: Str, path: Str, p: Str) returns (top: Str)
    requires Matches(c, host, path, p)
    ensures IsTop(c, host, path, top)
  {
    var keys := set k | k in c.rules && k.0 == host && Matches(c, host, path, k.1);
    assert (host, p) in keys;
    var k := HighestPriority(c, keys);
    top := k.1;
    forall q | Matches(c, host, path, q) ensures c.rules[(host, q)].priority <= c.rules[(host, top)].priority {
      assert (host, q) in keys;
    }
  }

  lemma {:induction false} HighestPriority(c: Content, keys: set<(Str, Str)>) returns (k: (Str, Str))
    requires keys != {} && forall x :: x in keys ==> x in c.rules
    ensures k in keys && forall x :: x in keys ==> c.rules[x].priority <= c.rules[k].priority
    decreases |keys|
  {
    var x :| x in keys;
    var rest := keys - {x};
    assert forall y :: y in keys ==> y == x || y in rest;
    if rest == {} {
      k := x;
    } else {
      var y := HighestPriority(c, rest);
      k := if c.rules[x].priority >= c.rules[y].priority then x else y;
    }
  }
}
