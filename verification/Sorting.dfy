/** The order in which queries return rows, and sorting by descending priority; ties come in any order. */
module Sorting {
  import opened Text

  ghost predicate Descending<T>(s: seq<T>, key: T -> int) {
    forall i, j :: 0 <= i < j < |s| ==> key(s[i]) >= key(s[j])
  }

  ghost predicate Distinct<T>(s: seq<T>) {
    forall i, j :: 0 <= i < j < |s| ==> s[i] != s[j]
  }

  /** Inserting x behind everything at least as large and before everything smaller keeps the order. */
  lemma InsertionKeepsOrder<T>(s: seq<T>, key: T -> int, x: T, k: nat)
    requires Descending(s, key) && k <= |s|
    requires k > 0 ==> key(s[k - 1]) >= key(x)
    requires k < |s| ==> key(x) >= key(s[k])
    ensures Descending(s[..k] + [x] + s[k..], key)
  {
    var r := s[..k] + [x] + s[k..];
    forall j | 0 <= j < |r| ensures r[j] == (if j < k then s[j] else if j == k then x else s[j - 1]) {}
    forall i, j | 0 <= i < j < |r| ensures key(r[i]) >= key(r[j]) {
      if i == k && j > k + 1 { assert key(s[k]) >= key(s[j - 1]); }
      if j == k && i < k - 1 { assert key(s[i]) >= key(s[k - 1]); }
    }
  }

  lemma InsertionAdds<T>(s: seq<T>, x: T, k: nat)
    requires k <= |s|
    ensures multiset(s[..k] + [x] + s[k..]) == multiset(s) + multiset{x}
  {
    assert s == s[..k] + s[k..];
  }

  lemma NextElement<T>(s: seq<T>, i: nat)
    requires i < |s|
    ensures multiset(s[..i + 1]) == multiset(s[..i]) + multiset{s[i]}
  {
    assert s[..i + 1] == s[..i] + [s[i]];
  }

  method InsertDescending<T>(s: seq<T>, key: T -> int, x: T) returns (r: seq<T>)
    requires Descending(s, key)
    ensures Descending(r, key)
    ensures multiset(r) == multiset(s) + multiset{x}
  {
    var k := |s|;
    while k > 0 && key(s[k - 1]) < key(x)
      invariant 0 <= k <= |s|
      invariant k < |s| ==> key(x) >= key(s[k])
    {
      k := k - 1;
    }
    InsertionKeepsOrder(s, key, x, k);
    InsertionAdds(s, x, k);
    r := s[..k] + [x] + s[k..];
  }

  method SortDescending<T>(s: seq<T>, key: T -> int) returns (r: seq<T>)
    ensures Descending(r, key)
    ensures multiset(r) == multiset(s)
  {
    r := [];
    for i := 0 to |s|
      invariant Descending(r, key)
      invariant multiset(r) == multiset(s[..i])
    {
      NextElement(s, i);
      r := InsertDescending(r, key, s[i]);
    }
    assert s[..|s|] == s;
  }

  /** The members of a set in some order, as a query without ORDER BY returns rows. */
  method InSomeOrder<T(==)>(s: set<T>) returns (r: seq<T>)
    ensures Distinct(r)
    ensures forall x :: x in r <==> x in s
  {
    r := [];
    var pending := s;
    while pending != {}
      invariant pending <= s && Distinct(r)
      invariant forall x :: x in r <==> x in s && x !in pending
      decreases |pending|
    {
      var x :| x in pending;
      pending := pending - {x};
      r := r + [x];
    }
  }

  /** What a query delivers: all rows, or only the first ones when its cursor ends early, which is never noticed. */
  function Delivered<T>(rows: seq<T>, limit: Option<nat>): seq<T> {
    if limit.Some? && limit.value < |rows| then rows[..limit.value] else rows
  }

  /** How many of n rows a query delivers. */
  function DeliveredCount(n: nat, limit: Option<nat>): nat {
    if limit.Some? && limit.value < n then limit.value else n
  }

  function Elements<T>(s: seq<T>): set<T> { set x | x in s }

  lemma {:induction false} ElementCount<T>(s: seq<T>)
    ensures |Elements(s)| <= |s|
    ensures Distinct(s) ==> |Elements(s)| == |s|
  {
    if s == [] {
    } else {
      var front, last := s[..|s| - 1], s[|s| - 1];
      ElementCount(front);
      assert s == front + [last];
      assert Elements(s) == Elements(front) + {last};
      assert Distinct(s) ==> last !in Elements(front);
    }
  }

  lemma DistinctSize<T>(s: seq<T>, members: set<T>)
    requires Distinct(s) && forall x :: x in s <==> x in members
    ensures |s| == |members|
  {
    ElementCount(s);
    assert Elements(s) == members;
  }

  lemma {:induction false} SubsetSize<T>(a: set<T>, b: set<T>)
    requires a <= b
    ensures |a| <= |b| && (|a| == |b| ==> a == b)
    decreases |a|
  {
    if a == {} {
      assert |b| == 0 ==> b == {};
    } else {
      var x :| x in a;
      SubsetSize(a - {x}, b - {x});
      assert a == a - {x} + {x} && b == b - {x} + {x};
    }
  }

  /** What a query misses of a set of rows is at most what its cursor left out. */
  lemma MissedAtMost<T>(all: seq<T>, limit: Option<nat>, wanted: set<T>)
    requires forall x :: x in wanted ==> x in all
    ensures var found := wanted * Elements(Delivered(all, limit));
            |found| <= DeliveredCount(|all|, limit) && |wanted| <= |found| + |all| - DeliveredCount(|all|, limit)
  {
    var k := DeliveredCount(|all|, limit);
    assert Delivered(all, limit) == all[..k];
    var found, rest := wanted * Elements(all[..k]), Elements(all[k..]);
    ElementCount(all[..k]);
    ElementCount(all[k..]);
    assert all == all[..k] + all[k..];
    SubsetSize(wanted, found + rest);
    SubsetSize(found, Elements(all[..k]));
  }

  /** An injective map has as many values as keys. */
  lemma {:induction false} InjectiveSize<K, V>(m: map<K, V>)
    requires forall x, y :: x in m && y in m && m[x] == m[y] ==> x == y
    ensures |m.Values| == |m.Keys|
    decreases |m.Keys|
  {
    if m.Keys == {} {
      assert m.Values == {};
    } else {
      var x :| x in m;
      var rest := m - {x};
      InjectiveSize(rest);
      assert rest.Keys == m.Keys - {x};
      forall v ensures v in m.Values <==> v in rest.Values || v == m[x] {
        assert m[x] in m.Values;
        if v in rest.Values {
          var y :| y in rest && rest[y] == v;
          assert m[y] == v;
        }
        if v in m.Values && v != m[x] {
          var y :| y in m && m[y] == v;
          assert rest[y] == v;
        }
      }
      assert m.Values == rest.Values + {m[x]};
    }
  }

  lemma {:induction false} CountOfDistinct<T>(s: seq<T>, x: T)
    requires Distinct(s)
    ensures multiset(s)[x] <= 1
  {
    if s == [] {
    } else {
      var front := s[..|s| - 1];
      assert s == front + [s[|s| - 1]];
      CountOfDistinct(front, x);
      if s[|s| - 1] == x {
        assert x !in front;
        assert x !in multiset(front);
      }
    }
  }

  lemma RepeatCounts<T>(s: seq<T>, i: nat, j: nat)
    requires i < j < |s| && s[i] == s[j]
    ensures multiset(s)[s[i]] >= 2
  {
    assert s == s[..i] + [s[i]] + s[i + 1..j] + [s[j]] + s[j + 1..];
  }

  /** A permutation has the same members, and no repetition when the original has none. */
  lemma PermutationFacts<T>(a: seq<T>, b: seq<T>)
    requires multiset(a) == multiset(b)
    ensures |a| == |b|
    ensures forall x :: x in a <==> x in b
    ensures Distinct(a) ==> Distinct(b)
  {
    assert |multiset(a)| == |a| && |multiset(b)| == |b|;
    forall x ensures x in a <==> x in b {
      assert x in a <==> x in multiset(a);
      assert x in b <==> x in multiset(b);
    }
    if Distinct(a) {
      forall i, j | 0 <= i < j < |b| ensures b[i] != b[j] {
        if b[i] == b[j] {
          RepeatCounts(b, i, j);
          CountOfDistinct(a, b[i]);
          assert false;
        }
      }
    }
  }
}
