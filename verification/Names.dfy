/** Sets of names in byte order: the rank of a name, and the first k names. */
module Names {
  import opened Text
  import opened Sorting

  function Min(a: nat, b: nat): nat { if a < b then a else b }

  predicate StrictlySorted(s: seq<Str>) {
    forall i, j :: 0 <= i < j < |s| ==> Less(s[i], s[j])
  }

  ghost function Below(names: set<Str>, n: Str): set<Str> {
    set m | m in names && Less(m, n)
  }

  /** How many of the names come before n. */
  ghost function Rank(names: set<Str>, n: Str): nat { |Below(names, n)| }

  /** The first k names in byte order: what ORDER BY name LIMIT k selects. */
  ghost function First(names: set<Str>, k: nat): set<Str> {
    set n | n in names && Rank(names, n) < k
  }

  lemma StrictlySortedDistinct(s: seq<Str>)
    requires StrictlySorted(s)
    ensures forall i, j :: 0 <= i < j < |s| ==> s[i] != s[j]
  {
    forall i, j | 0 <= i < j < |s| ensures s[i] != s[j] { LessIrreflexive(s[i]); }
  }

  predicate IsLeast(m: Str, names: set<Str>) {
    m in names && forall x :: x in names && x != m ==> Less(m, x)
  }

  lemma {:induction false} LeastExists(names: set<Str>)
    requires names != {}
    ensures exists m :: IsLeast(m, names)
    decreases |names|
  {
    var x :| x in names;
    var rest := names - {x};
    if rest == {} {
      assert forall y :: y in names && y != x ==> y in rest;
      assert IsLeast(x, names);
    } else {
      LeastExists(rest);
      var y :| IsLeast(y, rest);
      LessTotal(x, y);
      var m := if Less(x, y) then x else y;
      forall z | z in names && z != m ensures Less(m, z) {
        if z != x && Less(x, y) && z != y { LessTransitive(x, y, z); }
      }
      assert IsLeast(m, names);
    }
  }

  lemma LeastUnique(names: set<Str>)
    ensures forall m, n :: IsLeast(m, names) && IsLeast(n, names) ==> m == n
  {
    forall m, n | IsLeast(m, names) && IsLeast(n, names) ensures m == n {
      LessTotal(m, n);
    }
  }

  lemma LeastInFront(m: Str, rest: seq<Str>, names: set<Str>)
    requires IsLeast(m, names) && StrictlySorted(rest) && Elements(rest) == names - {m}
    ensures StrictlySorted([m] + rest) && Elements([m] + rest) == names
  {
    var s := [m] + rest;
    forall j | 0 < j < |s| ensures Less(s[0], s[j]) {
      assert s[j] == rest[j - 1] && rest[j - 1] in Elements(rest);
    }
    forall x | x in names ensures x in Elements(s) {
      if x != m {
        assert x in Elements(rest);
        var i :| 0 <= i < |rest| && rest[i] == x;
        assert s[i + 1] == x;
      } else {
        assert s[0] == x;
      }
    }
    forall x | x in Elements(s) ensures x in names {
      var i :| 0 <= i < |s| && s[i] == x;
      if i > 0 { assert rest[i - 1] in Elements(rest); }
    }
  }

  function SortNames(names: set<Str>): (s: seq<Str>)
    ensures StrictlySorted(s)
    ensures Elements(s) == names
    decreases |names|
  {
    if names == {} then []
    else
      LeastExists(names);
      LeastUnique(names);
      var m :| IsLeast(m, names);
      var rest := SortNames(names - {m});
      LeastInFront(m, rest, names);
      [m] + rest
  }

  lemma {:induction false} ElementsSize(s: seq<Str>)
    requires StrictlySorted(s)
    ensures |Elements(s)| == |s|
  {
    if s == [] {
    } else {
      var last := s[|s| - 1];
      var front := s[..|s| - 1];
      ElementsSize(front);
      assert Elements(s) == Elements(front) + {last};
      if last in front {
        LessIrreflexive(last);
      }
    }
  }

  /** A name's rank is its index in the sorted list. */
  lemma RankOfSorted(s: seq<Str>, i: nat)
    requires StrictlySorted(s) && i < |s|
    ensures Rank(Elements(s), s[i]) == i
  {
    forall m | m in Elements(s) ensures Less(m, s[i]) <==> m in Elements(s[..i]) {
      var j :| 0 <= j < |s| && s[j] == m;
      LessTotal(s[j], s[i]);
      if m in s[..i] { }
      if j < i { assert s[..i][j] == m; }
    }
    assert Below(Elements(s), s[i]) == Elements(s[..i]);
    ElementsSize(s[..i]);
  }

  lemma FirstOfSorted(s: seq<Str>, k: nat)
    requires StrictlySorted(s)
    ensures First(Elements(s), k) == Elements(s[..Min(k, |s|)])
  {
    var cut := s[..Min(k, |s|)];
    forall n | n in Elements(s) ensures n in First(Elements(s), k) <==> n in Elements(cut) {
      var j :| 0 <= j < |s| && s[j] == n;
      RankOfSorted(s, j);
      if j < k { assert cut[j] == n; }
      if n in cut {
        var i :| 0 <= i < |cut| && cut[i] == n;
        RankOfSorted(s, i);
      }
    }
  }

  /** OFFSET a LIMIT b - a: what the first b names have beyond the first a. */
  lemma SliceOfSorted(s: seq<Str>, a: nat, b: nat)
    requires StrictlySorted(s) && a <= b
    ensures Elements(s[Min(a, |s|)..Min(b, |s|)]) == First(Elements(s), b) - First(Elements(s), a)
  {
    FirstOfSorted(s, a);
    FirstOfSorted(s, b);
    var front, slice := s[..Min(a, |s|)], s[Min(a, |s|)..Min(b, |s|)];
    assert s[..Min(b, |s|)] == front + slice;
    StrictlySortedDistinct(s);
    forall x | x in slice ensures x !in front {
      var i :| 0 <= i < |slice| && slice[i] == x;
      assert s[Min(a, |s|) + i] == x;
    }
  }

  /** LIMIT k keeps min(k, all) names; it keeps every name exactly when there are at most k. */
  lemma FirstSize(names: set<Str>, k: nat)
    ensures First(names, k) <= names
    ensures |First(names, k)| == Min(k, |names|)
    ensures First(names, k) == names <==> |names| <= k
  {
    var s := SortNames(names);
    ElementsSize(s);
    FirstOfSorted(s, k);
    ElementsSize(s[..Min(k, |s|)]);
  }
}
