/** Listing certificate keys: a one-pass directory grouping over sorted keys. */
module CertList {
  import opened Text
  import opened Names

  const PERCENT: byte := 37
  const UNDERSCORE: byte := 95
  const BACKSLASH: byte := 92

  // ---- LIKE ----

  /** SQL LIKE: % matches any run of bytes, _ any one byte, and a backslash makes the next byte literal. */
  predicate Like(pattern: Str, s: Str)
    decreases |pattern|, |s|
  {
    if pattern == [] then s == []
    else if pattern[0] == PERCENT then Like(pattern[1..], s) || (s != [] && Like(pattern, s[1..]))
    else if pattern[0] == BACKSLASH && |pattern| > 1 then s != [] && s[0] == pattern[1] && Like(pattern[2..], s[1..])
    else s != [] && (pattern[0] == UNDERSCORE || s[0] == pattern[0]) && Like(pattern[1..], s[1..])
  }

  predicate Plain(prefix: Str) {
    PERCENT !in prefix && UNDERSCORE !in prefix && BACKSLASH !in prefix
  }

  lemma {:induction false} PercentMatchesAll(s: Str)
    ensures Like([PERCENT], s)
  {
    if s == [] {
    } else {
      PercentMatchesAll(s[1..]);
    }
  }

  /** For a prefix without special characters, LIKE prefix% selects the keys that start with it. */
  lemma {:induction false} PlainLikeIsPrefix(prefix: Str, s: Str)
    requires Plain(prefix)
    ensures Like(prefix + [PERCENT], s) <==> prefix <= s
  {
    if prefix == [] {
      assert prefix + [PERCENT] == [PERCENT];
      PercentMatchesAll(s);
    } else {
      assert (prefix + [PERCENT])[1..] == prefix[1..] + [PERCENT];
      if s != [] {
        PlainLikeIsPrefix(prefix[1..], s[1..]);
        assert prefix <= s <==> prefix[0] == s[0] && prefix[1..] <= s[1..] by {
          if prefix[0] == s[0] && prefix[1..] <= s[1..] {
            assert prefix == [prefix[0]] + prefix[1..] && s == [s[0]] + s[1..];
          }
        }
      }
    }
  }

  // ---- What one key contributes ----

  function TrimPrefix(s: Str, prefix: Str): Str {
    if prefix <= s then s[|prefix|..] else s
  }

  /** The key itself, or the immediate directory below prefix that holds it. */
  function Item(prefix: Str, key: Str): Str {
    var suffix := TrimPrefix(key, prefix);
    var i := IndexOf(suffix, SLASH);
    if i < |suffix| then prefix + suffix[..i + 1] else key
  }

  /** For a key below the prefix, the item is a prefix of the key; it ends in the key's only slash after the prefix. */
  lemma ItemIsPrefix(prefix: Str, key: Str)
    requires prefix <= key
    ensures var it := Item(prefix, key);
            && prefix <= it <= key
            && (it != key ==> it[|it| - 1] == SLASH)
            && (forall k :: |prefix| <= k < |it| - 1 ==> it[k] != SLASH)
            && (|it| > |prefix| && it[|it| - 1] != SLASH ==> it == key)
  {
    var suffix := key[|prefix|..];
    var i := IndexOf(suffix, SLASH);
    var it := Item(prefix, key);
    assert key == prefix + suffix;
    forall k | |prefix| <= k < |it| - 1 ensures it[k] != SLASH {
      assert it[k] == suffix[k - |prefix|] == suffix[..i][k - |prefix|];
    }
  }

  /** The item of a key is the key itself, if it has no slash after the prefix, and else what ends in the first one. */
  lemma ItemIff(prefix: Str, key: Str, x: Str)
    requires prefix <= key
    ensures x == Item(prefix, key) <==>
            || (x == key && SLASH !in key[|prefix|..])
            || (prefix <= x <= key && |x| > |prefix| && x[|x| - 1] == SLASH && SLASH !in x[|prefix|..|x| - 1])
  {
    var suffix := key[|prefix|..];
    var i := IndexOf(suffix, SLASH);
    BeforeIndex(suffix, SLASH);
    assert key == prefix + suffix;
    assert forall k :: 0 <= k < |suffix| ==> key[|prefix| + k] == suffix[k];
    if i < |suffix| {
      assert prefix + suffix[..i + 1] == key[..|prefix| + i + 1];
      assert forall k :: |prefix| <= k < |prefix| + i ==> key[k] == suffix[k - |prefix|] != SLASH;
    }
    if prefix <= x <= key && |x| > |prefix| {
      var last := |x| - 1;
      assert x == key[..|x|];
      assert forall k :: |prefix| <= k <= last ==> x[k] == suffix[k - |prefix|];
      assert SLASH !in x[|prefix|..last] <==> forall k :: |prefix| <= k < last ==> x[k] != SLASH by {
        assert forall k :: |prefix| <= k < last ==> x[|prefix|..last][k - |prefix|] == x[k];
      }
    }
  }

  /** A key that is its own item is not the item of a smaller key. */
  lemma FileStartsAnew(prefix: Str, a: Str, b: Str)
    requires prefix <= a && Less(a, b) && Item(prefix, b) == b
    ensures Item(prefix, a) != b
  {
    ItemIsPrefix(prefix, a);
    LessTotal(a, b);
    if b <= a {
      PrefixIsLess(b, a);
    }
  }

  /** An item that continues another one continues it beyond a slash-free end: that one is a whole key. */
  lemma ProperPrefixIsKey(prefix: Str, b: Str, x: Str)
    requires prefix <= b && Item(prefix, b) <= x && |Item(prefix, b)| < |x|
    requires forall k :: |prefix| <= k < |x| - 1 ==> x[k] != SLASH
    ensures Item(prefix, b) == b
  {
    ItemIsPrefix(prefix, b);
    var y := Item(prefix, b);
    assert |y| > 0 ==> x[|y| - 1] == y[|y| - 1];
  }

  /** An item of the larger key is not cut short by the item of the smaller one. */
  lemma NoProperPrefix(prefix: Str, a: Str, b: Str)
    requires prefix <= a && prefix <= b && Less(a, b)
    ensures Item(prefix, b) <= Item(prefix, a) ==> Item(prefix, a) == Item(prefix, b)
  {
    ItemIsPrefix(prefix, a);
    var x, y := Item(prefix, a), Item(prefix, b);
    if y <= x && |y| < |x| {
      ProperPrefixIsKey(prefix, b, x);
      LessTotal(a, b);
      PrefixIsLess(b, a);
      assert false;
    }
  }

  lemma CutsKeepOrder(a: Str, b: Str, x: Str, y: Str)
    requires x <= a && y <= b && Less(a, b) && !(y <= x)
    ensures Less(x, y)
  {
    var k := FirstDifference(x, y);
    if k < |x| && k < |y| {
      assert a[..k] == x[..k] && b[..k] == y[..k];
      LessAtDifference(a, b, k);
    }
  }

  /** Sorted keys have sorted items, so the keys of one directory are contiguous. */
  lemma ItemsFollowKeys(prefix: Str, a: Str, b: Str)
    requires prefix <= a && prefix <= b && Less(a, b)
    ensures Item(prefix, a) == Item(prefix, b) || Less(Item(prefix, a), Item(prefix, b))
  {
    ItemIsPrefix(prefix, a);
    ItemIsPrefix(prefix, b);
    NoProperPrefix(prefix, a, b);
    if !(Item(prefix, b) <= Item(prefix, a)) {
      CutsKeepOrder(a, b, Item(prefix, a), Item(prefix, b));
    }
  }

  // ---- The listing ----

  predicate InDirectory(prefix: Str, key: Str) {
    var suffix := TrimPrefix(key, prefix);
    IndexOf(suffix, SLASH) < |suffix|
  }

  /** A directory is appended unless it is the last item already; a file always is. */
  function Append(out: seq<Str>, prefix: Str, key: Str): seq<Str> {
    if InDirectory(prefix, key) && out != [] && out[|out| - 1] == Item(prefix, key) then out
    else out + [Item(prefix, key)]
  }

  /** What the loop builds. */
  function Listed(prefix: Str, rows: seq<Str>): seq<Str> {
    if rows == [] then [] else Append(Listed(prefix, rows[..|rows| - 1]), prefix, rows[|rows| - 1])
  }

  lemma ListedStep(prefix: Str, rows: seq<Str>, i: nat)
    requires i < |rows|
    ensures rows[..i + 1] == rows[..i] + [rows[i]]
    ensures Listed(prefix, rows[..i + 1]) == Append(Listed(prefix, rows[..i]), prefix, rows[i])
  {
    assert rows[..i + 1][..i] == rows[..i];
  }

  /** One turn of the loop. */
  method AppendKey(keys: seq<Str>, key: Str, prefix: Str, recursive: bool) returns (r: seq<Str>)
    ensures r == if recursive then keys + [key] else Append(keys, prefix, key)
  {
    r := keys;
    var suffix := TrimPrefix(key, prefix);
    var at := IndexOf(suffix, SLASH);
    if !recursive && at < |suffix| {
      var dir := prefix + suffix[..at + 1];
      if keys == [] || keys[|keys| - 1] != dir {
        r := r + [dir];
      }
    } else {
      r := r + [key];
    }
  }

  /** One pass over the rows, comparing each directory only with the last item appended. */
  method List(rows: seq<Str>, prefix: Str, recursive: bool) returns (keys: seq<Str>)
    ensures recursive ==> keys == rows
    ensures !recursive ==> keys == Listed(prefix, rows)
    ensures !recursive && SortedBelow(rows, prefix) ==> IsListing(keys, prefix, rows)
  {
    keys := [];
    for i := 0 to |rows|
      invariant recursive ==> keys == rows[..i]
      invariant !recursive ==> keys == Listed(prefix, rows[..i])
    {
      ListedStep(prefix, rows, i);
      keys := AppendKey(keys, rows[i], prefix, recursive);
    }
    assert rows[..|rows|] == rows;
    if SortedBelow(rows, prefix) {
      ListedIsListing(prefix, rows);
    }
  }

  /** Distinct keys in byte order, all of them starting with the prefix. */
  ghost predicate SortedBelow(rows: seq<Str>, prefix: Str) {
    StrictlySorted(rows) && forall i :: 0 <= i < |rows| ==> prefix <= rows[i]
  }

  ghost predicate HasItem(prefix: Str, rows: seq<Str>, x: Str) {
    exists i :: 0 <= i < |rows| && Item(prefix, rows[i]) == x
  }

  /** Exactly one entry for each immediate file and each immediate directory, in strictly increasing order. */
  ghost predicate IsListing(out: seq<Str>, prefix: Str, rows: seq<Str>) {
    StrictlySorted(out) && forall x :: x in out <==> HasItem(prefix, rows, x)
  }

  /** Items of the larger key go at the end, unless the directory is there already. */
  lemma AppendKeepsOrder(out: seq<Str>, prefix: Str, last: Str, key: Str)
    requires StrictlySorted(out) && out != [] && Last(out) == Item(prefix, last)
    requires prefix <= last && prefix <= key && Less(last, key)
    ensures StrictlySorted(Append(out, prefix, key))
    ensures Last(Append(out, prefix, key)) == Item(prefix, key)
    ensures forall y :: y in Append(out, prefix, key) <==> y in out || y == Item(prefix, key)
  {
    ItemsFollowKeys(prefix, last, key);
    if !InDirectory(prefix, key) { FileStartsAnew(prefix, last, key); }
    SortedAppend(out, Item(prefix, key));
  }

  lemma ItemsOfConcat(prefix: Str, rows: seq<Str>, key: Str, y: Str)
    ensures HasItem(prefix, rows + [key], y) <==> HasItem(prefix, rows, y) || y == Item(prefix, key)
  {
    var all := rows + [key];
    assert all[|rows|] == key;
    if i :| 0 <= i < |rows| && Item(prefix, rows[i]) == y {
      assert all[i] == rows[i];
    }
  }

  lemma ListingGrows(out: seq<Str>, prefix: Str, rows: seq<Str>, key: Str)
    requires IsListing(out, prefix, rows) && prefix <= key
    requires if rows == [] then out == [] else
               && out != [] && Last(out) == Item(prefix, Last(rows))
               && prefix <= Last(rows) && Less(Last(rows), key)
    ensures IsListing(Append(out, prefix, key), prefix, rows + [key])
    ensures Last(Append(out, prefix, key)) == Item(prefix, key)
  {
    if rows != [] {
      AppendKeepsOrder(out, prefix, Last(rows), key);
    }
    forall y ensures HasItem(prefix, rows + [key], y) <==> HasItem(prefix, rows, y) || y == Item(prefix, key) {
      ItemsOfConcat(prefix, rows, key, y);
    }
  }

  /** Over sorted keys below the prefix, comparing with the last item is enough. */
  lemma {:induction false} ListedIsListing(prefix: Str, rows: seq<Str>)
    requires SortedBelow(rows, prefix)
    ensures IsListing(Listed(prefix, rows), prefix, rows)
    ensures rows != [] ==> Listed(prefix, rows) != [] && Last(Listed(prefix, rows)) == Item(prefix, Last(rows))
  {
    if rows == [] {
    } else {
      var front := rows[..|rows| - 1];
      ListedIsListing(prefix, front);
      ListingGrows(Listed(prefix, front), prefix, front, Last(rows));
      assert rows == front + [Last(rows)];
    }
  }

  function Last(s: seq<Str>): Str
    requires s != []
  {
    s[|s| - 1]
  }

  lemma SortedAppend(s: seq<Str>, x: Str)
    requires StrictlySorted(s) && s != []
    ensures Less(Last(s), x) ==> StrictlySorted(s + [x])
  {
    forall j | 0 <= j < |s| && Less(Last(s), x) ensures Less(s[j], x) {
      if j < |s| - 1 { LessTransitive(s[j], Last(s), x); }
    }
  }

  /** The rows of SELECT key ... WHERE key LIKE prefix% ORDER BY key, keys being unique. */
  ghost predicate IsSelection(rows: seq<Str>, prefix: Str, stored: set<Str>) {
    StrictlySorted(rows) && forall k :: k in rows <==> k in stored && Like(prefix + [PERCENT], k)
  }

  ghost predicate StoredItem(prefix: Str, stored: set<Str>, x: Str) {
    exists k :: k in stored && prefix <= k && Item(prefix, k) == x
  }

  /** out is exactly the level below the prefix, of the stored keys that start with it, in strictly increasing order. */
  ghost predicate ListsLevel(out: seq<Str>, prefix: Str, stored: set<Str>) {
    StrictlySorted(out) && forall x :: x in out <==> StoredItem(prefix, stored, x)
  }

  lemma SelectedItems(rows: seq<Str>, prefix: Str, stored: set<Str>, x: Str)
    requires forall k :: k in rows <==> k in stored && prefix <= k
    ensures HasItem(prefix, rows, x) <==> StoredItem(prefix, stored, x)
  {
    if i :| 0 <= i < |rows| && Item(prefix, rows[i]) == x {
      var k := rows[i];
      assert k in rows;
    }
    if k :| k in stored && prefix <= k && Item(prefix, k) == x {
      var i :| 0 <= i < |rows| && rows[i] == k;
      assert Item(prefix, rows[i]) == x;
    }
  }

  /** For a prefix without special characters, listing the selected rows lists exactly the level below the prefix. */
  lemma ListingOfStore(rows: seq<Str>, prefix: Str, stored: set<Str>)
    requires Plain(prefix) && IsSelection(rows, prefix, stored)
    ensures ListsLevel(Listed(prefix, rows), prefix, stored)
  {
    forall k ensures k in rows <==> k in stored && prefix <= k {
      PlainLikeIsPrefix(prefix, k);
    }
    forall i | 0 <= i < |rows| ensures prefix <= rows[i] {
      var k := rows[i];
      assert k in rows;
    }
    ListedIsListing(prefix, rows);
    forall x ensures HasItem(prefix, rows, x) <==> StoredItem(prefix, stored, x) {
      SelectedItems(rows, prefix, stored, x);
    }
  }

  // ---- Prefixes with special characters ----

  /** Every pattern is met by a string that is no longer than what stands before its last %. */
  lemma {:induction false} ShortMatch(p: Str) returns (s: Str)
    ensures Like(p + [PERCENT], s) && |s| <= |p|
  {
    var q := p + [PERCENT];
    if p == [] {
      s := [];
      assert q == [PERCENT];
    } else if p == [BACKSLASH] {
      s := [PERCENT];
      assert q[2..] == [] && s[1..] == [];
    } else if p[0] == BACKSLASH {
      var rest := ShortMatch(p[2..]);
      s := [p[1]] + rest;
      assert q[2..] == p[2..] + [PERCENT] && s[1..] == rest;
    } else {
      var rest := ShortMatch(p[1..]);
      s := if p[0] == PERCENT then rest else [p[0]] + rest;
      assert q[1..] == p[1..] + [PERCENT];
      assert p[0] != PERCENT ==> s[1..] == rest;
    }
  }

  const OTHER: byte := 97

  /** A pattern that begins with a special byte is met by a string that does not start with it. */
  lemma SpecialMatch(p: Str) returns (s: Str)
    requires p != [] && !Plain([p[0]])
    ensures Like(p + [PERCENT], s) && !(p <= s)
  {
    var q := p + [PERCENT];
    if p == [BACKSLASH] {
      s := [PERCENT];
      assert q[2..] == [] && s[1..] == [];
    } else if p[0] == BACKSLASH {
      var rest := ShortMatch(p[2..]);
      s := [p[1]] + rest;
      assert q[2..] == p[2..] + [PERCENT] && s[1..] == rest;
    } else {
      var rest := ShortMatch(p[1..]);
      s := [OTHER] + rest;
      assert q[1..] == p[1..] + [PERCENT] && s[1..] == rest;
      assert p[0] == PERCENT ==> Like(q, rest);
    }
  }

  /** So is every pattern with a special byte somewhere. */
  lemma {:induction false} StrayMatch(prefix: Str) returns (key: Str)
    requires !Plain(prefix)
    ensures Like(prefix + [PERCENT], key) && !(prefix <= key)
  {
    if !Plain([prefix[0]]) {
      key := SpecialMatch(prefix);
    } else {
      assert prefix == [prefix[0]] + prefix[1..];
      var rest := StrayMatch(prefix[1..]);
      key := [prefix[0]] + rest;
      assert (prefix + [PERCENT])[1..] == prefix[1..] + [PERCENT] && key[1..] == rest;
    }
  }

  /** A store with one key that does not start with the prefix is listed all the same. */
  lemma StrayKeyIsListed(prefix: Str, key: Str)
    requires Like(prefix + [PERCENT], key) && !(prefix <= key)
    ensures IsSelection([key], prefix, {key})
    ensures Listed(prefix, [key]) == [Item(prefix, key)] && !ListsLevel(Listed(prefix, [key]), prefix, {key})
  {
    assert [key][..0] == [];
    var x := Item(prefix, key);
    assert x in Listed(prefix, [key]);
    assert !StoredItem(prefix, {key}, x);
  }

  /** The listing is exact for every store if the prefix has no special characters, and for no other prefix. */
  lemma ListingIsExactIff(prefix: Str)
    ensures Plain(prefix) <==> forall rows, stored :: IsSelection(rows, prefix, stored) ==>
              ListsLevel(Listed(prefix, rows), prefix, stored)
  {
    if Plain(prefix) {
      forall rows, stored | IsSelection(rows, prefix, stored)
        ensures ListsLevel(Listed(prefix, rows), prefix, stored)
      {
        ListingOfStore(rows, prefix, stored);
      }
    } else {
      var key := StrayMatch(prefix);
      StrayKeyIsListed(prefix, key);
    }
  }

  const A_UNDERSCORE: Str := [97, UNDERSCORE]
  const AB_SLASH_C: Str := [97, 98, SLASH, 99]

  /** "a_" selects "ab/c", which is listed under the directory "a_b/", though no key starts with "a_". */
  lemma UnderscoreListsPhantom()
    ensures IsSelection([AB_SLASH_C], A_UNDERSCORE, {AB_SLASH_C})
    ensures Listed(A_UNDERSCORE, [AB_SLASH_C]) == [A_UNDERSCORE + [97, 98, SLASH]]
    ensures !ListsLevel(Listed(A_UNDERSCORE, [AB_SLASH_C]), A_UNDERSCORE, {AB_SLASH_C})
  {
    var p, s := A_UNDERSCORE + [PERCENT], AB_SLASH_C;
    assert p[1..] == [UNDERSCORE, PERCENT] && p[1..][1..] == [PERCENT];
    assert s[1..] == [98, SLASH, 99] && s[1..][1..] == [SLASH, 99];
    PercentMatchesAll([SLASH, 99]);
    assert Like([UNDERSCORE, PERCENT], [98, SLASH, 99]);
    assert s[1] != A_UNDERSCORE[1];
    StrayKeyIsListed(A_UNDERSCORE, s);
    assert s[2] == SLASH && SLASH !in s[..2];
    assert IndexOf(s, SLASH) == 2;
    assert s[..3] == [97, 98, SLASH];
  }
}
