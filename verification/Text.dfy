/** Byte strings, as Go has them: their order, decimal printing and splitting. */
module Text {

  newtype byte = x: int | 0 <= x < 0x100

  type Str = seq<byte>

  datatype Option<+T> = None | Some(value: T)

  const SLASH: byte := 47
  const COLON: byte := 58
  const MINUS: byte := 45
  const ZERO: byte := 48

  // ---- The bytewise order on strings ----

  predicate Less(a: Str, b: Str) {
    b != [] && (a == [] || a[0] < b[0] || (a[0] == b[0] && Less(a[1..], b[1..])))
  }

  /** Two different strings part at one position, and that position decides the order. */
  lemma {:induction false} FirstDifference(a: Str, b: Str) returns (k: nat)
    requires a != b
    ensures k <= |a| && k <= |b| && a[..k] == b[..k]
    ensures k == |a| ==> k < |b|
    ensures k < |a| && k < |b| ==> a[k] != b[k]
    ensures Less(a, b) <==> k < |b| && (k == |a| || a[k] < b[k])
    ensures Less(b, a) <==> k < |a| && (k == |b| || b[k] < a[k])
  {
    if a == [] || b == [] || a[0] != b[0] {
      k := 0;
    } else {
      assert a == [a[0]] + a[1..] && b == [b[0]] + b[1..];
      var j := FirstDifference(a[1..], b[1..]);
      k := j + 1;
      assert a[..k] == [a[0]] + a[1..][..j] && b[..k] == [b[0]] + b[1..][..j];
    }
  }

  lemma {:induction false} LessAtDifference(a: Str, b: Str, k: nat)
    requires k < |a| && k < |b| && a[..k] == b[..k] && a[k] != b[k]
    ensures Less(a, b) <==> a[k] < b[k]
  {
    if k == 0 {
    } else {
      assert a[0] == a[..k][0] && b[0] == b[..k][0];
      assert a[1..][..k - 1] == a[..k][1..] && b[1..][..k - 1] == b[..k][1..];
      LessAtDifference(a[1..], b[1..], k - 1);
    }
  }

  lemma {:induction false} PrefixIsLess(a: Str, b: Str)
    requires a <= b && a != b
    ensures Less(a, b)
  {
    if a == [] {
    } else {
      PrefixIsLess(a[1..], b[1..]);
    }
  }

  lemma {:induction false} LessIrreflexive(a: Str)
    ensures !Less(a, a)
  {
    if a == [] {
    } else {
      LessIrreflexive(a[1..]);
    }
  }

  lemma LessTotal(a: Str, b: Str)
    ensures a == b || Less(a, b) || Less(b, a)
    ensures !(Less(a, b) && Less(b, a))
  {
    if a == b {
      LessIrreflexive(a);
    } else {
      var k := FirstDifference(a, b);
    }
  }

  lemma {:induction false} LessTransitive(a: Str, b: Str, c: Str)
    requires Less(a, b) && Less(b, c)
    ensures Less(a, c)
  {
    if a == [] || a[0] < b[0] || b[0] < c[0] {
    } else {
      LessTransitive(a[1..], b[1..], c[1..]);
    }
  }

  // ---- Decimal numbers ----

  predicate IsDigit(b: byte) { 48 <= b <= 57 }

  function PrintNat(n: nat): (s: Str)
    ensures |s| > 0
    ensures forall i :: 0 <= i < |s| ==> IsDigit(s[i])
  {
    if n < 10 then [ZERO + n as byte]
    else PrintNat(n / 10) + [ZERO + (n % 10) as byte]
  }

  function ParseNat(s: Str): Option<nat> {
    if s == [] then None
    else
      var d := s[|s| - 1];
      if !IsDigit(d) then None
      else if |s| == 1 then Some((d - ZERO) as nat)
      else match ParseNat(s[..|s| - 1])
        case None => None
        case Some(hi) => Some(10 * hi + (d - ZERO) as nat)
  }

  lemma {:induction false} ParsePrintNat(n: nat)
    ensures ParseNat(PrintNat(n)) == Some(n)
  {
    if n < 10 {
    } else {
      ParsePrintNat(n / 10);
      assert PrintNat(n)[..|PrintNat(n)| - 1] == PrintNat(n / 10);
    }
  }

  function Pow10(k: nat): nat {
    if k == 0 then 1 else 10 * Pow10(k - 1)
  }

  lemma {:induction false} DivideTwice(n: nat, p: nat)
    requires p > 0
    ensures n / 10 / p == n / (10 * p)
  {
    var q := n / 10 / p;
    assert n / 10 == q * p + n / 10 % p;
    assert n == 10 * (q * p + n / 10 % p) + n % 10;
    assert n == q * (10 * p) + (10 * (n / 10 % p) + n % 10);
    assert 0 <= 10 * (n / 10 % p) + n % 10 < 10 * p;
    Quotient(n, 10 * p, q, 10 * (n / 10 % p) + n % 10);
  }

  lemma Quotient(n: nat, d: nat, q: nat, r: nat)
    requires d > 0 && r < d && n == q * d + r
    ensures n / d == q
  {
    var x := n / d - q;
    assert n == (n / d) * d + n % d;
    assert x * d == r - n % d;
    assert x >= 1 ==> x * d >= d;
    assert x <= -1 ==> x * d + d <= 0;
  }

  lemma {:induction false} Pow10Positive(k: nat)
    ensures Pow10(k) > 0
  {
    if k == 0 {
    } else {
      Pow10Positive(k - 1);
    }
  }

  /** The digits of n in base ten, the last one for the ones, without a leading zero. */
  lemma {:induction false} PrintedDigits(n: nat, k: nat)
    ensures Pow10(k) > 0
    ensures k < |PrintNat(n)| ==> PrintNat(n)[|PrintNat(n)| - 1 - k] as int == 48 + n / Pow10(k) % 10
    ensures k >= |PrintNat(n)| ==> n / Pow10(k) == 0
    ensures |PrintNat(n)| > 1 ==> PrintNat(n)[0] != 48
    decreases n, k
  {
    Pow10Positive(k);
    if n < 10 {
      if k > 0 {
        Pow10Positive(k - 1);
        DivideTwice(n, Pow10(k - 1));
        assert n / 10 == 0;
      }
    } else {
      PrintedDigits(n / 10, 0);
      if k > 0 {
        PrintedDigits(n / 10, k - 1);
        DivideTwice(n, Pow10(k - 1));
      }
      if |PrintNat(n / 10)| == 1 {
        assert n / 10 < 10;
      }
    }
  }

  function PrintInt(n: int): (s: Str)
    ensures |s| > 0
    ensures forall i :: 0 <= i < |s| ==> IsDigit(s[i]) || s[i] == MINUS
  {
    if n < 0 then [MINUS] + PrintNat(-n) else PrintNat(n)
  }

  function ParseInt(s: Str): Option<int> {
    if s != [] && s[0] == MINUS then
      match ParseNat(s[1..])
      case None => None
      case Some(n) => var m: int := n; Some(-m)
    else
      match ParseNat(s)
      case None => None
      case Some(n) => Some(n)
  }

  lemma ParsePrintInt(n: int)
    ensures ParseInt(PrintInt(n)) == Some(n)
  {
    if n < 0 {
      ParsePrintNat(-n);
      assert PrintInt(n)[1..] == PrintNat(-n);
    } else {
      ParsePrintNat(n);
      assert IsDigit(PrintNat(n)[0]);
    }
  }

  // ---- Splitting on a separator ----

  function Split(s: Str, sep: byte): (parts: seq<Str>)
    ensures |parts| > 0
  {
    if s == [] then [[]]
    else if s[0] == sep then [[]] + Split(s[1..], sep)
    else
      var rest := Split(s[1..], sep);
      [[s[0]] + rest[0]] + rest[1..]
  }

  lemma {:induction false} SplitNone(s: Str, sep: byte)
    requires sep !in s
    ensures Split(s, sep) == [s]
  {
    if s == [] {
    } else {
      SplitNone(s[1..], sep);
      assert [s[0]] + s[1..] == s;
    }
  }

  lemma SplitHead(x: byte, a: Str, more: seq<Str>, sep: byte)
    ensures var front := Split(a, sep) + more;
            Split([x] + a, sep) + more == if x == sep then [[]] + front else [[x] + front[0]] + front[1..]
  {
    assert ([x] + a)[1..] == a;
    var s := Split(a, sep);
    assert (s + more)[1..] == s[1..] + more;
  }

  lemma {:induction false} SplitJoin(a: Str, b: Str, sep: byte)
    ensures Split(a + [sep] + b, sep) == Split(a, sep) + Split(b, sep)
  {
    var whole := a + [sep] + b;
    if a == [] {
      assert whole[1..] == b;
    } else {
      assert whole[1..] == a[1..] + [sep] + b;
      SplitJoin(a[1..], b, sep);
      assert a == [a[0]] + a[1..];
      SplitHead(a[0], a[1..], Split(b, sep), sep);
    }
  }

  lemma BeforeIndex(s: Str, b: byte)
    ensures forall k :: 0 <= k < IndexOf(s, b) ==> s[k] != b
  {
    var front := s[..IndexOf(s, b)];
    assert forall k :: 0 <= k < |front| ==> s[k] == front[k] && front[k] in front;
  }

  /** The position of the first occurrence of b, or |s| when there is none. */
  function IndexOf(s: Str, b: byte): (i: nat)
    ensures i <= |s|
    ensures b !in s[..i]
    ensures i < |s| ==> s[i] == b
  {
    if s == [] || s[0] == b then 0
    else
      var i := 1 + IndexOf(s[1..], b);
      assert s[..i] == [s[0]] + s[1..][..i - 1];
      i
  }
}
