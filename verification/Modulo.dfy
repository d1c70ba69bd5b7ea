// The modulo guessed for a hash file: counting its records in the sorted index and
// the next prime above a seventh of them.
module Modulo {
  import opened Text

  // ---- primes ------------------------------------------------------------

  ghost predicate Divides(d: nat, n: nat) { exists k: nat :: k * d == n }

  ghost predicate Prime(n: nat) { n >= 2 && forall d: nat :: 2 <= d < n ==> !Divides(d, n) }

  /** Trial division as the inner loop does it. */
  predicate Splits(n: nat, d: nat)
    requires d > 0
  {
    n % d == 0
  }

  lemma SplitsDivides(n: nat, d: nat)
    requires d > 0
    ensures Splits(n, d) <==> Divides(d, n)
  {
    if n % d == 0 {
      assert (n / d) * d == n;
    }
    if Divides(d, n) {
      var k: nat :| k * d == n;
      Multiple(k, d);
    }
  }

  lemma Multiple(k: nat, d: nat)
    requires d > 0
    ensures (k * d) % d == 0
  {
    var q, r := (k * d) / d, (k * d) % d;
    assert (k - q) * d == r;
    if k > q {
      Products(k - q, d, 1, d);
    } else if k < q {
      Products(q - k, d, 1, d);
    }
  }

  lemma Products(a: nat, b: nat, c: nat, d: nat)
    requires a >= c && b >= d
    ensures a * b >= c * d
  {
    assert a * b >= c * b >= c * d;
  }

  /** A number with no divisor up to its root has none at all. */
  lemma NoSmallDivisor(n: nat, d: nat)
    requires n >= 2 && d * d > n && d >= 2
    requires forall c: nat :: 2 <= c < d ==> !Divides(c, n)
    ensures Prime(n)
  {
    forall e: nat | 2 <= e < n ensures !Divides(e, n) {
      if Divides(e, n) && e >= d {
        var k: nat :| k * e == n;
        Cofactor(n, d, e, k);
      }
    }
  }

  lemma Cofactor(n: nat, d: nat, e: nat, k: nat)
    requires k * e == n && d <= e < n && d * d > n
    ensures 2 <= k < d && Divides(k, n)
  {
    assert e * k == n;
    if k >= d {
      Products(k, e, d, d);
    }
  }

  function Factorial(n: nat): (r: nat)
    ensures r >= 1
  {
    if n == 0 then 1 else n * Factorial(n - 1)
  }

  lemma {:induction false} FactorialDivides(n: nat, d: nat)
    requires 1 <= d <= n
    ensures Divides(d, Factorial(n))
  {
    if d == n {
      assert Factorial(n) == Factorial(n - 1) * n;
    } else {
      FactorialDivides(n - 1, d);
      var k: nat :| k * d == Factorial(n - 1);
      assert (n * k) * d == n * (k * d);
    }
  }

  lemma DividesTransitive(p: nat, d: nat, n: nat)
    requires Divides(p, d) && Divides(d, n)
    ensures Divides(p, n)
  {
    var i: nat :| i * p == d;
    var j: nat :| j * d == n;
    assert (j * i) * p == j * (i * p);
  }

  /** Every number from 2 has a prime divisor. */
  lemma {:induction false} PrimeDivisor(n: nat) returns (p: nat)
    requires n >= 2
    ensures Prime(p) && Divides(p, n) && p <= n
    decreases n
  {
    if Prime(n) {
      p := n;
      assert 1 * n == n;
    } else {
      var d: nat :| 2 <= d < n && Divides(d, n);
      p := PrimeDivisor(d);
      DividesTransitive(p, d, n);
    }
  }

  /** Consecutive numbers share no divisor from 2. */
  lemma Consecutive(p: nat, f: nat)
    requires p >= 2 && Divides(p, f)
    ensures !Divides(p, f + 1)
  {
    if Divides(p, f + 1) {
      var i: nat :| i * p == f;
      var j: nat :| j * p == f + 1;
      assert (j - i) * p == 1;
      if j > i {
        Products(j - i, p, 1, 2);
      }
    }
  }

  /** There is a prime at or above any number. */
  lemma PrimeAbove(n: nat) returns (p: nat)
    ensures Prime(p) && p >= n
  {
    var f := Factorial(n);
    p := PrimeDivisor(f + 1);
    if p < n {
      FactorialDivides(n, p);
      Consecutive(p, f);
    }
  }

  function AtLeastTwo(n: int): nat { if n < 2 then 2 else n }

  /** The least prime at or above max(n, 2). */
  ghost predicate NextPrime(n: int, p: nat)
  {
    Prime(p) && p >= AtLeastTwo(n) && forall q: nat :: AtLeastTwo(n) <= q < p ==> !Prime(q)
  }

  method IsPrime(n: nat) returns (prime: bool)
    requires n >= 2
    ensures prime <==> Prime(n)
  {
    var d := 2;
    while d * d <= n
      invariant 2 <= d <= n
      invariant forall c: nat :: 2 <= c < d ==> !Divides(c, n)
      decreases n - d
    {
      SplitsDivides(n, d);
      assert d < n by { assert d * d >= 2 * d; }
      if n % d == 0 {
        return false;
      }
      d := d + 1;
    }
    NoSmallDivisor(n, d);
    return true;
  }

  /** next_prime: it ends, and ends at the least prime. */
  method FindNextPrime(n: int) returns (p: nat)
    ensures NextPrime(n, p)
  {
    if n < 2 {
      TwoIsPrime();
      return 2;
    }
    ghost var bound := PrimeAbove(n);
    p := n;
    while true
      invariant n <= p <= bound
      invariant forall q: nat :: n <= q < p ==> !Prime(q)
      decreases bound - p
    {
      var prime := IsPrime(p);
      if prime {
        return;
      }
      p := p + 1;
    }
  }

  lemma TwoIsPrime()
    ensures Prime(2)
  {}

  // ---- the index ---------------------------------------------------------

  /** The index: paths in strcmp order. */
  predicate Sorted(paths: seq<string>) { forall i, j :: 0 <= i < j < |paths| ==> Before(paths[i], paths[j]) }

  /** How many paths are under a prefix. */
  function Under(paths: seq<string>, pre: string): nat
  {
    if paths == [] then 0 else (if HasPrefix(paths[0], pre) then 1 else 0) + Under(paths[1..], pre)
  }

  /** Between two strings with a prefix there is nothing without it. */
  lemma {:induction false} PrefixConvex(a: string, b: string, c: string, pre: string)
    requires Before(a, b) && Before(b, c) && HasPrefix(a, pre) && HasPrefix(c, pre)
    ensures HasPrefix(b, pre)
  {
    if pre == "" {
    } else {
      assert a[0] == pre[0] == a[..|pre|][0] && c[0] == c[..|pre|][0];
      assert b != "" && b[0] == pre[0];
      assert a[1..][..|pre| - 1] == a[..|pre|][1..] && c[1..][..|pre| - 1] == c[..|pre|][1..];
      PrefixConvex(a[1..], b[1..], c[1..], pre[1..]);
      assert b[..|pre|] == [b[0]] + b[1..][..|pre| - 1];
    }
  }

  lemma {:induction false} UnderNone(paths: seq<string>, pre: string)
    requires forall i :: 0 <= i < |paths| ==> !HasPrefix(paths[i], pre)
    ensures Under(paths, pre) == 0
  {
    if paths == [] {
    } else {
      UnderNone(paths[1..], pre);
    }
  }

  lemma {:induction false} UnderConcat(a: seq<string>, b: seq<string>, pre: string)
    ensures Under(a + b, pre) == Under(a, pre) + Under(b, pre)
  {
    if a == [] {
      assert a + b == b;
    } else {
      assert (a + b)[1..] == a[1..] + b;
      UnderConcat(a[1..], b, pre);
    }
  }

  lemma {:induction false} UnderAll(paths: seq<string>, pre: string)
    requires forall i :: 0 <= i < |paths| ==> HasPrefix(paths[i], pre)
    ensures Under(paths, pre) == |paths|
  {
    if paths == [] {
    } else {
      UnderAll(paths[1..], pre);
    }
  }

  /** git_index_find_prefix: the first path under the prefix, |paths| when none. */
  method FindPrefix(paths: seq<string>, pre: string) returns (pos: nat)
    ensures pos <= |paths| && (pos < |paths| ==> HasPrefix(paths[pos], pre))
    ensures forall i :: 0 <= i < pos ==> !HasPrefix(paths[i], pre)
  {
    pos := 0;
    while pos < |paths| && !HasPrefix(paths[pos], pre)
      invariant pos <= |paths| && forall i :: 0 <= i < pos ==> !HasPrefix(paths[i], pre)
    {
      pos := pos + 1;
    }
  }

  /** The counting loop, which stops at the first path past the prefix, counts them all. */
  method CountUnder(paths: seq<string>, pre: string) returns (n: nat)
    requires Sorted(paths)
    ensures n == Under(paths, pre)
  {
    var pos := FindPrefix(paths, pre);
    n := 0;
    var i := pos;
    while i < |paths|
      invariant pos <= i <= |paths| && n == i - pos
      invariant forall k :: pos <= k < i ==> HasPrefix(paths[k], pre)
    {
      if !HasPrefix(paths[i], pre) {
        break;
      }
      n := n + 1;
      i := i + 1;
    }
    forall k | i <= k < |paths| ensures !HasPrefix(paths[k], pre) {
      if HasPrefix(paths[k], pre) && k > i {
        assert Before(paths[pos], paths[i]) || pos == i;
        if pos < i {
          PrefixConvex(paths[pos], paths[i], paths[k], pre);
        }
      }
    }
    ghost var a, b, c := paths[..pos], paths[pos..i], paths[i..];
    assert paths == a + b + c;
    UnderConcat(a + b, c, pre);
    UnderConcat(a, b, pre);
    UnderNone(a, pre);
    UnderAll(b, pre);
    UnderNone(c, pre);
  }

  const RECS_PER_GROUP := 7

  /** guess_modulo: 0 for a file with no records; otherwise the least prime that leaves
      no group more than seven records and six over. */
  method GuessModulo(paths: seq<string>, base: string) returns (m: nat)
    requires Sorted(paths)
    ensures var n := Under(paths, base + "/");
      && (m == 0 <==> n == 0)
      && (n > 0 ==> NextPrime(n / RECS_PER_GROUP, m) && n <= 7 * m + 6)
  {
    var n := CountUnder(paths, base + "/");
    if n == 0 {
      return 0;
    }
    m := FindNextPrime(n / RECS_PER_GROUP);
  }

  /** The least prime is determined, so the guess is a function of the count. */
  lemma NextPrimeUnique(n: int, p: nat, q: nat)
    requires NextPrime(n, p) && NextPrime(n, q)
    ensures p == q
  {}

  /** What prime means: no product but the trivial ones. */
  lemma PrimeIs(n: nat)
    ensures Prime(n) <==> n >= 2 && forall a: nat, b: nat :: a * b == n ==> a == 1 || b == 1
  {
    if Prime(n) {
      forall a: nat, b: nat | a * b == n ensures a == 1 || b == 1 {
        OnlyTrivial(n, a, b);
      }
    } else if n >= 2 {
      var d: nat :| 2 <= d < n && Divides(d, n);
      var k := Quotient(d, n);
      assert k * d == n;
      assert k != 1 && d != 1;
    }
  }

  lemma Quotient(d: nat, n: nat) returns (k: nat)
    requires d >= 2 && Divides(d, n)
    ensures k * d == n
  {
    k :| k * d == n;
  }

  lemma OnlyTrivial(n: nat, a: nat, b: nat)
    requires Prime(n) && a * b == n
    ensures a == 1 || b == 1
  {
    assert a == 0 || b == 0 ==> a * b == 0;
    assert Divides(b, n);
    if a >= 2 {
      Products(a, b, 2, b);
    }
  }

  /** A prime is the next prime of itself, and of everything down to the one before it. */
  lemma NextOf(n: int, p: nat)
    ensures Prime(p) ==> NextPrime(p, p)
    ensures n <= 2 ==> NextPrime(n, 2)
    ensures NextPrime(n + 1, p) && n >= 2 && !Prime(n) ==> NextPrime(n, p)
  {
    TwoIsPrime();
  }
}
