/** Arithmetic facts about the number 9: its divisor count and
    refactorability, minimality among the small odd numbers, the digital
    root of its multiples, and the linear equation whose root is 10. */
module NineProperties {

  datatype Option<T> = None | Some(value: T)

  // ----------------------------------------------------------------- divisors

  /** The positive divisors of `n` that are at most `k`. */
  ghost function DivisorSet(n: nat, k: nat): set<nat>
  {
    set d: nat | 1 <= d <= k && n % d == 0
  }

  /** The divisors of `n` up to `k` in increasing order: exactly the members
      of `DivisorSet(n, k)`, each once. */
  function DivisorsUpTo(n: nat, k: nat): (ds: seq<nat>)
    requires n >= 1
    ensures forall i :: 0 <= i < |ds| ==> 1 <= ds[i] <= k && n % ds[i] == 0
    ensures forall d :: 1 <= d <= k && n % d == 0 ==> d in ds
    ensures forall i, j :: 0 <= i < j < |ds| ==> ds[i] < ds[j]
    ensures |ds| == |DivisorSet(n, k)|
    decreases k
  {
    if k == 0 then
      assert DivisorSet(n, 0) == {};
      []
    else
      var prev := DivisorsUpTo(n, k - 1);
      if n % k == 0 then
        assert DivisorSet(n, k) == DivisorSet(n, k - 1) + {k};
        prev + [k]
      else
        assert DivisorSet(n, k) == DivisorSet(n, k - 1);
        prev
  }

  /** `sp.divisors(n)`: the sorted list of positive divisors of `n`. */
  function Divisors(n: nat): (ds: seq<nat>)
    requires n >= 1
    ensures forall d :: d in ds <==> 1 <= d <= n && n % d == 0
    ensures forall i, j :: 0 <= i < j < |ds| ==> ds[i] < ds[j]
  {
    DivisorsUpTo(n, n)
  }

  /** `tau(n)`: the number of positive divisors of `n`; at least 1, since 1
      divides every `n`. */
  function Tau(n: nat): (t: nat)
    requires n >= 1
    ensures t == |DivisorSet(n, n)|
    ensures t >= 1
  {
    var ds := Divisors(n);
    assert 1 in ds;
    |ds|
  }

  lemma TauValues()
    ensures Tau(3) == 2 && Tau(5) == 2 && Tau(7) == 2
    ensures Tau(9) == 3
  {
    assert Divisors(3) == [1, 3];
    assert Divisors(5) == [1, 5];
    assert Divisors(7) == [1, 7];
    assert Divisors(9) == [1, 3, 9];
  }

  // ------------------------------------------------------------ refactorable

  /** `n % tau(n) == 0`: `n` is divisible by its number of divisors. */
  predicate IsRefactorable(n: nat)
    requires n >= 1
  {
    n % Tau(n) == 0
  }

  const ODD_NUMBERS: seq<nat> := [3, 5, 7, 9]

  /** The refactorability check of every listed number, in order. */
  function RefactorableChecks(ms: seq<nat>): (checks: seq<bool>)
    requires forall i :: 0 <= i < |ms| ==> ms[i] >= 1
    ensures |checks| == |ms|
    ensures forall i :: 0 <= i < |ms| ==> 1 in DivisorSet(ms[i], ms[i])
    ensures forall i :: 0 <= i < |ms| ==>
      (checks[i] <==> ms[i] % |DivisorSet(ms[i], ms[i])| == 0)
  {
    seq(|ms|, i requires 0 <= i < |ms| => IsRefactorable(ms[i]))
  }

  /** 9 is refactorable, and among 3, 5, 7, 9 it is the only one. */
  lemma OnlyNineRefactorable()
    ensures IsRefactorable(9)
    ensures RefactorableChecks(ODD_NUMBERS) == [false, false, false, true]
  {
    TauValues();
  }

  // ------------------------------------------------------ smallest composite

  /** `sp.isprime(n)`. */
  predicate IsPrime(n: int)
  {
    n >= 2 && forall d :: 2 <= d < n ==> n % d != 0
  }

  /** `[m for m in ms if not sp.isprime(m)]`: the non-primes of `ms` in their
      original order. */
  function Composites(ms: seq<nat>): (cs: seq<nat>)
    ensures forall i :: 0 <= i < |cs| ==> cs[i] in ms && !IsPrime(cs[i])
    ensures forall m :: m in ms && !IsPrime(m) ==> m in cs
    ensures |cs| <= |ms|
    ensures forall m :: multiset(cs)[m] == if IsPrime(m) then 0 else multiset(ms)[m]
    decreases |ms|
  {
    if ms == [] then []
    else
      var n := |ms| - 1;
      assert ms == ms[..n] + [ms[n]];
      Composites(ms[..n]) + (if IsPrime(ms[n]) then [] else [ms[n]])
  }

  /** `min(xs) if xs else None`. */
  function Minimum(xs: seq<nat>): (r: Option<nat>)
    ensures r.None? <==> xs == []
    ensures r.Some? ==> r.value in xs && forall x :: x in xs ==> r.value <= x
    decreases |xs|
  {
    if xs == [] then None
    else
      var n := |xs| - 1;
      assert xs == xs[..n] + [xs[n]];
      match Minimum(xs[..n])
      case None => Some(xs[n])
      case Some(m) => Some(if xs[n] < m then xs[n] else m)
  }

  /** 3, 5 and 7 are prime and 9 is not, so 9 is the smallest odd composite
      of the list. */
  lemma SmallestOddComposite()
    ensures Composites(ODD_NUMBERS) == [9]
    ensures Minimum(Composites(ODD_NUMBERS)) == Some(9)
  {
    assert IsPrime(3) && IsPrime(5);
    assert IsPrime(7) by {
      forall d | 2 <= d < 7 ensures 7 % d != 0 {
      }
    }
    assert 9 % 3 == 0;
    assert !IsPrime(9);
    assert Composites([3]) == [] by { assert [3][..0] == []; }
    assert Composites([3, 5]) == [] by { assert [3, 5][..1] == [3]; }
    assert Composites([3, 5, 7]) == [] by { assert [3, 5, 7][..2] == [3, 5]; }
    assert ODD_NUMBERS[..3] == [3, 5, 7];
  }

  // ------------------------------------------------------------ digital root

  /** The sum of the decimal digits of `m`, as `sum(int(d) for d in str(m))`
      computes it for a non-negative `m`. */
  function DigitSum(m: nat): (s: nat)
    decreases m
  {
    if m < 10 then m else DigitSum(m / 10) + m % 10
  }

  /** Casting out nines: the digit sum is congruent to `m` modulo 9. */
  lemma {:induction false} DigitSumMod9(m: nat)
    ensures DigitSum(m) % 9 == m % 9
    decreases m
  {
    if m >= 10 {
      var q, r := m / 10, m % 10;
      DigitSumMod9(q);
      assert m == 9 * q + (q + r);
      ModAddMultiple(q + r, q);
      ModAddCongruent(DigitSum(q), q, r);
    }
  }

  lemma ModAddMultiple(x: nat, k: nat)
    ensures (9 * k + x) % 9 == x % 9
  {
    var a := x / 9;
    assert x == 9 * a + x % 9;
    assert 9 * k + x == 9 * (k + a) + x % 9;
  }

  lemma ModAddCongruent(a: nat, b: nat, r: nat)
    requires a % 9 == b % 9
    ensures (a + r) % 9 == (b + r) % 9
  {
    var qa, qb := a / 9, b / 9;
    assert a == 9 * qa + a % 9 && b == 9 * qb + b % 9;
    ModAddMultiple(a % 9 + r, qa);
    ModAddMultiple(b % 9 + r, qb);
    assert a + r == 9 * qa + (a % 9 + r);
    assert b + r == 9 * qb + (b % 9 + r);
  }

  /** `digital_root(m)`. A negative `m` has a `-` in `str(m)`, on which
      `int(d)` raises `ValueError`; that case is `None`. */
  function DigitalRoot(m: int): (r: Option<nat>)
    ensures m < 0 <==> r.None?
    ensures r.Some? ==> 1 <= r.value <= 9
    ensures r.Some? ==> r.value % 9 == m % 9
  {
    if m < 0 then None
    else
      DigitSumMod9(m);
      var dr := DigitSum(m) % 9;
      Some(if dr == 0 then 9 else dr)
  }

  /** Every multiple of 9 has digital root 9. */
  lemma MultipleOfNineRoot(k: nat)
    ensures DigitalRoot(9 * k) == Some(9)
  {
  }

  lemma DigitalRootsOfMultiples()
    ensures forall k :: 1 <= k < 5 ==> DigitalRoot(9 * k) == Some(9)
  {
    forall k | 1 <= k < 5
      ensures DigitalRoot(9 * k) == Some(9)
    {
      MultipleOfNineRoot(k);
    }
  }

  /** The iterated digit sum the docstring describes: sum the digits until a
      single digit remains. */
  function IteratedDigitSum(m: nat): (r: nat)
    ensures r < 10
    decreases m
  {
    if m < 10 then m
    else
      DigitSumSmaller(m);
      IteratedDigitSum(DigitSum(m))
  }

  lemma {:induction false} DigitSumSmaller(m: nat)
    requires m >= 10
    ensures DigitSum(m) < m
    decreases m
  {
    if m / 10 >= 10 {
      DigitSumSmaller(m / 10);
    }
  }

  /** The single digit-sum pass with the 0-to-9 adjustment agrees with the
      iterated digit sum for every positive `m`. */
  lemma {:induction false} DigitalRootIsIterated(m: nat)
    requires m >= 1
    ensures DigitalRoot(m) == Some(IteratedDigitSum(m))
    decreases m
  {
    if m >= 10 {
      DigitSumSmaller(m);
      DigitSumMod9(m);
      DigitSumPositive(m);
      DigitalRootIsIterated(DigitSum(m));
    }
  }

  lemma {:induction false} DigitSumPositive(m: nat)
    requires m >= 1
    ensures DigitSum(m) >= 1
    decreases m
  {
    if m >= 10 && m % 10 == 0 {
      DigitSumPositive(m / 10);
    }
  }

  // --------------------------------------------------------- linear equation

  /** A rational number `num / den` with a positive denominator. */
  datatype Rat = Rat(num: int, den: int)

  predicate ValidRat(x: Rat)
  {
    x.den > 0
  }

  predicate SameRat(x: Rat, y: Rat)
  {
    x.num * y.den == y.num * x.den
  }

  /** `x` solves `(p / q) * D + c = 0`, with both sides multiplied by
      `q * x.den > 0`. */
  predicate Solves(p: int, q: int, c: int, x: Rat)
  {
    p * x.num + c * q * x.den == 0
  }

  /** `sp.solve(Eq((p / q) * D + c, 0), D)[0]`: the unique root when
      `p != 0`; otherwise the equation has no unique root. */
  function SolveLinear(p: int, q: int, c: int): (r: Option<Rat>)
    requires q > 0
    ensures r.Some? <==> p != 0
    ensures r.Some? ==> ValidRat(r.value) && Solves(p, q, c, r.value)
  {
    if p == 0 then None
    else if p > 0 then Some(Rat(-c * q, p))
    else Some(Rat(c * q, -p))
  }

  /** Every rational root of the equation equals the one returned. */
  lemma SolveLinearUnique(p: int, q: int, c: int, y: Rat)
    requires q > 0 && p != 0 && ValidRat(y) && Solves(p, q, c, y)
    ensures SameRat(y, SolveLinear(p, q, c).value)
  {
    var x := SolveLinear(p, q, c).value;
    assert p * y.num == -c * q * y.den;
    if p > 0 {
      assert y.num * x.den == y.num * p;
      assert x.num * y.den == -c * q * y.den;
    } else {
      assert y.num * x.den == -(y.num * p);
      assert x.num * y.den == c * q * y.den;
    }
  }

  /** The critical dimension: `(3/2) * D - 15 = 0` gives `D = 10`, and one
      temporal dimension less leaves 9 spatial ones. */
  lemma CriticalDimension()
    ensures SolveLinear(3, 2, -15).Some?
    ensures SameRat(SolveLinear(3, 2, -15).value, Rat(10, 1))
    ensures var d := SolveLinear(3, 2, -15).value;
      SameRat(Rat(d.num - d.den, d.den), Rat(9, 1))
  {
  }
}
