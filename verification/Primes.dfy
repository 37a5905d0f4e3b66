/**
 The number theory behind the size of a hash table: primes, trial division, primes above any number,
 and steps of a fixed size around a table of prime size, which visit every slot.
 */
module Primes {
  import opened Sets

  ghost predicate Prime(n: int) {
    n >= 2 && forall d :: 2 <= d < n ==> n % d != 0
  }

  // ---------------------------------------------------------------- division

  lemma MultipleHasNoRemainder(x: int, m: int, p: int)
    requires p > 0 && x == m * p
    ensures x % p == 0
  {
    var q, r := x / p, x % p;
    assert (m - q) * p == r;
    assert m - q >= 1 ==> (m - q) * p >= p;
    assert m - q <= -1 ==> (m - q) * p <= -p;
  }

  lemma Quotient(x: int, p: int) returns (q: int)
    requires p > 0 && x % p == 0
    ensures x == q * p
  {
    q := x / p;
  }

  lemma CoDivisorIsSmall(n: nat, d: nat, q: int, i: nat)
    requires 2 <= i <= d < n && n == q * d && i * i > n
    ensures 2 <= q < i
  {
    assert q <= 1 ==> q * d <= d;
    assert q >= i ==> q * d >= i * d >= i * i;
  }

  /** A number without divisors up to its square root is prime. */
  lemma NoDivisorAbove(n: nat, i: nat)
    requires n >= 2 && i * i > n && forall d :: 2 <= d < i ==> n % d != 0
    ensures i >= n || Prime(n)
  {
    if i < n {
      forall d | 2 <= d < n ensures n % d != 0 {
        if n % d == 0 && d >= i {
          var q := Quotient(n, d);
          CoDivisorIsSmall(n, d, q, i);
          MultipleHasNoRemainder(n, d, q);
          assert false;
        }
      }
    }
  }

  lemma OddHasOddDivisors(n: nat, d: nat)
    requires n % 2 == 1 && d > 0 && d % 2 == 0
    ensures n % d != 0
  {
    if n % d == 0 {
      var q := Quotient(n, d);
      var h := Quotient(d, 2);
      assert n == (q * h) * 2;
      MultipleHasNoRemainder(n, q * h, 2);
    }
  }

  /** The test of the source: exact except that it takes 1 for a prime and 2 for none. */
  method IsPrime(n: nat) returns (r: bool)
    ensures n != 1 && n != 2 ==> (r <==> Prime(n))
    ensures n == 1 ==> r
    ensures n == 2 ==> !r
  {
    if n % 2 == 0 {
      assert n > 2 ==> n % 2 == 0 && 2 <= 2 < n;
      return false;
    }
    var i := 3;
    while i * i <= n
      invariant i % 2 == 1 && 3 <= i <= n + 3
      invariant forall d :: 2 <= d < i ==> n % d != 0 || d == n
      decreases n + 3 - i
    {
      assert i < n by {
        assert i * i >= 3 * i;
      }
      if n % i == 0 {
        return false;
      }
      OddHasOddDivisors(n, i + 1);
      i := i + 2;
    }
    if n >= 3 {
      if i < n {
        NoDivisorAbove(n, i);
      }
    }
    return true;
  }

  // ---------------------------------------------------------------- primes without end

  function Factorial(n: nat): (f: nat)
    ensures f >= 1
  {
    if n == 0 then 1 else n * Factorial(n - 1)
  }

  lemma {:induction false} FactorialHasAll(n: nat, d: nat) returns (q: int)
    requires 1 <= d <= n
    ensures Factorial(n) == q * d
  {
    if d == n {
      q := Factorial(n - 1);
    } else {
      var r := FactorialHasAll(n - 1, d);
      q := n * r;
      assert Factorial(n) == n * (r * d) == q * d;
    }
  }

  /** The smallest divisor is prime. */
  lemma {:induction false} PrimeDivisor(n: nat, d: nat) returns (p: nat)
    requires 2 <= d <= n && forall e :: 2 <= e < d ==> n % e != 0
    ensures Prime(p) && n % p == 0
    decreases n - d
  {
    if n % d == 0 {
      p := d;
      var m := Quotient(n, d);
      forall e | 2 <= e < d ensures d % e != 0 {
        if d % e == 0 {
          var k := Quotient(d, e);
          assert n == (m * k) * e;
          MultipleHasNoRemainder(n, m * k, e);
        }
      }
    } else {
      p := PrimeDivisor(n, d + 1);
    }
  }

  /** There is a prime above any number. */
  lemma PrimeAbove(n: nat) returns (p: nat)
    ensures p > n && Prime(p)
  {
    var f := Factorial(n) + 1;
    p := PrimeDivisor(f, 2);
    if p <= n {
      var q := FactorialHasAll(n, p);
      var m := Quotient(f, p);
      assert (m - q) * p == 1;
      MultipleHasNoRemainder(1, m - q, p);
      assert false;
    }
  }

  lemma DefaultSizeIsPrime()
    ensures Prime(2003)
  {
    assert forall d :: 2 <= d < 45 ==> 2003 % d != 0;
    NoDivisorAbove(2003, 45);
  }

  // ---------------------------------------------------------------- steps around a table

  /** One step back, as the source takes it. */
  function StepBack(index: int, step: int, size: int): int {
    if index - step < 0 then index - step + size else index - step
  }

  /** A step of at most 8 stays inside the table exactly if the table has at least 8 slots. */
  lemma StepsStayInside(size: nat)
    requires size > 0
    ensures (forall index, step :: 0 <= index < size && 1 <= step <= 8 ==> 0 <= StepBack(index, step, size) < size) <==> size >= 8
  {
    if size < 8 {
      assert StepBack(0, 8, size) < 0;
    }
  }

  /** Where the walk stands after `j` steps. */
  function Place(start: nat, step: nat, size: nat, j: nat): (r: nat)
    requires start < size && 1 <= step <= size
    ensures r < size
  {
    if j == 0 then start else StepBack(Place(start, step, size, j - 1), step, size)
  }

  lemma {:induction false} PlaceForm(start: nat, step: nat, size: nat, j: nat) returns (laps: int)
    requires start < size && 1 <= step <= size
    ensures Place(start, step, size, j) == start - j * step + laps * size
  {
    if j == 0 {
      laps := 0;
    } else {
      laps := PlaceForm(start, step, size, j - 1);
      assert j * step == (j - 1) * step + step && (laps + 1) * size == laps * size + size;
      if Place(start, step, size, j - 1) < step {
        laps := laps + 1;
      }
    }
  }

  /** Less than a prime number of equal steps, each shorter than the prime, do not add up to a multiple of it. */
  lemma {:induction false} NoSmallMultiple(p: nat, step: nat, k: nat, m: int)
    requires Prime(p) && 0 < step < p && 0 < k < p
    ensures k * step != m * p
    decreases k
  {
    if k * step == m * p {
      if k == 1 {
        MultipleHasNoRemainder(step, m, p);
      } else {
        var q, r := p / k, p % k;
        assert p == q * k + r && 0 < r < k;
        assert r * step == (step - q * m) * p by {
          assert r * step == p * step - q * (k * step);
        }
        NoSmallMultiple(p, step, r, step - q * m);
      }
      assert false;
    }
  }

  lemma PlacesDiffer(start: nat, step: nat, size: nat, i: nat, j: nat)
    requires Prime(size) && start < size && 1 <= step < size && i < j < size
    ensures Place(start, step, size, i) != Place(start, step, size, j)
  {
    var a := PlaceForm(start, step, size, i);
    var b := PlaceForm(start, step, size, j);
    NoSmallMultiple(size, step, j - i, b - a);
    assert (j - i) * step == j * step - i * step && (b - a) * size == b * size - a * size;
  }

  ghost function Range(n: nat): (s: set<nat>)
    ensures |s| == n && forall i :: i in s <==> 0 <= i < n
  {
    if n == 0 then {} else Range(n - 1) + {n - 1}
  }

  ghost function Visited(start: nat, step: nat, size: nat, n: nat): set<nat>
    requires start < size && 1 <= step <= size
  {
    if n == 0 then {} else Visited(start, step, size, n - 1) + {Place(start, step, size, n - 1)}
  }

  lemma {:induction false} VisitedWhen(start: nat, step: nat, size: nat, n: nat, slot: nat) returns (j: nat)
    requires start < size && 1 <= step <= size && slot in Visited(start, step, size, n)
    ensures j < n && Place(start, step, size, j) == slot
  {
    hide Place;
    if slot == Place(start, step, size, n - 1) {
      j := n - 1;
    } else {
      j := VisitedWhen(start, step, size, n - 1, slot);
    }
  }

  lemma {:induction false} VisitedMany(start: nat, step: nat, size: nat, n: nat)
    requires Prime(size) && start < size && 1 <= step < size && n <= size
    ensures |Visited(start, step, size, n)| == n && Visited(start, step, size, n) <= Range(size)
  {
    hide Prime, Place;
    if n > 0 {
      VisitedMany(start, step, size, n - 1);
      var last := Place(start, step, size, n - 1);
      if last in Visited(start, step, size, n - 1) {
        var j := VisitedWhen(start, step, size, n - 1, last);
        PlacesDiffer(start, step, size, j, n - 1);
        assert false;
      }
    }
  }

  /** In a table of prime size, a full cycle of steps visits every slot. */
  lemma EverySlotIsVisited(start: nat, step: nat, size: nat, slot: nat) returns (j: nat)
    requires Prime(size) && start < size && 1 <= step < size && slot < size
    ensures j < size && Place(start, step, size, j) == slot
  {
    VisitedMany(start, step, size, size);
    SubsetSize(Visited(start, step, size, size), Range(size));
    j := VisitedWhen(start, step, size, size, slot);
  }
}
