/**
 Rounding a string of decimal digits at any place: to the nearest value, and to the even one of two
 that are equally near.
 */
module Rounding {

  predicate IsDigits(s: string) {
    forall i :: 0 <= i < |s| ==> '0' <= s[i] <= '9'
  }

  function Digit(c: char): int {
    c as int - '0' as int
  }

  function Value(s: string): int {
    if s == [] then 0 else Value(s[..|s| - 1]) * 10 + Digit(s[|s| - 1])
  }

  function Pow10(k: nat): (p: nat)
    ensures p >= 1
  {
    if k == 0 then 1 else 10 * Pow10(k - 1)
  }

  // ---------------------------------------------------------------- what rounding means

  /** `q` units is the multiple of `unit` nearest to `v`, the even one if two are equally near. */
  predicate IsNearest(q: int, v: int, unit: int) {
    && -unit <= 2 * (q * unit - v) <= unit
    && (2 * (q * unit - v) == unit || 2 * (q * unit - v) == -unit ==> q % 2 == 0)
  }

  lemma Distributes(q: int, d: int, unit: int)
    ensures (q + d) * unit == q * unit + d * unit
  {
  }

  lemma AtLeastTwice(d: int, unit: int)
    requires unit > 0 && d >= 2
    ensures d * unit >= 2 * unit
  {
  }

  lemma NearestNotAbove(p: int, q: int, v: int, unit: int)
    requires unit > 0 && IsNearest(p, v, unit) && IsNearest(q, v, unit)
    ensures p <= q
  {
    if p > q {
      Distributes(q, p - q, unit);
      if p - q >= 2 {
        AtLeastTwice(p - q, unit);
        assert false;
      }
    }
  }

  lemma NearestIsUnique(p: int, q: int, v: int, unit: int)
    requires unit > 0 && IsNearest(p, v, unit) && IsNearest(q, v, unit)
    ensures p == q
  {
    NearestNotAbove(p, q, v, unit);
    NearestNotAbove(q, p, v, unit);
  }

  /** A cut between `p` and what follows it, which is `d` at the next place and `r` below: when to round up. */
  lemma NearestAtCut(p: int, d: int, low: int, r: int, up: bool)
    requires low >= 1 && 0 <= d <= 9 && 0 <= r < low
    requires up <==> d > 5 || (d == 5 && (r > 0 || p % 2 == 1))
    ensures IsNearest(p + (if up then 1 else 0), p * (10 * low) + (d * low + r), 10 * low)
  {
    var unit := 10 * low;
    assert (p + 1) * unit == p * unit + unit;
    assert d <= 4 ==> d * low <= 4 * low;
    assert d >= 6 ==> d * low >= 6 * low;
  }

  // ---------------------------------------------------------------- values of parts

  lemma OneMorePlace(a: int, p: int, b: int, d: int)
    ensures (a * p + b) * 10 + d == a * (10 * p) + (b * 10 + d)
  {
  }

  lemma {:induction false} ValueSplit(s: string, i: nat)
    requires i <= |s|
    ensures Value(s) == Value(s[..i]) * Pow10(|s| - i) + Value(s[i..])
  {
    if i == |s| {
      assert s[..i] == s;
    } else {
      var n := |s| - 1;
      ValueSplit(s[..n], i);
      assert s[..n][..i] == s[..i] && s[i..][..n - i] == s[..n][i..];
      OneMorePlace(Value(s[..i]), Pow10(n - i), Value(s[..n][i..]), Digit(s[n]));
    }
  }

  lemma {:induction false} ValueBound(s: string)
    requires IsDigits(s)
    ensures 0 <= Value(s) < Pow10(|s|)
    ensures Value(s) == 0 <==> forall i :: 0 <= i < |s| ==> s[i] == '0'
    ensures Value(s) % 2 == if s == [] then 0 else Digit(s[|s| - 1]) % 2
  {
    if s != [] {
      ValueBound(s[..|s| - 1]);
    }
  }

  lemma FirstPlace(s: string)
    requires s != []
    ensures Value(s) == Digit(s[0]) * Pow10(|s| - 1) + Value(s[1..])
  {
    ValueSplit(s, 1);
    assert Value(s[..1]) == Value(s[..1][..0]) * 10 + Digit(s[0]);
  }

  // ---------------------------------------------------------------- adding one

  /** The digit after `c`; what is no digit stays as it is. */
  function NextDigit(c: char): (r: char)
    ensures '0' <= c < '9' ==> '0' <= r <= '9' && Digit(r) == Digit(c) + 1
    ensures c == '9' ==> r == '0'
  {
    match c
    case '0' => '1'
    case '1' => '2'
    case '2' => '3'
    case '3' => '4'
    case '4' => '5'
    case '5' => '6'
    case '6' => '7'
    case '7' => '8'
    case '8' => '9'
    case '9' => '0'
    case other => other
  }

  /** The digits plus one, and whether that overflows them. */
  function Increased(s: string): (r: (string, bool))
    ensures |r.0| == |s|
  {
    if s == [] then ([], true)
    else
      var n := |s| - 1;
      if s[n] == '9' then (Increased(s[..n]).0 + ['0'], Increased(s[..n]).1) else (s[..n] + [NextDigit(s[n])], false)
  }

  lemma IncreasedLast(s: string)
    requires s != []
    ensures var n := |s| - 1;
            && Increased(s).0[n] == NextDigit(s[n])
            && Increased(s).0[..n] == (if s[n] == '9' then Increased(s[..n]).0 else s[..n])
            && Increased(s).1 == (s[n] == '9' && Increased(s[..n]).1)
  {
    hide NextDigit;
    var n := |s| - 1;
    var front := if s[n] == '9' then Increased(s[..n]).0 else s[..n];
    assert Increased(s).0 == front + [NextDigit(s[n])];
  }

  lemma {:induction false} IncreasedByOne(s: string)
    requires IsDigits(s)
    ensures IsDigits(Increased(s).0)
    ensures Value(Increased(s).0) + (if Increased(s).1 then Pow10(|s|) else 0) == Value(s) + 1
  {
    if s != [] {
      var n := |s| - 1;
      IncreasedByOne(s[..n]);
      assert Increased(s).0[..n] == if s[n] == '9' then Increased(s[..n]).0 else s[..n];
    }
  }

  // ---------------------------------------------------------------- the two methods

  /** Cutting the digits off at `cut` rounds up. */
  predicate RoundsUp(s: string, cut: nat) {
    && cut < |s|
    && (|| Digit(s[cut]) > 5
        || (Digit(s[cut]) == 5 && ((exists i :: cut < i < |s| && s[i] != '0') || (cut > 0 && Digit(s[cut - 1]) % 2 == 1))))
  }

  method CheckForCarry(ca1: array<char>, icarry: nat) returns (carry: bool)
    requires IsDigits(ca1[..])
    ensures carry <==> RoundsUp(ca1[..], icarry)
  {
    carry := false;
    if icarry < ca1.Length {
      assert '0' <= ca1[..][icarry] <= '9';
      if ca1[icarry] == '6' || ca1[icarry] == '7' || ca1[icarry] == '8' || ca1[icarry] == '9' {
        carry := true;
      } else if ca1[icarry] == '5' {
        var ii := icarry + 1;
        while ii < ca1.Length && ca1[ii] == '0'
          invariant icarry < ii <= ca1.Length && forall k :: icarry < k < ii ==> ca1[k] == '0'
        {
          ii := ii + 1;
        }
        carry := ii < ca1.Length;
        if !carry && icarry > 0 {
          assert '0' <= ca1[..][icarry - 1] <= '9';
          var last := ca1[icarry - 1];
          carry := last == '1' || last == '3' || last == '5' || last == '7' || last == '9';
        }
        assert ii < ca1.Length ==> ca1[..][ii] != '0';
      }
    }
  }

  lemma NothingToIncrease(s: string)
    requires s == []
    ensures Increased(s) == ([], true)
  {
  }

  /** Adds one to the digits from `cFirst` to `cLast`; true if that overflows them. */
  method StartSymbolicCarry(ca: array<char>, cLast: int, cFirst: nat) returns (carry: bool)
    requires cFirst <= cLast + 1 <= ca.Length
    modifies ca
    ensures ca[cFirst..cLast + 1] == Increased(old(ca[cFirst..cLast + 1])).0 && carry == Increased(old(ca[cFirst..cLast + 1])).1
    ensures forall k :: 0 <= k < ca.Length && !(cFirst <= k <= cLast) ==> ca[k] == old(ca[k])
  {
    hide Increased, NextDigit;
    carry := true;
    var i := cLast;
    ghost var was := ca[cFirst..cLast + 1];
    ghost var n := |was|;
    ghost var goal := Increased(was);
    assert was[..n] == was && goal.0[..n] == goal.0;
    while carry && i >= cFirst
      invariant cFirst - 1 <= i <= cLast && n == i + 1 - cFirst
      invariant forall k :: 0 <= k < ca.Length && !(i < k <= cLast) ==> ca[k] == old(ca[k])
      invariant forall k :: i < k <= cLast ==> ca[k] == goal.0[k - cFirst]
      invariant goal.0[..n] == (if carry then Increased(was[..n]).0 else was[..n])
      invariant goal.1 == (carry && Increased(was[..n]).1)
      decreases i
    {
      IncreasedLast(was[..n]);
      assert was[..n][..n - 1] == was[..n - 1] && was[n - 1] == ca[i];
      assert goal.0[..n][..n - 1] == goal.0[..n - 1] && goal.0[..n][n - 1] == goal.0[n - 1];
      carry := ca[i] == '9';
      ca[i] := NextDigit(ca[i]);
      i, n := i - 1, n - 1;
    }
    if carry {
      NothingToIncrease(was[..n]);
    }
    assert forall k :: 0 <= k < n ==> goal.0[k] == goal.0[..n][k] == was[k];
  }

  // ---------------------------------------------------------------- together they round

  lemma ValueAtCut(s: string, cut: nat)
    requires IsDigits(s) && cut < |s|
    ensures var low := Pow10(|s| - cut - 1);
            && Pow10(|s| - cut) == 10 * low && 0 <= Value(s[cut + 1..]) < low
            && Value(s) == Value(s[..cut]) * (10 * low) + (Digit(s[cut]) * low + Value(s[cut + 1..]))
  {
    ValueSplit(s, cut);
    FirstPlace(s[cut..]);
    assert s[cut..][1..] == s[cut + 1..];
    ValueBound(s[cut + 1..]);
  }

  lemma SomeNotZero(s: string, cut: nat)
    requires IsDigits(s) && cut < |s|
    ensures (exists i :: cut < i < |s| && s[i] != '0') <==> Value(s[cut + 1..]) > 0
  {
    var rest := s[cut + 1..];
    ValueBound(rest);
    assert forall i :: cut < i < |s| ==> s[i] == rest[i - cut - 1];
    assert forall i :: 0 <= i < |rest| ==> rest[i] == s[i + cut + 1];
  }

  lemma RoundsUpWhen(s: string, cut: nat)
    requires IsDigits(s) && cut < |s|
    ensures 0 <= Digit(s[cut]) <= 9
    ensures RoundsUp(s, cut) <==> Digit(s[cut]) > 5 || (Digit(s[cut]) == 5 && (Value(s[cut + 1..]) > 0 || Value(s[..cut]) % 2 == 1))
  {
    ValueBound(s[..cut]);
    SomeNotZero(s, cut);
  }

  /** Rounding up or not, as `RoundsUp` says, gives the nearest value. */
  lemma RoundsToNearest(s: string, cut: nat)
    requires IsDigits(s) && cut <= |s|
    ensures IsNearest(Value(s[..cut]) + (if RoundsUp(s, cut) then 1 else 0), Value(s), Pow10(|s| - cut))
  {
    if cut == |s| {
      assert s[..cut] == s && Pow10(|s| - cut) == 1;
      hide Value, Pow10;
    } else {
      ValueAtCut(s, cut);
      RoundsUpWhen(s, cut);
      hide Value, Pow10, RoundsUp, IsDigits, IsNearest;
      NearestAtCut(Value(s[..cut]), Digit(s[cut]), Pow10(|s| - cut - 1), Value(s[cut + 1..]), RoundsUp(s, cut));
    }
  }

  /** Rounds at `cut`: the digits before it, with the carry in front, become the nearest value. */
  method RoundAt(ca: array<char>, cut: nat) returns (carry: bool)
    requires IsDigits(ca[..]) && cut <= ca.Length
    modifies ca
    ensures IsDigits(ca[..])
    ensures IsNearest(Value(ca[..cut]) + (if carry then Pow10(cut) else 0), Value(old(ca[..])), Pow10(ca.Length - cut))
  {
    ghost var was := ca[..];
    RoundsToNearest(was, cut);
    carry := CheckForCarry(ca, cut);
    assert was[..cut] == ca[..cut];
    if carry {
      IncreasedByOne(was[..cut]);
      hide Increased;
      carry := StartSymbolicCarry(ca, cut - 1, 0);
      assert ca[0..cut] == ca[..cut];
      assert forall k :: 0 <= k < ca.Length ==> '0' <= ca[k] <= '9' by {
        assert forall k :: 0 <= k < cut ==> ca[k] == ca[..cut][k];
        assert forall k :: cut <= k < ca.Length ==> ca[k] == was[k];
      }
    }
  }
}
