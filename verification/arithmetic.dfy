/**
 Products, quotients and remainders of variables behind names, with the few laws the modules
 need, so that their proofs can hide the operators.
 */
module Arithmetic {

  function Times(x: nat, y: nat): nat { x * y }

  function Quot(x: nat, y: nat): nat
    requires y > 0
  {
    x / y
  }

  function Rem(x: nat, y: nat): nat
    requires y > 0
  {
    x % y
  }

  lemma QuotRem(x: nat, a: nat)
    requires a > 0
    ensures x == Times(Quot(x, a), a) + Rem(x, a) && Rem(x, a) < a
  {
  }

  lemma TimesSum(x: nat, y: nat, a: nat)
    ensures Times(x + y, a) == Times(x, a) + Times(y, a)
  {
  }

  lemma {:induction false} TimesMono(x: nat, y: nat, a: nat)
    requires x <= y
    ensures Times(x, a) <= Times(y, a)
  {
    TimesSum(x, y - x, a);
  }

  lemma TimesOne(a: nat)
    ensures Times(1, a) == a
  {
  }

  lemma {:induction false} TimesSquare(x: nat, a: nat)
    ensures Times(Times(x, a), a) == Times(x, Times(a, a))
  {
    assert x * a * a == x * (a * a);
  }

  lemma {:induction false} TimesBelow(q: nat, r: nat, a: nat, m: nat)
    requires q < m && r < a
    ensures Times(q, a) + r < Times(m, a)
  {
    hide Times;
    TimesMono(q + 1, m, a);
    TimesSum(q, 1, a);
    TimesOne(a);
  }

  lemma {:induction false} QuotUnique(q: nat, r: nat, a: nat)
    requires r < a
    ensures Quot(Times(q, a) + r, a) == q && Rem(Times(q, a) + r, a) == r
  {
    hide Times, Quot, Rem;
    var x := Times(q, a) + r;
    QuotRem(x, a);
    if Quot(x, a) < q {
      TimesBelow(Quot(x, a), Rem(x, a), a, q);
      assert false;
    }
    if Quot(x, a) > q {
      TimesBelow(q, r, a, Quot(x, a));
      assert false;
    }
  }

  lemma {:induction false} QuotBound(x: nat, a: nat, m: nat)
    requires a > 0 && x < Times(m, a)
    ensures Quot(x, a) < m
  {
    hide Times, Quot, Rem;
    QuotRem(x, a);
    if Quot(x, a) >= m {
      TimesMono(m, Quot(x, a), a);
      assert false;
    }
  }

  lemma TimesZero(a: nat)
    ensures Times(0, a) == 0
  {
  }

  lemma TimesSwap(x: nat, y: nat)
    ensures Times(x, y) == Times(y, x)
  {
  }

  lemma {:induction false} TimesNext(i: nat, n: nat, a: nat)
    requires i < n
    ensures Times(i + 1, a) == Times(i, a) + a <= Times(n, a)
  {
    TimesSum(i, 1, a);
    TimesOne(a);
    TimesMono(i + 1, n, a);
  }

  lemma {:induction false} QuotQuot(x: nat, a: nat, b: nat)
    requires a > 0 && b > 0
    ensures b * a > 0 && x / a / b == x / (b * a)
  {
    TimesMono(1, b, a);
    TimesOne(a);
    var q := Quot(x, a);
    QuotRem(x, a);
    QuotRem(q, b);
    var r := Times(Rem(q, b), a) + Rem(x, a);
    TimesBelow(Rem(q, b), Rem(x, a), a, b);
    TimesSum(Times(Quot(q, b), b), Rem(q, b), a);
    assert Times(Times(Quot(q, b), b), a) == Times(Quot(q, b), Times(b, a)) by {
      assert Quot(q, b) * b * a == Quot(q, b) * (b * a);
    }
    QuotUnique(Quot(q, b), r, Times(b, a));
  }
}
