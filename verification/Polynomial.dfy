/** Polynomials over GF(2), as the finite set of exponents whose coefficient is 1.
    This is the reference against which the shift-and-xor CRC is judged: nothing
    here mentions bits, bytes or registers. */
module Polynomial {

  type Poly = set<nat>

  /** Sum; over GF(2) it is also the difference. */
  function Add(a: Poly, b: Poly): (r: Poly)
    ensures forall e: nat {:trigger e in r} :: e in r <==> (e in a) != (e in b)
  {
    (a - b) + (b - a)
  }

  /** Product with x^k. */
  function Shift(p: Poly, k: nat): (r: Poly)
    ensures forall e: nat {:trigger e in r} :: e in r <==> e >= k && e - k in p
  {
    set e | e in p :: e + k
  }

  /** The generator x^16 + x^12 + x^5 + 1. */
  const GENERATOR: Poly := {16, 12, 5, 0}

  /** Product with the generator. */
  function MulG(q: Poly): Poly {
    Add(Add(Shift(q, 16), Shift(q, 12)), Add(Shift(q, 5), q))
  }

  ghost predicate Congruent(a: Poly, b: Poly) {
    exists q: Poly :: a == Add(b, MulG(q))
  }

  /** `r` is the remainder of `p` on division by the generator. */
  ghost predicate IsRemainder(p: Poly, r: Poly) {
    (forall e: nat | e in r :: e < 16) && Congruent(p, r)
  }

  // ---- Algebra ----

  lemma AddAssoc(a: Poly, b: Poly, c: Poly)
    ensures Add(Add(a, b), c) == Add(a, Add(b, c))
  {}

  lemma ShiftAdd(a: Poly, b: Poly, k: nat)
    ensures Shift(Add(a, b), k) == Add(Shift(a, k), Shift(b, k))
  {}

  lemma ShiftShift(p: Poly, j: nat, k: nat)
    ensures Shift(Shift(p, j), k) == Shift(p, j + k)
  {
    forall e: nat ensures e in Shift(Shift(p, j), k) <==> e in Shift(p, j + k) {
      if e >= k { assert e in Shift(Shift(p, j), k) <==> e - k in Shift(p, j); }
    }
  }

  lemma MulGAdd(a: Poly, b: Poly)
    ensures MulG(Add(a, b)) == Add(MulG(a), MulG(b))
  {
    ShiftAdd(a, b, 16);
    ShiftAdd(a, b, 12);
    ShiftAdd(a, b, 5);
    forall e: nat ensures e in MulG(Add(a, b)) <==> e in Add(MulG(a), MulG(b)) {
      InMulG(a, e);
      InMulG(b, e);
      InMulG(Add(a, b), e);
    }
  }

  lemma MulGShift(q: Poly, k: nat)
    ensures MulG(Shift(q, k)) == Shift(MulG(q), k)
  {
    ShiftShift(q, k, 16);
    ShiftShift(q, 16, k);
    ShiftShift(q, k, 12);
    ShiftShift(q, 12, k);
    ShiftShift(q, k, 5);
    ShiftShift(q, 5, k);
    ShiftAdd(Add(Shift(q, 16), Shift(q, 12)), Add(Shift(q, 5), q), k);
    ShiftAdd(Shift(q, 16), Shift(q, 12), k);
    ShiftAdd(Shift(q, 5), q, k);
  }

  /** Coefficient of x^e in the product with the generator. */
  lemma InMulG(q: Poly, e: nat)
    ensures e in MulG(q) <==>
            ((e in Shift(q, 16)) != (e in Shift(q, 12))) != ((e in Shift(q, 5)) != (e in q))
  {}

  lemma CongruentRefl(a: Poly)
    ensures Congruent(a, a)
  {
    assert MulG({}) == {};
    assert a == Add(a, MulG({}));
  }

  lemma CongruentTrans(a: Poly, b: Poly, c: Poly)
    requires Congruent(a, b) && Congruent(b, c)
    ensures Congruent(a, c)
  {
    var p: Poly :| a == Add(b, MulG(p));
    var q: Poly :| b == Add(c, MulG(q));
    AddAssoc(c, MulG(q), MulG(p));
    MulGAdd(q, p);
    assert a == Add(c, MulG(Add(q, p)));
  }

  lemma CongruentSym(a: Poly, b: Poly)
    requires Congruent(a, b)
    ensures Congruent(b, a)
  {
    var q: Poly :| a == Add(b, MulG(q));
    assert b == Add(a, MulG(q));
  }

  lemma CongruentShift(a: Poly, b: Poly, k: nat)
    requires Congruent(a, b)
    ensures Congruent(Shift(a, k), Shift(b, k))
  {
    var q: Poly :| a == Add(b, MulG(q));
    ShiftAdd(b, MulG(q), k);
    MulGShift(q, k);
    assert Shift(a, k) == Add(Shift(b, k), MulG(Shift(q, k)));
  }

  lemma CongruentAdd(a: Poly, b: Poly, c: Poly)
    requires Congruent(a, b)
    ensures Congruent(Add(a, c), Add(b, c))
  {
    var q: Poly :| a == Add(b, MulG(q));
    assert Add(a, c) == Add(Add(b, c), MulG(q));
  }

  // ---- Degrees ----

  lemma {:induction false} Extremes(p: Poly) returns (lo: nat, hi: nat)
    requires p != {}
    ensures lo in p && hi in p && forall e: nat | e in p :: lo <= e <= hi
    decreases |p|
  {
    var x :| x in p;
    if p == {x} {
      lo, hi := x, x;
    } else {
      var l, h := Extremes(p - {x});
      lo := if x < l then x else l;
      hi := if x > h then x else h;
      assert forall e: nat | e in p :: e == x || e in p - {x};
    }
  }

  /** The constant term of the generator keeps the lowest term of a multiplier. */
  lemma LowestTerm(q: Poly, lo: nat)
    requires lo in q && forall e: nat | e in q :: lo <= e
    ensures lo in MulG(q)
  {
    InMulG(q, lo);
  }

  /** Its leading term moves the highest term of a multiplier up by sixteen. */
  lemma HighestTerm(q: Poly, hi: nat)
    requires hi in q && forall e: nat | e in q :: e <= hi
    ensures hi + 16 in MulG(q)
  {
    InMulG(q, hi + 16);
  }

  /** A non-zero multiple of the generator spans at least 17 coefficients. */
  lemma MultipleSpansSixteen(q: Poly) returns (lo: nat, top: nat)
    requires q != {}
    ensures lo in MulG(q) && top + 16 in MulG(q) && lo <= top
  {
    lo, top := Extremes(q);
    LowestTerm(q, lo);
    HighestTerm(q, top);
  }

  /** The remainder on division by the generator is unique. */
  lemma RemainderUnique(p: Poly, r: Poly, s: Poly)
    requires IsRemainder(p, r) && IsRemainder(p, s)
    ensures r == s
  {
    CongruentSym(p, r);
    CongruentTrans(r, p, s);
    var q: Poly :| r == Add(s, MulG(q));
    if q != {} {
      var lo, top := MultipleSpansSixteen(q);
      assert false;
    }
    assert MulG({}) == {};
  }

  // ---- Parity of the number of terms ----

  lemma ShiftSize(p: Poly, k: nat)
    ensures |Shift(p, k)| == |p|
  {
    if p != {} {
      var x :| x in p;
      ShiftSize(p - {x}, k);
      assert Shift(p, k) == Shift(p - {x}, k) + {x + k};
    } else {
      assert Shift(p, k) == {};
    }
  }

  lemma EvenSum(a: Poly, b: Poly)
    requires |a| % 2 == |b| % 2
    ensures |Add(a, b)| % 2 == 0
  {
    assert |a - b| + |a * b| == |a| && |b - a| + |a * b| == |b|;
    assert |Add(a, b)| == |a - b| + |b - a|;
  }

  /** Every multiple of the generator has an even number of terms (x + 1 divides it). */
  lemma MultipleIsEven(q: Poly)
    ensures |MulG(q)| % 2 == 0
  {
    var high, low := Add(Shift(q, 16), Shift(q, 12)), Add(Shift(q, 5), q);
    assert |high| % 2 == 0 by {
      ShiftSize(q, 16);
      ShiftSize(q, 12);
      EvenSum(Shift(q, 16), Shift(q, 12));
    }
    assert |low| % 2 == 0 by {
      ShiftSize(q, 5);
      EvenSum(Shift(q, 5), q);
    }
    EvenSum(high, low);
  }
}
