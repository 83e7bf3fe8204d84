/** Polynomials over GF(2), represented by the finite set of exponents whose coefficient is one. */
module Polynomials {
  type Poly = set<nat>

  /** The EMVCo generator x^16 + x^12 + x^5 + 1. */
  const GENERATOR: Poly := {16, 12, 5, 0}

  function Sum(p: Poly, q: Poly): Poly {
    (p - q) + (q - p)
  }

  /** p * x^k */
  function Shift(p: Poly, k: nat): Poly {
    set e | e in p :: e + k
  }

  /** q * (x^16 + x^12 + x^5 + 1) */
  function TimesGenerator(q: Poly): Poly {
    Sum(Sum(Shift(q, 16), Shift(q, 12)), Sum(Shift(q, 5), q))
  }

  ghost predicate DegreeBelow(p: Poly, n: nat) {
    forall e :: e in p ==> e < n
  }

  /** r is what long division of p by the generator leaves. */
  ghost predicate IsRemainder(p: Poly, r: Poly) {
    DegreeBelow(r, 16) && exists q: Poly :: p == Sum(TimesGenerator(q), r)
  }

  /** The coefficient of x^e is one. */
  ghost predicate Has(p: Poly, e: int) {
    0 <= e && e in p
  }

  lemma InSum(p: Poly, q: Poly, e: int)
    ensures Has(Sum(p, q), e) <==> Has(p, e) != Has(q, e)
  {
  }

  lemma InShift(p: Poly, k: nat, e: int)
    ensures Has(Shift(p, k), e) <==> Has(p, e - k)
  {
    if Has(p, e - k) {
      assert e == (e - k) + k;
    }
  }

  lemma InTimesGenerator(q: Poly, e: int)
    ensures Has(TimesGenerator(q), e) <==>
            ((Has(q, e - 16) != Has(q, e - 12)) != (Has(q, e - 5) != Has(q, e)))
  {
    var a, b, c := Shift(q, 16), Shift(q, 12), Shift(q, 5);
    InShift(q, 16, e);
    InShift(q, 12, e);
    InShift(q, 5, e);
    InSum(a, b, e);
    InSum(c, q, e);
    InSum(Sum(a, b), Sum(c, q), e);
  }

  lemma SamePoly(p: Poly, q: Poly)
    requires forall e: nat :: Has(p, e) == Has(q, e)
    ensures p == q
  {
    forall e: nat ensures e in p <==> e in q {
      assert Has(p, e) == Has(q, e);
    }
  }

  lemma GeneratorIsTimesOne()
    ensures TimesGenerator({0}) == GENERATOR
  {
    forall e: nat ensures Has(TimesGenerator({0}), e) == Has(GENERATOR, e) {
      InTimesGenerator({0}, e);
    }
    SamePoly(TimesGenerator({0}), GENERATOR);
  }

  lemma ShiftSum(p: Poly, q: Poly, k: nat)
    ensures Shift(Sum(p, q), k) == Sum(Shift(p, k), Shift(q, k))
  {
    var l, r := Shift(Sum(p, q), k), Sum(Shift(p, k), Shift(q, k));
    forall e: nat ensures Has(l, e) == Has(r, e) {
      InShift(Sum(p, q), k, e);
      InSum(p, q, e - k);
      InSum(Shift(p, k), Shift(q, k), e);
      InShift(p, k, e);
      InShift(q, k, e);
    }
    SamePoly(l, r);
  }

  lemma ShiftZero(p: Poly)
    ensures Shift(p, 0) == p
  {
  }

  lemma ShiftShift(p: Poly, j: nat, k: nat)
    ensures Shift(Shift(p, j), k) == Shift(p, j + k)
  {
    forall e: nat ensures Has(Shift(Shift(p, j), k), e) == Has(Shift(p, j + k), e) {
      InShift(Shift(p, j), k, e);
      InShift(p, j, e - k);
      InShift(p, j + k, e);
    }
    SamePoly(Shift(Shift(p, j), k), Shift(p, j + k));
  }

  lemma ShiftSwap(p: Poly, j: nat, k: nat)
    ensures Shift(Shift(p, j), k) == Shift(Shift(p, k), j)
  {
    ShiftShift(p, j, k);
    ShiftShift(p, k, j);
  }

  lemma ShiftTimesGenerator(q: Poly, k: nat)
    ensures Shift(TimesGenerator(q), k) == TimesGenerator(Shift(q, k))
  {
    ShiftSum(Sum(Shift(q, 16), Shift(q, 12)), Sum(Shift(q, 5), q), k);
    ShiftSum(Shift(q, 16), Shift(q, 12), k);
    ShiftSum(Shift(q, 5), q, k);
    ShiftSwap(q, 16, k);
    ShiftSwap(q, 12, k);
    ShiftSwap(q, 5, k);
  }

  lemma TimesGeneratorSum(p: Poly, q: Poly)
    ensures TimesGenerator(Sum(p, q)) == Sum(TimesGenerator(p), TimesGenerator(q))
  {
    var l, r := TimesGenerator(Sum(p, q)), Sum(TimesGenerator(p), TimesGenerator(q));
    forall e: nat ensures Has(l, e) == Has(r, e) {
      InTimesGenerator(Sum(p, q), e);
      InSum(p, q, e);
      InSum(p, q, e - 5);
      InSum(p, q, e - 12);
      InSum(p, q, e - 16);
      InTimesGenerator(p, e);
      InTimesGenerator(q, e);
      InSum(TimesGenerator(p), TimesGenerator(q), e);
    }
    SamePoly(l, r);
  }

  lemma SumSwap(a: Poly, b: Poly, c: Poly, d: Poly)
    ensures Sum(Sum(a, b), Sum(c, d)) == Sum(Sum(a, c), Sum(b, d))
  {
    var l, r := Sum(Sum(a, b), Sum(c, d)), Sum(Sum(a, c), Sum(b, d));
    forall e: nat ensures Has(l, e) == Has(r, e) {
      InSum(Sum(a, b), Sum(c, d), e);
      InSum(a, b, e);
      InSum(c, d, e);
      InSum(Sum(a, c), Sum(b, d), e);
      InSum(a, c, e);
      InSum(b, d, e);
    }
    SamePoly(l, r);
  }

  lemma SumAssociative(a: Poly, b: Poly, c: Poly)
    ensures Sum(Sum(a, b), c) == Sum(a, Sum(b, c))
  {
    var l, r := Sum(Sum(a, b), c), Sum(a, Sum(b, c));
    forall e: nat ensures Has(l, e) == Has(r, e) {
      InSum(Sum(a, b), c, e);
      InSum(a, b, e);
      InSum(a, Sum(b, c), e);
      InSum(b, c, e);
    }
    SamePoly(l, r);
  }

  lemma SumCommutes(a: Poly, b: Poly)
    ensures Sum(a, b) == Sum(b, a)
  {
  }

  lemma SumSelf(p: Poly)
    ensures Sum(p, p) == {}
  {
  }

  lemma Largest(p: Poly) returns (m: nat)
    requires p != {}
    ensures m in p && forall e :: e in p ==> e <= m
  {
    var any :| any in p;
    var rest := p - {any};
    assert forall e :: e in p ==> e == any || e in rest;
    if rest == {} {
      m := any;
    } else {
      var n := Largest(rest);
      m := if n > any then n else any;
    }
  }

  lemma Smallest(p: Poly) returns (m: nat)
    requires p != {}
    ensures m in p && forall e :: e in p ==> m <= e
  {
    var any :| any in p;
    var rest := p - {any};
    assert forall e :: e in p ==> e == any || e in rest;
    if rest == {} {
      m := any;
    } else {
      var n := Smallest(rest);
      m := if n < any then n else any;
    }
  }

  /** A nonzero multiple of the generator has two terms at least sixteen exponents apart. */
  lemma MultiplesAreWide(q: Poly) returns (low: nat, high: nat)
    requires q != {}
    ensures low in TimesGenerator(q) && high in TimesGenerator(q) && low + 16 <= high
  {
    var least := Smallest(q);
    var most := Largest(q);
    InTimesGenerator(q, least);
    InTimesGenerator(q, most + 16);
    low, high := least, most + 16;
  }

  /** Long division has one remainder: the relation IsRemainder is a function of the dividend. */
  lemma RemainderIsUnique(p: Poly, r: Poly, s: Poly)
    requires IsRemainder(p, r) && IsRemainder(p, s)
    ensures r == s
  {
    RemainderSum(p, r, p, s);
    SumSelf(p);
    var q: Poly :| {} == Sum(TimesGenerator(q), Sum(r, s));
    if q != {} {
      var _, high := MultiplesAreWide(q);
      InSum(TimesGenerator(q), Sum(r, s), high);
    } else {
      forall e: nat ensures Has(r, e) == Has(s, e) {
        InSum(TimesGenerator(q), Sum(r, s), e);
        InTimesGenerator(q, e);
        InSum(r, s, e);
      }
      SamePoly(r, s);
    }
  }

  lemma RemainderSum(p: Poly, r: Poly, q: Poly, s: Poly)
    requires IsRemainder(p, r) && IsRemainder(q, s)
    ensures IsRemainder(Sum(p, q), Sum(r, s))
  {
    var a: Poly :| p == Sum(TimesGenerator(a), r);
    var b: Poly :| q == Sum(TimesGenerator(b), s);
    TimesGeneratorSum(a, b);
    SumSwap(TimesGenerator(a), r, TimesGenerator(b), s);
  }
}
