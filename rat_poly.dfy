/**
 * RatPoly: an immutable polynomial over exact rationals, held as a list of
 * terms.
 *
 * The representation invariant (a "sorted" term list) is: no zero
 * coefficient, and exponents strictly descending. The abstraction is the
 * coefficient at each exponent, Coeff ("cofind"), which is zero for an
 * exponent no term has. Every operation is a loop over term lists, proved
 * to keep the invariant and to produce the coefficients the operation
 * stands for; CanonicalUnique shows those coefficients determine the list.
 */
module Poly {
  import opened RatTerms

  datatype RatPoly = RatPoly(terms: seq<RatTerm>)

  // ---------------------------------------------------------------------
  // Representation invariant and abstraction function
  // ---------------------------------------------------------------------

  /** A sorted term list: no zero coefficient, exponents strictly
      descending. */
  predicate Sorted(ts: seq<RatTerm>) {
    (forall i | 0 <= i < |ts| :: !IsZero(ts[i])) &&
    (forall i, j | 0 <= i < j < |ts| :: ts[i].expt > ts[j].expt)
  }

  /** The representation invariant of every RatPoly. */
  predicate Valid(p: RatPoly) {
    Sorted(p.terms)
  }

  /** checkRep's form of the invariant: each exponent exceeds the next. */
  predicate CheckRep(ts: seq<RatTerm>) {
    (forall i | 0 <= i < |ts| :: !IsZero(ts[i])) &&
    (forall i | 0 <= i < |ts| - 1 :: ts[i + 1].expt < ts[i].expt)
  }

  /** The coefficient of x^k: that of the first term with exponent k, or
      zero. */
  function Coeff(ts: seq<RatTerm>, k: nat): RatNum {
    if ts == [] then ZeroNum else if ts[0].expt == k then ts[0].coeff else Coeff(ts[1..], k)
  }

  /** Some coefficient is NaN. */
  predicate HasNaN(ts: seq<RatTerm>) {
    exists i | 0 <= i < |ts| :: IsNaNTerm(ts[i])
  }

  /** The same coefficient at every exponent. */
  ghost predicate SameCoeffs(a: seq<RatTerm>, b: seq<RatTerm>) {
    forall k: nat :: Coeff(a, k) == Coeff(b, k)
  }

  /** Every coefficient is a number. */
  ghost predicate NaNFree(ts: seq<RatTerm>) {
    forall k: nat :: Coeff(ts, k).Num?
  }

  lemma SortedTail(ts: seq<RatTerm>)
    requires Sorted(ts) && ts != []
    ensures Sorted(ts[1..])
  {
    assert forall i | 0 <= i < |ts| - 1 :: ts[1..][i] == ts[i + 1];
  }

  /** checkRep's adjacent-pairs form and the all-pairs form agree. */
  lemma {:induction false} CheckRepIsSorted(ts: seq<RatTerm>)
    ensures CheckRep(ts) <==> Sorted(ts)
    decreases |ts|
  {
    if ts != [] && CheckRep(ts) {
      var rest := ts[1..];
      assert forall i | 0 <= i < |rest| :: rest[i] == ts[i + 1];
      assert CheckRep(rest);
      CheckRepIsSorted(rest);
      forall i, j | 0 <= i < j < |ts| ensures ts[i].expt > ts[j].expt {
        if i > 0 {
          assert rest[i - 1].expt > rest[j - 1].expt;
        } else if j > 1 {
          assert rest[0].expt > rest[j - 1].expt;
        }
      }
    }
  }

  /** Coeff finds the coefficient of the one term with exponent k, and is
      zero when there is none. */
  lemma {:induction false} CoeffIndex(ts: seq<RatTerm>, k: nat)
    requires Sorted(ts)
    ensures forall i | 0 <= i < |ts| && ts[i].expt == k :: Coeff(ts, k) == ts[i].coeff
    ensures (forall i | 0 <= i < |ts| :: ts[i].expt != k) ==> Coeff(ts, k) == ZeroNum
    decreases |ts|
  {
    if ts != [] {
      SortedTail(ts);
      CoeffIndex(ts[1..], k);
      assert forall i | 1 <= i < |ts| :: ts[1..][i - 1] == ts[i];
    }
  }

  /** In a sorted list a coefficient is non-zero exactly at the exponents
      of its terms. */
  lemma CoeffNonZero(ts: seq<RatTerm>, k: nat) returns (i: nat)
    requires Sorted(ts) && Coeff(ts, k) != ZeroNum
    ensures i < |ts| && ts[i].expt == k && ts[i].coeff == Coeff(ts, k)
  {
    CoeffIndex(ts, k);
    i :| i < |ts| && ts[i].expt == k;
  }

  /** A sorted list has a NaN term exactly when some coefficient is NaN. */
  lemma HasNaNIffCoeff(ts: seq<RatTerm>)
    requires Sorted(ts)
    ensures HasNaN(ts) <==> !NaNFree(ts)
  {
    if HasNaN(ts) {
      var i :| 0 <= i < |ts| && IsNaNTerm(ts[i]);
      CoeffIndex(ts, ts[i].expt);
      assert !Coeff(ts, ts[i].expt).Num?;
    }
    if !NaNFree(ts) {
      var k: nat :| !Coeff(ts, k).Num?;
      var i := CoeffNonZero(ts, k);
      assert IsNaNTerm(ts[i]);
    }
  }

  /** Representation is canonical: two sorted lists with the same
      coefficients are the same list. So RatPoly.equals, which compares
      lists, compares polynomials. */
  lemma {:induction false} CanonicalUnique(a: seq<RatTerm>, b: seq<RatTerm>)
    requires Sorted(a) && Sorted(b)
    requires forall k: nat :: Coeff(a, k) == Coeff(b, k)
    ensures a == b
    decreases |a|
  {
    if a == [] || b == [] {
      if a != [] {
        CoeffIndex(a, a[0].expt);
        assert false;
      } else if b != [] {
        CoeffIndex(b, b[0].expt);
        assert false;
      }
    } else {
      CoeffIndex(a, a[0].expt);
      CoeffIndex(b, b[0].expt);
      CoeffIndex(a, b[0].expt);
      CoeffIndex(b, a[0].expt);
      assert a[0].expt == b[0].expt;
      assert a[0] == b[0];
      SortedTail(a);
      SortedTail(b);
      forall k: nat ensures Coeff(a[1..], k) == Coeff(b[1..], k) {
        if k == a[0].expt {
          assert forall i | 0 <= i < |a| - 1 :: a[1..][i] == a[i + 1];
          assert forall i | 0 <= i < |b| - 1 :: b[1..][i] == b[i + 1];
          CoeffIndex(a[1..], k);
          CoeffIndex(b[1..], k);
        } else {
          assert Coeff(a, k) == Coeff(b, k);
        }
      }
      CanonicalUnique(a[1..], b[1..]);
      assert a == [a[0]] + a[1..] && b == [b[0]] + b[1..];
    }
  }

  // ---------------------------------------------------------------------
  // What the list edits of sortedInsert and add do to the coefficients
  // ---------------------------------------------------------------------

  /** Coeff by membership: in a sorted list the term with exponent k
      carries the coefficient; none means zero. */
  lemma CoeffMember(ts: seq<RatTerm>, k: nat)
    requires Sorted(ts)
    ensures forall t | t in ts && t.expt == k :: Coeff(ts, k) == t.coeff
    ensures (forall t | t in ts :: t.expt != k) ==> Coeff(ts, k) == ZeroNum
  {
    CoeffIndex(ts, k);
  }

  /** Two sorted lists with the same terms away from exponent e have the
      same coefficients away from e. */
  lemma CoeffAgree(ts: seq<RatTerm>, u: seq<RatTerm>, e: nat)
    requires Sorted(ts) && Sorted(u)
    requires forall t: RatTerm | t.expt != e :: t in u <==> t in ts
    ensures forall k: nat | k != e :: Coeff(u, k) == Coeff(ts, k)
  {
    forall k: nat | k != e ensures Coeff(u, k) == Coeff(ts, k) {
      CoeffMember(ts, k);
      CoeffMember(u, k);
      if Coeff(ts, k) != ZeroNum {
        var j := CoeffNonZero(ts, k);
        assert ts[j] in u;
      }
      if Coeff(u, k) != ZeroNum {
        var j := CoeffNonZero(u, k);
        assert u[j] in ts;
      }
    }
  }

  /** lst.set(i, x) with x of the same exponent: only that coefficient
      changes. */
  lemma ReplaceAt(ts: seq<RatTerm>, i: nat, x: RatTerm)
    requires Sorted(ts) && i < |ts| && x.expt == ts[i].expt && !IsZero(x)
    ensures Sorted(ts[i := x])
    ensures forall k: nat :: Coeff(ts[i := x], k) == if k == x.expt then x.coeff else Coeff(ts, k)
  {
    var u := ts[i := x];
    assert ts == ts[..i] + [ts[i]] + ts[i + 1..];
    assert u == ts[..i] + [x] + ts[i + 1..];
    forall t: RatTerm | t.expt != x.expt ensures t in u <==> t in ts {
    }
    CoeffAgree(ts, u, x.expt);
    CoeffMember(u, x.expt);
  }

  /** lst.remove(i): that term's coefficient becomes zero, no other
      changes. */
  lemma RemoveAt(ts: seq<RatTerm>, i: nat)
    requires Sorted(ts) && i < |ts|
    ensures Sorted(ts[..i] + ts[i + 1..])
    ensures forall k: nat :: Coeff(ts[..i] + ts[i + 1..], k) == if k == ts[i].expt then ZeroNum else Coeff(ts, k)
  {
    var u := ts[..i] + ts[i + 1..];
    RemoveSorted(ts, i);
    RemoveMembers(ts, i);
    CoeffAgree(ts, u, ts[i].expt);
    CoeffMember(u, ts[i].expt);
  }

  lemma RemoveSorted(ts: seq<RatTerm>, i: nat)
    requires Sorted(ts) && i < |ts|
    ensures Sorted(ts[..i] + ts[i + 1..])
  {
    var u := ts[..i] + ts[i + 1..];
    assert forall j | 0 <= j < i :: u[j] == ts[j];
    assert forall j | i < j < |ts| :: u[j - 1] == ts[j];
  }

  lemma RemoveMembers(ts: seq<RatTerm>, i: nat)
    requires Sorted(ts) && i < |ts|
    ensures forall t: RatTerm | t.expt != ts[i].expt :: t in ts[..i] + ts[i + 1..] <==> t in ts
    ensures forall t | t in ts[..i] + ts[i + 1..] :: t.expt != ts[i].expt
  {
    assert ts == ts[..i] + [ts[i]] + ts[i + 1..];
    forall t | t in ts[..i] + ts[i + 1..] ensures t.expt != ts[i].expt {
      var j :| 0 <= j < |ts[..i] + ts[i + 1..]| && (ts[..i] + ts[i + 1..])[j] == t;
      if j < i {
        assert t == ts[j];
      } else {
        assert t == ts[j + 1];
      }
    }
  }

  /** lst.add(i, x) at the place that keeps the exponents descending: x
      becomes the term of its exponent, no other changes. */
  lemma InsertAt(ts: seq<RatTerm>, i: nat, x: RatTerm)
    requires Sorted(ts) && i <= |ts| && !IsZero(x)
    requires forall j | 0 <= j < i :: ts[j].expt > x.expt
    requires forall j | i <= j < |ts| :: ts[j].expt < x.expt
    ensures Sorted(ts[..i] + [x] + ts[i..])
    ensures forall k: nat :: Coeff(ts[..i] + [x] + ts[i..], k) == if k == x.expt then x.coeff else Coeff(ts, k)
  {
    var u := ts[..i] + [x] + ts[i..];
    InsertSorted(ts, i, x);
    InsertMembers(ts, i, x);
    CoeffAgree(ts, u, x.expt);
    CoeffMember(u, x.expt);
  }

  lemma InsertSorted(ts: seq<RatTerm>, i: nat, x: RatTerm)
    requires Sorted(ts) && i <= |ts| && !IsZero(x)
    requires forall j | 0 <= j < i :: ts[j].expt > x.expt
    requires forall j | i <= j < |ts| :: ts[j].expt < x.expt
    ensures Sorted(ts[..i] + [x] + ts[i..])
  {
    var u := ts[..i] + [x] + ts[i..];
    assert u[i] == x;
    assert forall j | 0 <= j < i :: u[j] == ts[j];
    assert forall j | i < j <= |ts| :: u[j] == ts[j - 1];
  }

  lemma InsertMembers(ts: seq<RatTerm>, i: nat, x: RatTerm)
    requires i <= |ts|
    requires forall j | 0 <= j < |ts| :: ts[j].expt != x.expt
    ensures forall t: RatTerm | t.expt != x.expt :: t in ts[..i] + [x] + ts[i..] <==> t in ts
    ensures x in ts[..i] + [x] + ts[i..]
  {
    assert ts == ts[..i] + ts[i..];
  }

  /** Appending a term below every exponent of the list. */
  lemma AppendLast(ts: seq<RatTerm>, x: RatTerm)
    requires Sorted(ts) && !IsZero(x)
    requires forall j | 0 <= j < |ts| :: ts[j].expt > x.expt
    ensures Sorted(ts + [x])
    ensures forall k: nat :: Coeff(ts + [x], k) == if k == x.expt then x.coeff else Coeff(ts, k)
  {
    InsertAt(ts, |ts|, x);
    assert ts[..|ts|] + [x] + ts[|ts|..] == ts + [x];
  }

  /** The first j + 1 terms of a sorted list: term j adds its own
      coefficient, at an exponent the first j do not have. */
  lemma PrefixCoeff(ts: seq<RatTerm>, j: nat)
    requires Sorted(ts) && j < |ts|
    ensures Sorted(ts[..j]) && Sorted(ts[..j + 1])
    ensures Coeff(ts[..j], ts[j].expt) == ZeroNum
    ensures forall k: nat :: Coeff(ts[..j + 1], k) == if k == ts[j].expt then ts[j].coeff else Coeff(ts[..j], k)
  {
    AppendLast(ts[..j], ts[j]);
    assert ts[..j + 1] == ts[..j] + [ts[j]];
    CoeffIndex(ts[..j], ts[j].expt);
  }

  // ---------------------------------------------------------------------
  // sortedInsert
  // ---------------------------------------------------------------------

  /** r is the sorted list lst with t added in: t's coefficient summed into
      lst's at t's exponent, every other coefficient unchanged. */
  ghost predicate Inserted(r: seq<RatTerm>, lst: seq<RatTerm>, t: RatTerm) {
    && Sorted(r)
    && Coeff(r, t.expt) == Plus(Coeff(lst, t.expt), t.coeff)
    && forall k: nat | k != t.expt :: Coeff(r, k) == Coeff(lst, k)
  }

  /**
   * sortedInsert: add newTerm into a sorted list. The coefficient at
   * newTerm's exponent becomes the old one plus newTerm's (the term is
   * dropped when that is zero); no other coefficient changes; the list
   * stays sorted.
   */
  method SortedInsert(lst: seq<RatTerm>, newTerm: RatTerm) returns (r: seq<RatTerm>)
    requires Sorted(lst)
    ensures Inserted(r, lst, newTerm)
  {
    var i := 0;
    while i < |lst|
      invariant i <= |lst|
      invariant forall j | 0 <= j < i :: lst[j].expt > newTerm.expt
    {
      var term := lst[i];
      if term.expt == newTerm.expt {
        var sum := AddTerms(newTerm, term);
        CoeffIndex(lst, term.expt);
        if IsZero(sum) {
          RemoveAt(lst, i);
          r := lst[..i] + lst[i + 1..];
        } else {
          ReplaceAt(lst, i, sum);
          r := lst[i := sum];
        }
        return;
      } else if term.expt < newTerm.expt {
        break;
      }
      i := i + 1;
    }
    CoeffIndex(lst, newTerm.expt);
    if !IsZero(newTerm) {
      InsertAt(lst, i, newTerm);
      r := lst[..i] + [newTerm] + lst[i..];
    } else {
      r := lst;
    }
  }

  // ---------------------------------------------------------------------
  // Constants, constructors and queries
  // ---------------------------------------------------------------------

  /** RatPoly.NaN: the single NaN term. */
  const NaNPoly: RatPoly := RatPoly([NaNTerm])

  /** RatPoly(): the zero polynomial, with no terms. */
  function Zero(): (r: RatPoly)
    ensures Valid(r) && forall k: nat :: Coeff(r.terms, k) == ZeroNum
  {
    RatPoly([])
  }

  /** RatPoly(rt): the polynomial rt, which is zero when rt is. */
  function FromTerm(rt: RatTerm): (r: RatPoly)
    ensures Valid(r)
    ensures forall k: nat :: Coeff(r.terms, k) == if k == rt.expt then rt.coeff else ZeroNum
  {
    if IsZero(rt) then RatPoly([]) else RatPoly([rt])
  }

  /** RatPoly(c, e): the polynomial c * x^e, which is zero when c is. */
  function FromInts(c: int, e: nat): (r: RatPoly)
    ensures Valid(r)
    ensures forall k: nat :: Coeff(r.terms, k) == if k == e then Num(c as real) else ZeroNum
  {
    if c == 0 then RatPoly([]) else RatPoly([RatTerm(Num(c as real), e)])
  }

  /** degree: the first (largest) exponent, or 0 for the zero
      polynomial. */
  function Degree(p: RatPoly): (d: nat)
    ensures p.terms == [] ==> d == 0
    ensures Valid(p) && p.terms == [] ==> forall k: nat :: Coeff(p.terms, k) == ZeroNum
    ensures Valid(p) && p.terms != [] ==> Coeff(p.terms, d) == p.terms[0].coeff != ZeroNum
    ensures Valid(p) ==> forall k: nat | k > d :: Coeff(p.terms, k) == ZeroNum
  {
    AboveTop(p.terms);
    if p.terms == [] then 0 else p.terms[0].expt
  }

  /** A sorted list has nothing above its first exponent. */
  lemma AboveTop(ts: seq<RatTerm>)
    ensures Sorted(ts) && ts != [] ==> forall k: nat | k > ts[0].expt :: Coeff(ts, k) == ZeroNum
  {
    if Sorted(ts) && ts != [] {
      forall k: nat | k > ts[0].expt ensures Coeff(ts, k) == ZeroNum {
        CoeffIndex(ts, k);
      }
    }
  }

  /** A sorted list with no non-zero coefficient at n or above is zero or
      of degree below n. */
  lemma DegreeBelow(p: RatPoly, n: nat)
    requires Valid(p)
    requires forall k: nat | k >= n :: Coeff(p.terms, k) == ZeroNum
    ensures p.terms == [] || Degree(p) < n
  {
  }

  /** getTerm(deg): the term of exponent deg, or the zero term (always the
      zero term for a negative deg, which no term has). */
  method GetTerm(p: RatPoly, deg: int) returns (r: RatTerm)
    requires Valid(p)
    ensures deg < 0 ==> r == ZeroTerm
    ensures deg >= 0 ==> r.coeff == Coeff(p.terms, deg)
    ensures IsZero(r) ==> r == ZeroTerm
    ensures !IsZero(r) ==> r.expt == deg && r in p.terms
  {
    var i := 0;
    while i < |p.terms|
      invariant i <= |p.terms|
      invariant forall j | 0 <= j < i :: p.terms[j].expt != deg
    {
      var term := p.terms[i];
      if term.expt == deg {
        CoeffIndex(p.terms, deg);
        return term;
      }
      i := i + 1;
    }
    if deg >= 0 {
      CoeffIndex(p.terms, deg);
    }
    return ZeroTerm;
  }

  /** isNaN: some coefficient is NaN. */
  method IsNaN(p: RatPoly) returns (b: bool)
    ensures b <==> HasNaN(p.terms)
  {
    for i := 0 to |p.terms|
      invariant forall j | 0 <= j < i :: !IsNaNTerm(p.terms[j])
    {
      if IsNaNTerm(p.terms[i]) {
        return true;
      }
    }
    return false;
  }

  /** equals: both NaN, or the same term list. */
  function Equals(a: RatPoly, b: RatPoly): (r: bool)
    ensures Valid(a) && Valid(b) ==> (r <==> (HasNaN(a.terms) && HasNaN(b.terms)) || SameCoeffs(a.terms, b.terms))
  {
    SameCoeffsSameList(a.terms, b.terms);
    (HasNaN(a.terms) && HasNaN(b.terms)) || a.terms == b.terms
  }

  /** Sorted lists with the same coefficients are the same list. */
  lemma SameCoeffsSameList(a: seq<RatTerm>, b: seq<RatTerm>)
    ensures Sorted(a) && Sorted(b) && SameCoeffs(a, b) ==> a == b
  {
    if Sorted(a) && Sorted(b) && SameCoeffs(a, b) {
      CanonicalUnique(a, b);
    }
  }

  // ---------------------------------------------------------------------
  // negate, add, sub
  // ---------------------------------------------------------------------

  /** negate: every coefficient negated, every exponent kept. */
  method Negate(p: RatPoly) returns (r: RatPoly)
    requires Valid(p)
    ensures Valid(r)
    ensures forall k: nat :: Coeff(r.terms, k) == Minus(Coeff(p.terms, k))
  {
    var lst: seq<RatTerm> := [];
    for i := 0 to |p.terms|
      invariant |lst| == i
      invariant forall j | 0 <= j < i :: lst[j] == NegateTerm(p.terms[j])
    {
      lst := lst + [NegateTerm(p.terms[i])];
    }
    NegatedCoeffs(p.terms, lst);
    r := RatPoly(lst);
  }

  /** A term-by-term negation of a sorted list is sorted and has the
      negated coefficients. */
  lemma NegatedCoeffs(ts: seq<RatTerm>, us: seq<RatTerm>)
    requires Sorted(ts) && |us| == |ts|
    requires forall j | 0 <= j < |ts| :: us[j] == NegateTerm(ts[j])
    ensures Sorted(us)
    ensures forall k: nat :: Coeff(us, k) == Minus(Coeff(ts, k))
  {
    forall k: nat ensures Coeff(us, k) == Minus(Coeff(ts, k)) {
      CoeffIndex(ts, k);
      CoeffIndex(us, k);
    }
  }

  /** Negating twice gives back the polynomial. */
  lemma NegateTwice(p: RatPoly, n: RatPoly, nn: RatPoly)
    requires Valid(p) && Valid(n) && Valid(nn)
    requires forall k: nat :: Coeff(n.terms, k) == Minus(Coeff(p.terms, k))
    requires forall k: nat :: Coeff(nn.terms, k) == Minus(Coeff(n.terms, k))
    ensures nn == p
  {
    CanonicalUnique(nn.terms, p.terms);
  }

  /** List.indexOf: the first position of x, or -1. */
  function IndexOf(ts: seq<RatTerm>, x: RatTerm): (i: int)
    ensures -1 <= i < |ts|
    ensures i >= 0 <==> x in ts
    ensures i >= 0 ==> ts[i] == x
    ensures i >= 0 ==> x !in ts[..i]
  {
    if ts == [] then -1
    else if ts[0] == x then 0
    else var j := IndexOf(ts[1..], x); if j < 0 then -1 else j + 1
  }

  /**
   * add: the coefficient at every exponent is the sum of the two
   * polynomials' coefficients there (NaN when either is NaN).
   */
  method Add(a: RatPoly, p: RatPoly) returns (result: RatPoly)
    requires Valid(a) && Valid(p)
    ensures Valid(result)
    ensures forall k: nat :: Coeff(result.terms, k) == Plus(Coeff(a.terms, k), Coeff(p.terms, k))
  {
    var r := a.terms;
    for j := 0 to |p.terms|
      invariant Sorted(r)
      invariant forall k: nat :: Coeff(r, k) == Plus(Coeff(a.terms, k), Coeff(p.terms[..j], k))
    {
      var term := p.terms[j];
      ghost var before := r;
      AddCommon(r, a.terms, p.terms, j);
      r := AddTermTo(r, a, term);
      AddStep(before, r, a.terms, p.terms, j);
    }
    assert p.terms[..|p.terms|] == p.terms;
    result := RatPoly(r);
  }

  /** r is sorted and holds a plus the first j terms of p. */
  ghost predicate PartialSum(r: seq<RatTerm>, a: seq<RatTerm>, p: seq<RatTerm>, j: nat)
    requires j <= |p|
  {
    Sorted(r) && forall k: nat :: Coeff(r, k) == Plus(Coeff(a, k), Coeff(p[..j], k))
  }

  /** Before term j of p is added, r still has a's coefficient at its
      exponent. */
  lemma AddCommon(r: seq<RatTerm>, a: seq<RatTerm>, p: seq<RatTerm>, j: nat)
    requires Sorted(p) && j < |p| && PartialSum(r, a, p, j)
    ensures Coeff(r, p[j].expt) == Coeff(a, p[j].expt)
  {
    PrefixCoeff(p, j);
  }

  /** Adding term j of p's coefficient at its exponent, and changing no
      other, extends the partial sum by that term. */
  lemma AddStep(r: seq<RatTerm>, r': seq<RatTerm>, a: seq<RatTerm>, p: seq<RatTerm>, j: nat)
    requires Sorted(p) && j < |p| && PartialSum(r, a, p, j) && Inserted(r', r, p[j])
    ensures PartialSum(r', a, p, j + 1)
  {
    PrefixCoeff(p, j);
  }

  /** One pass of add's loop: term is folded into r, which still holds
      a's coefficient at term's exponent. A common term of a is replaced by
      the sum, or removed when the sum is zero; otherwise term is inserted. */
  method AddTermTo(r: seq<RatTerm>, a: RatPoly, term: RatTerm) returns (r': seq<RatTerm>)
    requires Valid(a) && Sorted(r) && Coeff(r, term.expt) == Coeff(a.terms, term.expt)
    ensures Inserted(r', r, term)
  {
    var common := GetTerm(a, term.expt);
    if !IsZero(common) {
      var sum := AddTerms(common, term);
      CommonIsPresent(r, common);
      var idx := IndexOf(r, common);
      if !IsZero(sum) {
        ReplaceAt(r, idx, sum);
        r' := r[idx := sum];
      } else {
        RemoveAt(r, idx);
        r' := r[..idx] + r[idx + 1..];
      }
    } else {
      r' := SortedInsert(r, term);
    }
  }

  /** A non-zero term whose coefficient is the list's coefficient at its
      exponent is in the list. */
  lemma CommonIsPresent(r: seq<RatTerm>, common: RatTerm)
    requires Sorted(r) && !IsZero(common) && Coeff(r, common.expt) == common.coeff
    ensures common in r
  {
    var i := CoeffNonZero(r, common.expt);
    assert r[i] == common;
  }

  /** sub: the coefficient at every exponent is the difference. */
  method Sub(a: RatPoly, p: RatPoly) returns (r: RatPoly)
    requires Valid(a) && Valid(p)
    ensures Valid(r)
    ensures forall k: nat :: Coeff(r.terms, k) == Plus(Coeff(a.terms, k), Minus(Coeff(p.terms, k)))
  {
    var n := Negate(p);
    r := Add(a, n);
  }

  // ---------------------------------------------------------------------
  // mul
  // ---------------------------------------------------------------------

  /** Coefficient k of t * a: t's coefficient times a's coefficient at
      k - t.expt, and zero when a has no term there. */
  function Scaled(t: RatTerm, a: seq<RatTerm>, k: nat): RatNum {
    if k >= t.expt && Coeff(a, k - t.expt) != ZeroNum then Times(t.coeff, Coeff(a, k - t.expt)) else ZeroNum
  }

  /** Coefficient k of a * b: the sum, over the terms t of b, of the
      coefficient k of t * a. */
  function ProductCoeff(a: seq<RatTerm>, b: seq<RatTerm>, k: nat): RatNum
    decreases |b|
  {
    if b == [] then ZeroNum else Plus(ProductCoeff(a, b[..|b| - 1], k), Scaled(b[|b| - 1], a, k))
  }

  /**
   * mul: the coefficients of the product are the convolution of the
   * operands' coefficients. Each term of p times every term of a is
   * sorted-inserted into a fresh list, which is then added to the result.
   */
  method Mul(a: RatPoly, p: RatPoly) returns (r: RatPoly)
    requires Valid(a) && Valid(p)
    ensures Valid(r)
    ensures forall k: nat :: Coeff(r.terms, k) == ProductCoeff(a.terms, p.terms, k)
  {
    r := Zero();
    for j := 0 to |p.terms|
      invariant Valid(r)
      invariant forall k: nat :: Coeff(r.terms, k) == ProductCoeff(a.terms, p.terms[..j], k)
    {
      var term := p.terms[j];
      var lst: seq<RatTerm> := [];
      for i := 0 to |a.terms|
        invariant Sorted(lst)
        invariant forall k: nat :: Coeff(lst, k) == Scaled(term, a.terms[..i], k)
      {
        ghost var before := lst;
        lst := SortedInsert(lst, MulTerms(term, a.terms[i]));
        ScaleStep(before, lst, term, a.terms, i);
      }
      ghost var prev := r;
      r := Add(r, RatPoly(lst));
      ProductStep(prev.terms, r.terms, lst, a.terms, p.terms, j);
    }
    assert p.terms[..|p.terms|] == p.terms;
  }

  /** Inserting term t times term i of a extends t * a[..i] to
      t * a[..i + 1]. */
  lemma ScaleStep(lst: seq<RatTerm>, lst': seq<RatTerm>, t: RatTerm, a: seq<RatTerm>, i: nat)
    requires Sorted(a) && i < |a|
    requires forall k: nat :: Coeff(lst, k) == Scaled(t, a[..i], k)
    requires Inserted(lst', lst, MulTerms(t, a[i]))
    ensures forall k: nat :: Coeff(lst', k) == Scaled(t, a[..i + 1], k)
  {
    PrefixCoeff(a, i);
    forall k: nat ensures Coeff(lst', k) == Scaled(t, a[..i + 1], k) {
      if k == t.expt + a[i].expt {
        assert Coeff(a[..i + 1], a[i].expt) == a[i].coeff;
      }
    }
  }

  /** Adding t * a for term j of p extends a * p[..j] to a * p[..j + 1]. */
  lemma ProductStep(r: seq<RatTerm>, r': seq<RatTerm>, lst: seq<RatTerm>, a: seq<RatTerm>, p: seq<RatTerm>, j: nat)
    requires Sorted(a) && j < |p|
    requires forall k: nat :: Coeff(r, k) == ProductCoeff(a, p[..j], k)
    requires forall k: nat :: Coeff(lst, k) == Scaled(p[j], a[..|a|], k)
    requires forall k: nat :: Coeff(r', k) == Plus(Coeff(r, k), Coeff(lst, k))
    ensures forall k: nat :: Coeff(r', k) == ProductCoeff(a, p[..j + 1], k)
  {
    assert a[..|a|] == a;
    assert p[..j + 1][..j] == p[..j];
  }

  /** The product with the zero polynomial on the left is zero. */
  lemma {:induction false} ProductOfEmpty(b: seq<RatTerm>, k: nat)
    ensures ProductCoeff([], b, k) == ZeroNum
    decreases |b|
  {
    if b != [] {
      ProductOfEmpty(b[..|b| - 1], k);
    }
  }

  /** Without NaN on either side every coefficient of the product is a
      number. */
  lemma {:induction false} ProductIsNum(a: seq<RatTerm>, b: seq<RatTerm>, k: nat)
    requires NaNFree(a) && forall i | 0 <= i < |b| :: b[i].coeff.Num?
    ensures ProductCoeff(a, b, k).Num?
    decreases |b|
  {
    if b != [] {
      var b' := b[..|b| - 1];
      assert forall i | 0 <= i < |b'| :: b'[i] == b[i];
      ProductIsNum(a, b', k);
      var t := b[|b| - 1];
      ScaledIsNum(t, a, k);
    }
  }

  lemma ScaledIsNum(t: RatTerm, a: seq<RatTerm>, k: nat)
    requires NaNFree(a) && t.coeff.Num?
    ensures Scaled(t, a, k).Num?
  {
    if k >= t.expt {
      assert Coeff(a, k - t.expt).Num?;
    }
  }

  /** One NaN summand makes the whole product coefficient NaN. */
  lemma {:induction false} ProductNaN(a: seq<RatTerm>, b: seq<RatTerm>, j: nat, k: nat)
    requires j < |b| && Scaled(b[j], a, k).NaN?
    ensures ProductCoeff(a, b, k).NaN?
    decreases |b|
  {
    if j < |b| - 1 {
      var b' := b[..|b| - 1];
      assert b'[j] == b[j];
      ProductNaN(a, b', j, k);
    }
  }

  /**
   * mul as written propagates NaN only when the other operand is non-zero:
   * the loops never meet the NaN term when either term list is empty.
   */
  lemma MulNaNAsWritten(a: RatPoly, p: RatPoly, r: RatPoly)
    requires Valid(a) && Valid(p) && Valid(r)
    requires forall k: nat :: Coeff(r.terms, k) == ProductCoeff(a.terms, p.terms, k)
    ensures HasNaN(r.terms) <==> (HasNaN(a.terms) && p.terms != []) || (HasNaN(p.terms) && a.terms != [])
  {
    HasNaNIffCoeff(r.terms);
    if HasNaN(a.terms) && p.terms != [] {
      var i :| 0 <= i < |a.terms| && IsNaNTerm(a.terms[i]);
      var k := ProductNaNAt(a.terms, p.terms, i, 0);
      assert !Coeff(r.terms, k).Num?;
    } else if HasNaN(p.terms) && a.terms != [] {
      var j :| 0 <= j < |p.terms| && IsNaNTerm(p.terms[j]);
      var k := ProductNaNAt(a.terms, p.terms, 0, j);
      assert !Coeff(r.terms, k).Num?;
    } else {
      forall k: nat ensures Coeff(r.terms, k).Num? {
        if a.terms == [] {
          ProductOfEmpty(p.terms, k);
        } else if p.terms != [] {
          HasNaNIffCoeff(a.terms);
          ProductIsNum(a.terms, p.terms, k);
        }
      }
    }
  }

  /** A NaN term a[i] or p[j] makes the product NaN at the sum of the two
      exponents. */
  lemma ProductNaNAt(a: seq<RatTerm>, p: seq<RatTerm>, i: nat, j: nat) returns (k: nat)
    requires Sorted(a) && Sorted(p) && i < |a| && j < |p|
    requires IsNaNTerm(a[i]) || IsNaNTerm(p[j])
    ensures ProductCoeff(a, p, k).NaN?
  {
    CoeffIndex(a, a[i].expt);
    k := p[j].expt + a[i].expt;
    assert Scaled(p[j], a, k).NaN?;
    ProductNaN(a, p, j, k);
  }

  /** The discrepancy itself: NaN times zero comes out as the zero
      polynomial, not as NaN. */
  lemma MulNaNByZero(r: RatPoly)
    requires Valid(r)
    requires forall k: nat :: Coeff(r.terms, k) == ProductCoeff(NaNPoly.terms, Zero().terms, k)
    ensures HasNaN(NaNPoly.terms) && r == Zero() && !HasNaN(r.terms)
  {
    assert IsNaNTerm(NaNPoly.terms[0]);
    CanonicalUnique(r.terms, []);
  }

  /**
   * mul with the NaN rule its documentation promises: NaN whenever either
   * operand is NaN, and the product otherwise.
   */
  method MulPropagatingNaN(a: RatPoly, p: RatPoly) returns (r: RatPoly)
    requires Valid(a) && Valid(p)
    ensures Valid(r)
    ensures HasNaN(r.terms) <==> HasNaN(a.terms) || HasNaN(p.terms)
    ensures !HasNaN(a.terms) && !HasNaN(p.terms) ==> forall k: nat :: Coeff(r.terms, k) == ProductCoeff(a.terms, p.terms, k)
  {
    var aNaN := IsNaN(a);
    var pNaN := IsNaN(p);
    if aNaN || pNaN {
      assert IsNaNTerm(NaNPoly.terms[0]);
      return NaNPoly;
    }
    r := Mul(a, p);
    MulNaNAsWritten(a, p, r);
  }

  // ---------------------------------------------------------------------
  // div
  // ---------------------------------------------------------------------

  /** Coefficient k of t * a, at or above t's exponent. */
  lemma ScaledAt(t: RatTerm, a: seq<RatTerm>, k: nat)
    requires k >= t.expt && t.coeff.Num? && Coeff(a, k - t.expt).Num?
    ensures Scaled(t, a, k) == Times(t.coeff, Coeff(a, k - t.expt))
  {
  }

  /** t * (q + d) == t * q + t * d, coefficient by coefficient. */
  lemma ScaledAdditive(t: RatTerm, q: seq<RatTerm>, d: seq<RatTerm>, q': seq<RatTerm>, k: nat)
    requires t.coeff.Num? && NaNFree(q) && NaNFree(d)
    requires forall m: nat :: Coeff(q', m) == Plus(Coeff(q, m), Coeff(d, m))
    ensures Scaled(t, q', k) == Plus(Scaled(t, q, k), Scaled(t, d, k))
  {
    if k >= t.expt {
      var m := k - t.expt;
      var x, y := Coeff(q, m), Coeff(d, m);
      assert x.Num? && y.Num? && Coeff(q', m) == Plus(x, y);
      TimesDistributes(t.coeff, x, y);
      ScaledAt(t, q, k);
      ScaledAt(t, d, k);
      ScaledAt(t, q', k);
    }
  }

  /** c * (x + y) == c * x + c * y on numbers (kept apart so that the
      arithmetic does not meet the recursive definitions in one proof). */
  lemma TimesDistributes(c: RatNum, x: RatNum, y: RatNum)
    requires c.Num? && x.Num? && y.Num?
    ensures Times(c, Plus(x, y)) == Plus(Times(c, x), Times(c, y))
  {
    assert c.value * (x.value + y.value) == c.value * x.value + c.value * y.value;
  }

  /** The product is additive in its left operand, when nothing is NaN. */
  lemma {:induction false} ProductAdditive(q: seq<RatTerm>, d: seq<RatTerm>, q': seq<RatTerm>, p: seq<RatTerm>, k: nat)
    requires NaNFree(q) && NaNFree(d) && forall i | 0 <= i < |p| :: p[i].coeff.Num?
    requires forall m: nat :: Coeff(q', m) == Plus(Coeff(q, m), Coeff(d, m))
    ensures ProductCoeff(q', p, k) == Plus(ProductCoeff(q, p, k), ProductCoeff(d, p, k))
    decreases |p|
  {
    if p != [] {
      var p' := p[..|p| - 1];
      var t := p[|p| - 1];
      assert forall i | 0 <= i < |p'| :: p'[i] == p[i];
      ProductAdditive(q, d, q', p', k);
      ScaledAdditive(t, q, d, q', k);
      ProductIsNum(q, p', k);
      ProductIsNum(d, p', k);
      ScaledIsNum(t, q, k);
      ScaledIsNum(t, d, k);
      PlusInterchange(ProductCoeff(q, p', k), ProductCoeff(d, p', k), Scaled(t, q, k), Scaled(t, d, k));
    }
  }

  /** Adding b and then taking it away again (kept apart for the same
      reason as TimesDistributes). */
  lemma PlusCancel(a: RatNum, b: RatNum, c: RatNum)
    requires a.Num? && b.Num? && c.Num?
    ensures Plus(Plus(a, b), Plus(c, Minus(b))) == Plus(a, c)
  {
  }

  /** (w + x) + (y + z) == (w + y) + (x + z) on numbers (kept apart so that
      the arithmetic does not meet the recursive definitions in one proof). */
  lemma PlusInterchange(w: RatNum, x: RatNum, y: RatNum, z: RatNum)
    requires w.Num? && x.Num? && y.Num? && z.Num?
    ensures Plus(Plus(w, x), Plus(y, z)) == Plus(Plus(w, y), Plus(x, z))
  {
  }

  /** The product with a single non-zero term d shifts p up by d's
      exponent and scales it by d's coefficient. */
  lemma {:induction false} MonomialProduct(d: RatTerm, p: seq<RatTerm>, k: nat)
    requires Sorted(p) && NaNFree(p) && d.coeff.Num? && !IsZero(d)
    ensures ProductCoeff([d], p, k) == Shifted(d, p, k)
    decreases |p|
  {
    if p == [] {
      assert Times(ZeroNum, d.coeff) == ZeroNum;
    } else {
      PrefixNaNFree(p);
      MonomialProduct(d, p[..|p| - 1], k);
      LastStepFacts(d, p, k);
      MonomialStep(d, p, k);
    }
  }

  /** What MonomialStep needs of a sorted NaN-free list. */
  lemma LastStepFacts(d: RatTerm, p: seq<RatTerm>, k: nat)
    requires Sorted(p) && NaNFree(p) && p != []
    ensures k >= d.expt ==> Coeff(p, k - d.expt).Num? && SplitsAtLast(p, k - d.expt)
  {
    if k >= d.expt {
      CoeffLast(p, k - d.expt);
    }
  }

  /** Coefficient k of p shifted up by d's exponent and scaled by d's
      coefficient. */
  function Shifted(d: RatTerm, p: seq<RatTerm>, k: nat): RatNum {
    if k >= d.expt then Times(Coeff(p, k - d.expt), d.coeff) else ZeroNum
  }

  /** Coefficient k of p * d, at or above d's exponent. */
  lemma ShiftedAt(d: RatTerm, p: seq<RatTerm>, k: nat)
    requires k >= d.expt
    ensures Shifted(d, p, k) == Times(Coeff(p, k - d.expt), d.coeff)
  {
  }

  /** Dropping the last term of a sorted NaN-free list keeps it sorted and
      NaN-free. */
  lemma PrefixNaNFree(p: seq<RatTerm>)
    requires Sorted(p) && NaNFree(p) && p != []
    ensures Sorted(p[..|p| - 1]) && NaNFree(p[..|p| - 1])
  {
    var n := |p| - 1;
    PrefixCoeff(p, n);
    assert p[..n + 1] == p;
    forall m: nat ensures Coeff(p[..n], m).Num? {
      if m != p[n].expt {
        assert Coeff(p, m).Num?;
      }
    }
  }

  lemma MonomialStep(d: RatTerm, p: seq<RatTerm>, k: nat)
    requires p != [] && d.coeff.Num? && !IsZero(d)
    requires k >= d.expt ==> Coeff(p, k - d.expt).Num? && SplitsAtLast(p, k - d.expt)
    requires ProductCoeff([d], p[..|p| - 1], k) == Shifted(d, p[..|p| - 1], k)
    ensures ProductCoeff([d], p, k) == Shifted(d, p, k)
  {
    if k >= d.expt {
      MonomialCombine(d, p, k);
    } else {
      MonomialTerm(p[|p| - 1], d, k);
    }
  }

  /** The coefficient of p at m is its last term's when m is that term's
      exponent, where the rest has none, and the rest's otherwise. */
  ghost predicate SplitsAtLast(p: seq<RatTerm>, m: nat)
    requires p != []
  {
    && Coeff(p, m) == (if m == p[|p| - 1].expt then p[|p| - 1].coeff else Coeff(p[..|p| - 1], m))
    && (m == p[|p| - 1].expt ==> Coeff(p[..|p| - 1], m) == ZeroNum)
  }

  /** A sorted list splits at its last term. */
  lemma CoeffLast(p: seq<RatTerm>, m: nat)
    requires Sorted(p) && p != []
    ensures SplitsAtLast(p, m)
  {
    var n := |p| - 1;
    PrefixCoeff(p, n);
    assert p[..n + 1] == p;
  }

  /** At or above d's exponent: the prefix's share plus the last term's
      share of coefficient k of p * d is the whole coefficient. */
  lemma MonomialCombine(d: RatTerm, p: seq<RatTerm>, k: nat)
    requires p != [] && d.coeff.Num? && !IsZero(d)
    requires k >= d.expt && Coeff(p, k - d.expt).Num? && SplitsAtLast(p, k - d.expt)
    ensures Plus(Shifted(d, p[..|p| - 1], k), Scaled(p[|p| - 1], [d], k)) == Shifted(d, p, k)
  {
    MonomialTerm(p[|p| - 1], d, k);
    ShiftedAt(d, p, k);
    ShiftedAt(d, p[..|p| - 1], k);
    MonomialArith(Coeff(p[..|p| - 1], k - d.expt), Coeff(p, k - d.expt), p[|p| - 1].coeff, d.coeff,
                  Scaled(p[|p| - 1], [d], k), k - d.expt == p[|p| - 1].expt);
  }

  /** The arithmetic of MonomialCombine: at the last term's exponent the
      prefix has nothing and the last term its coefficient c; elsewhere the
      last term adds nothing. */
  lemma MonomialArith(before: RatNum, whole: RatNum, c: RatNum, dc: RatNum, here: RatNum, atLast: bool)
    requires whole == if atLast then c else before
    requires atLast ==> before == ZeroNum
    requires here == if atLast then Times(c, dc) else ZeroNum
    requires whole.Num? && dc.Num?
    ensures Plus(Times(before, dc), here) == Times(whole, dc)
  {
  }

  /** One term of p times the single term d. */
  lemma MonomialTerm(s: RatTerm, d: RatTerm, k: nat)
    requires !IsZero(d)
    ensures Scaled(s, [d], k) == if k >= d.expt && k - d.expt == s.expt then Times(s.coeff, d.coeff) else ZeroNum
  {
    if k >= s.expt {
      assert [d][1..] == [];
      assert Coeff([d], k - s.expt) == if d.expt == k - s.expt then d.coeff else ZeroNum;
    }
  }

  /** The quotient of the leading terms is a non-zero number whose product
      with the divisor's leading term is the dividend's leading term. */
  lemma LeadingQuotient(r0: RatTerm, t: RatTerm)
    requires r0.coeff.Num? && t.coeff.Num? && !IsZero(r0) && !IsZero(t) && t.expt <= r0.expt
    ensures DivTerms(r0, t).coeff.Num? && !IsZero(DivTerms(r0, t))
    ensures DivTerms(r0, t).expt + t.expt == r0.expt
    ensures Times(t.coeff, DivTerms(r0, t).coeff) == r0.coeff
  {
    var x, y := r0.coeff.value, t.coeff.value;
    assert y * (x / y) == x;
  }

  /** What d * p is to the remainder r: it has r's leading coefficient at
      r's degree and nothing above. */
  lemma SubtrahendTop(r: RatPoly, p: RatPoly, d: RatTerm, m: RatPoly)
    requires Valid(r) && !HasNaN(r.terms) && r.terms != []
    requires Valid(p) && !HasNaN(p.terms) && p.terms != [] && Degree(r) >= p.terms[0].expt
    requires d == DivTerms(r.terms[0], p.terms[0])
    requires forall k: nat :: Coeff(m.terms, k) == ProductCoeff(FromTerm(d).terms, p.terms, k)
    ensures d.coeff.Num? && !IsZero(d) && d.expt <= Degree(r) && FromTerm(d).terms == [d]
    ensures NaNFree(m.terms)
    ensures Coeff(m.terms, Degree(r)) == r.terms[0].coeff
    ensures forall k: nat | k > Degree(r) :: Coeff(m.terms, k) == ZeroNum
  {
    var t := p.terms[0];
    assert !IsNaNTerm(r.terms[0]) && !IsNaNTerm(t);
    LeadingQuotient(r.terms[0], t);
    assert FromTerm(d).terms == [d];
    HasNaNIffCoeff(p.terms);
    forall k: nat ensures Coeff(m.terms, k) == Shifted(d, p.terms, k) {
      MonomialProduct(d, p.terms, k);
    }
    forall k: nat ensures Coeff(m.terms, k).Num? {
      assert k < d.expt || Coeff(p.terms, k - d.expt).Num?;
    }
    forall k: nat | k > Degree(r) ensures Coeff(m.terms, k) == ZeroNum {
      assert k - d.expt > Degree(p);
    }
  }

  /** One pass of div's loop keeps this == q * p + r and lowers the
      remainder's degree. */
  lemma DivStep(u: RatPoly, p: RatPoly, q: RatPoly, r: RatPoly, d: RatTerm, q': RatPoly, m: RatPoly, r': RatPoly)
    requires Valid(p) && p.terms != [] && !HasNaN(p.terms)
    requires Valid(q) && !HasNaN(q.terms) && Valid(r) && !HasNaN(r.terms)
    requires r.terms != [] && Degree(r) >= p.terms[0].expt
    requires forall k: nat :: Coeff(u.terms, k) == Plus(ProductCoeff(q.terms, p.terms, k), Coeff(r.terms, k))
    requires d == DivTerms(r.terms[0], p.terms[0])
    requires Valid(q') && forall k: nat :: Coeff(q'.terms, k) == Plus(Coeff(q.terms, k), Coeff(FromTerm(d).terms, k))
    requires forall k: nat :: Coeff(m.terms, k) == ProductCoeff(FromTerm(d).terms, p.terms, k)
    requires Valid(r') && forall k: nat :: Coeff(r'.terms, k) == Plus(Coeff(r.terms, k), Minus(Coeff(m.terms, k)))
    ensures !HasNaN(q'.terms) && !HasNaN(r'.terms)
    ensures forall k: nat :: Coeff(u.terms, k) == Plus(ProductCoeff(q'.terms, p.terms, k), Coeff(r'.terms, k))
    ensures r'.terms == [] || Degree(r') < Degree(r)
    ensures forall k: nat | k > Degree(r) :: Coeff(q'.terms, k) == Coeff(q.terms, k)
  {
    SubtrahendTop(r, p, d, m);
    var dl := FromTerm(d).terms;
    DivNaNFree(q, r, dl, q', m, r');
    HasNaNIffCoeff(q.terms);
    HasNaNIffCoeff(r.terms);
    forall k: nat
      ensures Coeff(u.terms, k) == Plus(ProductCoeff(q'.terms, p.terms, k), Coeff(r'.terms, k))
    {
      ProductAdditive(q.terms, dl, q'.terms, p.terms, k);
      ProductIsNum(q.terms, p.terms, k);
      PlusCancel(ProductCoeff(q.terms, p.terms, k), Coeff(m.terms, k), Coeff(r.terms, k));
    }
    DivDegreeDrop(r, d, m, r');
    forall k: nat | k > Degree(r) ensures Coeff(q'.terms, k) == Coeff(q.terms, k) {
      assert Coeff(dl, k) == ZeroNum;
    }
  }

  /** Sums and differences of numbers are numbers. */
  lemma DivNaNFree(q: RatPoly, r: RatPoly, dl: seq<RatTerm>, q': RatPoly, m: RatPoly, r': RatPoly)
    requires Valid(q) && !HasNaN(q.terms) && Valid(r) && !HasNaN(r.terms) && NaNFree(dl) && NaNFree(m.terms)
    requires Valid(q') && forall k: nat :: Coeff(q'.terms, k) == Plus(Coeff(q.terms, k), Coeff(dl, k))
    requires Valid(r') && forall k: nat :: Coeff(r'.terms, k) == Plus(Coeff(r.terms, k), Minus(Coeff(m.terms, k)))
    ensures !HasNaN(q'.terms) && !HasNaN(r'.terms)
  {
    HasNaNIffCoeff(q.terms);
    HasNaNIffCoeff(r.terms);
    HasNaNIffCoeff(q'.terms);
    HasNaNIffCoeff(r'.terms);
    forall k: nat ensures Coeff(q'.terms, k).Num? && Coeff(r'.terms, k).Num? {
      assert Coeff(q.terms, k).Num? && Coeff(r.terms, k).Num? && Coeff(dl, k).Num? && Coeff(m.terms, k).Num?;
    }
  }

  /** The remainder loses its leading term and gains none above it. */
  lemma DivDegreeDrop(r: RatPoly, d: RatTerm, m: RatPoly, r': RatPoly)
    requires Valid(r) && !HasNaN(r.terms) && r.terms != [] && Valid(r')
    requires Coeff(m.terms, Degree(r)) == r.terms[0].coeff
    requires forall k: nat | k > Degree(r) :: Coeff(m.terms, k) == ZeroNum
    requires forall k: nat :: Coeff(r'.terms, k) == Plus(Coeff(r.terms, k), Minus(Coeff(m.terms, k)))
    ensures r'.terms == [] || Degree(r') < Degree(r)
  {
    assert !IsNaNTerm(r.terms[0]);
    forall k: nat | k >= Degree(r) ensures Coeff(r'.terms, k) == ZeroNum {
    }
    DegreeBelow(r', Degree(r));
  }

  /**
   * div: truncating division. NaN when p is zero or either operand is NaN;
   * otherwise the quotient q has a remainder rem (discarded by the source)
   * with this == q * p + rem, rem of lower degree than p, and no term of
   * q above this's degree.
   */
  method Div(u: RatPoly, p: RatPoly) returns (q: RatPoly, ghost rem: RatPoly)
    requires Valid(u) && Valid(p)
    ensures Valid(q)
    ensures HasNaN(q.terms) <==> p.terms == [] || HasNaN(u.terms) || HasNaN(p.terms)
    ensures !HasNaN(q.terms) ==> Valid(rem) && !HasNaN(rem.terms)
    ensures !HasNaN(q.terms) ==> forall k: nat :: Coeff(u.terms, k) == Plus(ProductCoeff(q.terms, p.terms, k), Coeff(rem.terms, k))
    ensures !HasNaN(q.terms) ==> rem.terms == [] || Degree(rem) < Degree(p)
    ensures !HasNaN(q.terms) ==> forall k: nat | k > Degree(u) :: Coeff(q.terms, k) == ZeroNum
  {
    var pNaN := IsNaN(p);
    var uNaN := IsNaN(u);
    if Equals(p, Zero()) || pNaN || uNaN {
      assert IsNaNTerm(NaNPoly.terms[0]);
      return NaNPoly, Zero();
    }
    var r := RatPoly(u.terms);
    q := Zero();
    var t := p.terms[0];
    DivInit(u, p);
    while !Equals(r, Zero()) && Degree(r) >= t.expt
      invariant Valid(r) && !HasNaN(r.terms)
      invariant Valid(q) && !HasNaN(q.terms)
      invariant forall k: nat :: Coeff(u.terms, k) == Plus(ProductCoeff(q.terms, p.terms, k), Coeff(r.terms, k))
      invariant r.terms == [] || Degree(r) <= Degree(u)
      invariant forall k: nat | k > Degree(u) :: Coeff(q.terms, k) == ZeroNum
      decreases if r.terms == [] then 0 else Degree(r) + 1
    {
      var d := DivTerms(r.terms[0], t);
      var dPoly := FromTerm(d);
      var q' := Add(q, dPoly);
      var m := MulPropagatingNaN(dPoly, p);
      var r' := Sub(r, m);
      DivStep(u, p, q, r, d, q', m, r');
      q, r := q', r';
    }
    rem := r;
  }

  /** Before div's loop: q is zero and r is this. */
  lemma DivInit(u: RatPoly, p: RatPoly)
    requires Valid(u) && !HasNaN(u.terms)
    ensures forall k: nat :: Coeff(u.terms, k) == Plus(ProductCoeff([], p.terms, k), Coeff(u.terms, k))
  {
    HasNaNIffCoeff(u.terms);
    forall k: nat ensures Coeff(u.terms, k) == Plus(ProductCoeff([], p.terms, k), Coeff(u.terms, k)) {
      ProductOfEmpty(p.terms, k);
      assert Coeff(u.terms, k).Num?;
    }
  }

  // ---------------------------------------------------------------------
  // differentiate, antiDifferentiate
  // ---------------------------------------------------------------------

  /**
   * differentiate: coefficient k of the derivative is k + 1 times
   * coefficient k + 1; NaN stays NaN. Zero derivatives (of constant
   * terms) are dropped.
   */
  method Differentiate(a: RatPoly) returns (r: RatPoly)
    requires Valid(a)
    ensures Valid(r)
    ensures HasNaN(a.terms) ==> r == NaNPoly
    ensures !HasNaN(a.terms) ==> forall k: nat :: Coeff(r.terms, k) == Times(Coeff(a.terms, k + 1), Num((k + 1) as real))
  {
    var nan := IsNaN(a);
    if nan {
      return NaNPoly;
    }
    var lst: seq<RatTerm> := [];
    for i := 0 to |a.terms|
      invariant Sorted(lst)
      invariant lst != [] ==> i > 0 && lst[|lst| - 1].expt + 1 >= a.terms[i - 1].expt
      invariant forall k: nat :: Coeff(lst, k) == Times(Coeff(a.terms[..i], k + 1), Num((k + 1) as real))
    {
      var derivative := DifferentiateTerm(a.terms[i]);
      if !IsZero(derivative) {
        DeriveAppend(lst, a.terms, i);
        lst := lst + [derivative];
      } else {
        DeriveSkip(lst, a.terms, i);
      }
    }
    assert a.terms[..|a.terms|] == a.terms;
    r := RatPoly(lst);
  }

  /** One pass of differentiate's loop when the derivative of term i is
      zero (a constant term): the list stays as it is. */
  lemma DeriveSkip(lst: seq<RatTerm>, a: seq<RatTerm>, i: nat)
    requires Sorted(a) && i < |a|
    requires lst != [] ==> i > 0 && lst[|lst| - 1].expt + 1 >= a[i - 1].expt
    requires forall k: nat :: Coeff(lst, k) == Times(Coeff(a[..i], k + 1), Num((k + 1) as real))
    requires IsZero(DifferentiateTerm(a[i]))
    ensures lst != [] ==> lst[|lst| - 1].expt + 1 >= a[i].expt
    ensures forall k: nat :: Coeff(lst, k) == Times(Coeff(a[..i + 1], k + 1), Num((k + 1) as real))
  {
    PrefixCoeff(a, i);
    forall k: nat ensures Coeff(lst, k) == Times(Coeff(a[..i + 1], k + 1), Num((k + 1) as real)) {
      DeriveCoeff(Coeff(lst, k), Coeff(lst, k), a[i], Coeff(a[..i], k + 1), Coeff(a[..i + 1], k + 1), k);
    }
  }

  /** One pass of differentiate's loop when the derivative of term i is
      not zero: it goes last, below every exponent already there. */
  lemma DeriveAppend(lst: seq<RatTerm>, a: seq<RatTerm>, i: nat)
    requires Sorted(a) && i < |a| && Sorted(lst)
    requires lst != [] ==> i > 0 && lst[|lst| - 1].expt + 1 >= a[i - 1].expt
    requires forall k: nat :: Coeff(lst, k) == Times(Coeff(a[..i], k + 1), Num((k + 1) as real))
    requires !IsZero(DifferentiateTerm(a[i]))
    ensures Sorted(lst + [DifferentiateTerm(a[i])])
    ensures DifferentiateTerm(a[i]).expt + 1 == a[i].expt
    ensures forall k: nat :: Coeff(lst + [DifferentiateTerm(a[i])], k) == Times(Coeff(a[..i + 1], k + 1), Num((k + 1) as real))
  {
    var x := DifferentiateTerm(a[i]);
    PrefixCoeff(a, i);
    DeriveOrder(lst, a, i);
    AppendLast(lst, x);
    DeriveCoeffs(lst, lst + [x], a[i], a[..i], a[..i + 1]);
  }

  /** The coefficients of DeriveAppend, with the lists named: lst and pre
      before term t, extended and post after it. */
  lemma DeriveCoeffs(lst: seq<RatTerm>, extended: seq<RatTerm>, t: RatTerm, pre: seq<RatTerm>, post: seq<RatTerm>)
    requires !IsZero(DifferentiateTerm(t)) && DifferentiateTerm(t).expt + 1 == t.expt
    requires forall k: nat :: Coeff(lst, k) == Times(Coeff(pre, k + 1), Num((k + 1) as real))
    requires forall k: nat :: Coeff(extended, k) == if k == DifferentiateTerm(t).expt then DifferentiateTerm(t).coeff else Coeff(lst, k)
    requires forall k: nat :: Coeff(post, k) == if k == t.expt then t.coeff else Coeff(pre, k)
    requires Coeff(pre, t.expt) == ZeroNum
    ensures forall k: nat :: Coeff(extended, k) == Times(Coeff(post, k + 1), Num((k + 1) as real))
  {
    forall k: nat ensures Coeff(extended, k) == Times(Coeff(post, k + 1), Num((k + 1) as real)) {
      DeriveCoeff(Coeff(lst, k), Coeff(extended, k), t, Coeff(pre, k + 1), Coeff(post, k + 1), k);
    }
  }

  /** A non-zero derivative of term i lies below every exponent already in
      differentiate's list. */
  lemma DeriveOrder(lst: seq<RatTerm>, a: seq<RatTerm>, i: nat)
    requires Sorted(a) && i < |a| && Sorted(lst)
    requires lst != [] ==> i > 0 && lst[|lst| - 1].expt + 1 >= a[i - 1].expt
    requires !IsZero(DifferentiateTerm(a[i]))
    ensures forall j | 0 <= j < |lst| :: lst[j].expt > DifferentiateTerm(a[i]).expt
  {
    forall j | 0 <= j < |lst| ensures lst[j].expt > DifferentiateTerm(a[i]).expt {
      assert lst[j].expt >= lst[|lst| - 1].expt;
    }
  }

  /** Coefficient k during differentiate's loop, given term t = a[i]: before
      is coefficient k of the list so far, prev and next coefficient k + 1
      of a[..i] and a[..i + 1]. */
  lemma DeriveCoeff(before: RatNum, after: RatNum, t: RatTerm, prev: RatNum, next: RatNum, k: nat)
    requires before == Times(prev, Num((k + 1) as real))
    requires after == if !IsZero(DifferentiateTerm(t)) && k == DifferentiateTerm(t).expt
                      then DifferentiateTerm(t).coeff else before
    requires next == if k + 1 == t.expt then t.coeff else prev
    requires k + 1 == t.expt ==> prev == ZeroNum
    ensures after == Times(next, Num((k + 1) as real))
  {
  }

  /**
   * antiDifferentiate: coefficient k + 1 of the antiderivative is
   * coefficient k divided by k + 1, and its constant is the given one;
   * NaN stays NaN.
   */
  method AntiDifferentiate(a: RatPoly, c: RatNum) returns (r: RatPoly)
    requires Valid(a)
    ensures Valid(r)
    ensures HasNaN(a.terms) ==> r == NaNPoly
    ensures !HasNaN(a.terms) ==> Coeff(r.terms, 0) == c
    ensures !HasNaN(a.terms) ==> forall k: nat :: Coeff(r.terms, k + 1) == Quotient(Coeff(a.terms, k), Num((k + 1) as real))
  {
    var nan := IsNaN(a);
    if nan {
      return NaNPoly;
    }
    var lst: seq<RatTerm> := [];
    for i := 0 to |a.terms|
      invariant |lst| == i
      invariant forall j | 0 <= j < i :: lst[j] == AntiDifferentiateTerm(a.terms[j])
    {
      lst := lst + [AntiDifferentiateTerm(a.terms[i])];
    }
    AntiDerivedCoeffs(a.terms, lst);
    if c != ZeroNum {
      var constant := RatTerm(c, 0);
      AppendLast(lst, constant);
      lst := lst + [constant];
    }
    r := RatPoly(lst);
  }

  /** Term-by-term antiderivatives of a sorted list are sorted, all of
      exponent one or more, with the divided coefficients. */
  lemma AntiDerivedCoeffs(ts: seq<RatTerm>, us: seq<RatTerm>)
    requires Sorted(ts) && |us| == |ts|
    requires forall j | 0 <= j < |ts| :: us[j] == AntiDifferentiateTerm(ts[j])
    ensures Sorted(us)
    ensures forall j | 0 <= j < |us| :: us[j].expt > 0
    ensures Coeff(us, 0) == ZeroNum
    ensures forall k: nat :: Coeff(us, k + 1) == Quotient(Coeff(ts, k), Num((k + 1) as real))
  {
    AntiDerivedSorted(ts, us);
    CoeffIndex(us, 0);
    forall k: nat ensures Coeff(us, k + 1) == Quotient(Coeff(ts, k), Num((k + 1) as real)) {
      AntiDerivedCoeff(ts, us, k);
    }
  }

  /** The antiderivative terms keep the order and are never zero. */
  lemma AntiDerivedSorted(ts: seq<RatTerm>, us: seq<RatTerm>)
    requires Sorted(ts) && |us| == |ts|
    requires forall j | 0 <= j < |ts| :: us[j] == AntiDifferentiateTerm(ts[j])
    ensures Sorted(us)
  {
    forall j | 0 <= j < |us| ensures !IsZero(us[j]) {
      QuotientNonZero(ts[j].coeff, (ts[j].expt + 1) as real);
    }
  }

  /** One coefficient of the term-by-term antiderivative. */
  lemma AntiDerivedCoeff(ts: seq<RatTerm>, us: seq<RatTerm>, k: nat)
    requires Sorted(ts) && Sorted(us) && |us| == |ts|
    requires forall j | 0 <= j < |ts| :: us[j] == AntiDifferentiateTerm(ts[j])
    ensures Coeff(us, k + 1) == Quotient(Coeff(ts, k), Num((k + 1) as real))
  {
    CoeffIndex(ts, k);
    CoeffIndex(us, k + 1);
  }

  /** A non-zero coefficient divided by a positive number is not zero. */
  lemma QuotientNonZero(x: RatNum, y: real)
    requires x != ZeroNum && y > 0.0
    ensures Quotient(x, Num(y)) != ZeroNum
  {
    if x.Num? {
      assert (x.value / y) * y == x.value;
    }
  }

  /** Differentiating an antiderivative gives the polynomial back. */
  lemma DifferentiateAntiDifferentiate(a: RatPoly, c: RatNum, i: RatPoly, d: RatPoly)
    requires Valid(a) && !HasNaN(a.terms) && c.Num?
    requires Valid(i) && Coeff(i.terms, 0) == c
    requires forall k: nat :: Coeff(i.terms, k + 1) == Quotient(Coeff(a.terms, k), Num((k + 1) as real))
    requires Valid(d) && (!HasNaN(i.terms) ==> forall k: nat :: Coeff(d.terms, k) == Times(Coeff(i.terms, k + 1), Num((k + 1) as real)))
    ensures !HasNaN(i.terms) && d == a
  {
    HasNaNIffCoeff(a.terms);
    HasNaNIffCoeff(i.terms);
    forall k: nat ensures Coeff(i.terms, k).Num? {
      if k > 0 {
        assert Coeff(a.terms, k - 1).Num?;
        assert Coeff(i.terms, (k - 1) + 1) == Quotient(Coeff(a.terms, k - 1), Num(k as real));
      }
    }
    forall k: nat ensures Coeff(d.terms, k) == Coeff(a.terms, k) {
      QuotientTimes(Coeff(a.terms, k), k);
    }
    CanonicalUnique(d.terms, a.terms);
  }

  /** Dividing a number by k + 1 and multiplying it back. */
  lemma QuotientTimes(x: RatNum, k: nat)
    requires x.Num?
    ensures Times(Quotient(x, Num((k + 1) as real)), Num((k + 1) as real)) == x
  {
    var y := (k + 1) as real;
    assert (x.value / y) * y == x.value;
  }

  /** Antidifferentiating a derivative gives the polynomial back above the
      constant, which becomes the given one. */
  lemma AntiDifferentiateDifferentiate(a: RatPoly, d: RatPoly, c: RatNum, i: RatPoly)
    requires Valid(a) && !HasNaN(a.terms)
    requires Valid(d) && forall k: nat :: Coeff(d.terms, k) == Times(Coeff(a.terms, k + 1), Num((k + 1) as real))
    requires Valid(i) && (!HasNaN(d.terms) ==> Coeff(i.terms, 0) == c)
    requires !HasNaN(d.terms) ==> forall k: nat :: Coeff(i.terms, k + 1) == Quotient(Coeff(d.terms, k), Num((k + 1) as real))
    ensures !HasNaN(d.terms) && Coeff(i.terms, 0) == c
    ensures forall k: nat | k > 0 :: Coeff(i.terms, k) == Coeff(a.terms, k)
  {
    HasNaNIffCoeff(a.terms);
    HasNaNIffCoeff(d.terms);
    forall k: nat ensures Coeff(d.terms, k).Num? {
      assert Coeff(a.terms, k + 1).Num?;
    }
    forall k: nat | k > 0 ensures Coeff(i.terms, k) == Coeff(a.terms, k) {
      assert Coeff(a.terms, k).Num?;
      assert Coeff(d.terms, k - 1) == Times(Coeff(a.terms, k), Num(k as real));
      assert Coeff(i.terms, k) == Quotient(Coeff(d.terms, k - 1), Num(k as real));
      TimesThenQuotient(Coeff(a.terms, k), k as real);
    }
  }

  /** Multiplying a number by y and dividing by y gives it back. */
  lemma TimesThenQuotient(x: RatNum, y: real)
    requires x.Num? && y > 0.0
    ensures Quotient(Times(x, Num(y)), Num(y)) == x
  {
    assert (x.value * y) / y == x.value;
  }
}
