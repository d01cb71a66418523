/** The scalar field of BLS12-381: the integers modulo the prime r.

    Elements are kept in canonical form 0 <= x < P.  Inversion follows Fermat's
    little theorem, Inv(a) = a^(P-2); an element is a unit when it times its
    inverse is 1.  Because P is prime, the units are exactly the non-zero
    elements; the model does not prove the primality of P, so every statement
    that needs an inverse says "unit" where the field would say "non-zero". */
module Field {

  const P: nat := 0x73eda753299d7d483339d80809a1d80553bda402fffe5bfeffffffff00000001

  type Fe = x: int | 0 <= x < P

  function Add(a: Fe, b: Fe): Fe { (a + b) % P }

  function Neg(a: Fe): Fe { (P - a) % P }

  function Sub(a: Fe, b: Fe): Fe { (a - b) % P }

  function Mul(a: Fe, b: Fe): Fe { (a * b) % P }

  /** a^e. */
  function Pow(a: Fe, e: nat): Fe
    decreases e
  {
    if e == 0 then 1 else Mul(a, Pow(a, e - 1))
  }

  /** The multiplicative inverse of a unit (Fermat). */
  function Inv(a: Fe): Fe { Pow(a, P - 2) }

  predicate IsUnit(a: Fe) { Mul(a, Inv(a)) == 1 }

  /** Field division as arkworks performs it: a * b^-1, failing when b has no
      inverse (for the prime P: when b is zero). */
  function Div(a: Fe, b: Fe): (r: Option<Fe>)
    ensures r.Some? <==> IsUnit(b)
    ensures r.Some? ==> Mul(r.value, b) == a
  {
    if IsUnit(b) then
      DivSound(a, b);
      Some(Mul(a, Inv(b)))
    else None
  }

  lemma DivSound(a: Fe, b: Fe)
    requires IsUnit(b)
    ensures Mul(Mul(a, Inv(b)), b) == a
  {
    var ib := Inv(b);
    MulAssoc(a, ib, b);
    MulComm(ib, b);
    assert Mul(ib, b) == 1;
    MulOne(a);
  }

  datatype Option<T> = None | Some(value: T)

  // ---------------------------------------------------------------------
  // Reduction modulo P

  lemma ModMultiple(k: int, z: int)
    ensures (k * P + z) % P == z % P
  {
  }

  lemma ModSmall(z: int)
    requires 0 <= z < P
    ensures z % P == z
  {
  }

  lemma ModMulLeft(x: int, y: int)
    ensures ((x % P) * y) % P == (x * y) % P
  {
    var q := x / P;
    var r := x % P;
    assert x == q * P + r;
    assert x * y == (q * y) * P + r * y by {
      assert x * y == (q * P + r) * y;
    }
    ModMultiple(q * y, r * y);
  }

  lemma ModAdd(x: int, y: int)
    ensures ((x % P) + (y % P)) % P == (x + y) % P
  {
    ModMultiple(x / P + y / P, (x % P) + (y % P));
  }

  lemma ModSub(x: int, y: int)
    ensures ((x % P) - (y % P)) % P == (x - y) % P
  {
    ModMultiple(x / P - y / P, (x % P) - (y % P));
  }

  lemma ModMulRight(x: int, y: int)
    ensures (x * (y % P)) % P == (x * y) % P
  {
    ModMulLeft(y, x);
  }

  /** The field operations on reduced values agree with the integer
      operations reduced afterwards. */
  lemma AddOfMods(u: int, v: int, wu: Fe, wv: Fe)
    requires wu == u % P && wv == v % P
    ensures Add(wu, wv) == (u + v) % P
  {
    ModAdd(u, v);
  }

  lemma SubOfMods(u: int, v: int, wu: Fe, wv: Fe)
    requires wu == u % P && wv == v % P
    ensures Sub(wu, wv) == (u - v) % P
  {
    ModSub(u, v);
  }

  lemma MulOfMods(u: int, v: int, wu: Fe, wv: Fe)
    requires wu == u % P && wv == v % P
    ensures Mul(wu, wv) == (u * v) % P
  {
    ModMulLeft(u, v);
    ModMulRight(u % P, v);
  }

  // ---------------------------------------------------------------------
  // Ring laws

  lemma AddComm(a: Fe, b: Fe)
    ensures Add(a, b) == Add(b, a)
  {
  }

  lemma AddAssoc(a: Fe, b: Fe, c: Fe)
    ensures Add(Add(a, b), c) == Add(a, Add(b, c))
  {
    ModSmall(a);
    ModSmall(c);
    AddOfMods(a + b, c, Add(a, b), c);
    AddOfMods(a, b + c, a, Add(b, c));
    assert (a + b) + c == a + (b + c);
  }

  lemma MulComm(a: Fe, b: Fe)
    ensures Mul(a, b) == Mul(b, a)
  {
  }

  lemma MulAssoc(a: Fe, b: Fe, c: Fe)
    ensures Mul(Mul(a, b), c) == Mul(a, Mul(b, c))
  {
    ModMulLeft(a * b, c);
    ModMulRight(a, b * c);
    assert (a * b) * c == a * (b * c);
  }

  lemma MulOne(a: Fe)
    ensures Mul(a, 1) == a && Mul(1, a) == a
  {
  }

  lemma MulZero(a: Fe)
    ensures Mul(a, 0) == 0 && Mul(0, a) == 0
  {
  }

  lemma Distrib(a: Fe, b: Fe, c: Fe)
    ensures Mul(a, Add(b, c)) == Add(Mul(a, b), Mul(a, c))
  {
    var bc: int := b + c;
    var ab: int, ac: int := a * b, a * c;
    ModSmall(a);
    MulOfMods(a, bc, a, Add(b, c));
    assert a * bc == ab + ac;
    AddOfMods(ab, ac, Mul(a, b), Mul(a, c));
  }

  lemma DistribRight(a: Fe, b: Fe, c: Fe)
    ensures Mul(Add(a, b), c) == Add(Mul(a, c), Mul(b, c))
  {
    Distrib(c, a, b);
  }

  lemma DistribSub(a: Fe, b: Fe, c: Fe)
    ensures Mul(a, Sub(b, c)) == Sub(Mul(a, b), Mul(a, c))
  {
    var ab, ac := a * b, a * c;
    var s := Sub(b, c);
    assert s == (b - c) % P;
    ModMulRight(a, b - c);
    assert Mul(a, s) == (a * (b - c)) % P;
    assert a * (b - c) == ab - ac;
    ModSub(ab, ac);
    assert Sub(Mul(a, b), Mul(a, c)) == ((ab % P) - (ac % P)) % P;
  }

  lemma AddSwap(a: Fe, b: Fe, c: Fe, d: Fe)
    ensures Add(Add(a, b), Add(c, d)) == Add(Add(a, c), Add(b, d))
  {
    AddOfMods(a + b, c + d, Add(a, b), Add(c, d));
    AddOfMods(a + c, b + d, Add(a, c), Add(b, d));
    assert (a + b) + (c + d) == (a + c) + (b + d);
  }

  lemma SubSwap(a: Fe, b: Fe, c: Fe, d: Fe)
    ensures Add(Sub(a, b), Sub(c, d)) == Sub(Add(a, c), Add(b, d))
  {
    AddOfMods(a - b, c - d, Sub(a, b), Sub(c, d));
    SubOfMods(a + c, b + d, Add(a, c), Add(b, d));
    assert (a - b) + (c - d) == (a + c) - (b + d);
  }

  lemma AddZero(a: Fe)
    ensures Add(a, 0) == a && Add(0, a) == a && Sub(a, 0) == a
  {
  }

  lemma AddSubCancel(a: Fe, b: Fe)
    ensures Sub(Add(a, b), b) == a
    ensures Add(Sub(a, b), b) == a
    ensures Add(Sub(0, b), Add(a, b)) == a
    ensures Sub(a, a) == 0
  {
    ModSmall(a);
    ModSmall(b);
    ModSmall(0);
    SubOfMods(a + b, b, Add(a, b), b);
    assert (a + b) - b == a;
    AddOfMods(a - b, b, Sub(a, b), b);
    assert (a - b) + b == a;
    AddOfMods(0 - b, a + b, Sub(0, b), Add(a, b));
    assert (0 - b) + (a + b) == a;
    assert a - a == 0;
  }

  lemma SyntheticDivisionInt(c: int, x: int, a: int, ta: int, qt: int)
    ensures c + x * ((x - a) * qt + ta) == (x - a) * (ta + x * qt) + (c + a * ta)
  {
    var s := x - a;
    assert x * (s * qt + ta) == x * (s * qt) + x * ta;
    assert s * (ta + x * qt) == s * ta + s * (x * qt);
    assert x * (s * qt) == s * (x * qt);
    assert s * ta + a * ta == x * ta;
  }

  /** The field identity behind one step of synthetic division by x - a. */
  lemma SyntheticDivisionStep(c: Fe, x: Fe, a: Fe, ta: Fe, qt: Fe)
    ensures Add(c, Mul(x, Add(Mul(Sub(x, a), qt), ta)))
         == Add(Mul(Sub(x, a), Add(ta, Mul(x, qt))), Add(c, Mul(a, ta)))
  {
    var s: int := x - a;
    var sq: int := s * qt;
    var e: int := sq + ta;
    var xe: int := x * e;
    var xq: int := x * qt;
    var f: int := ta + xq;
    var sf: int := s * f;
    var at: int := a * ta;
    ModSmall(c);
    ModSmall(ta);
    ModSmall(x);
    ModSmall(qt);
    ModSmall(a);
    var l0 := Sub(x, a);
    SubOfMods(x, a, x, a);
    var l1 := Mul(l0, qt);
    MulOfMods(s, qt, l0, qt);
    var l2 := Add(l1, ta);
    AddOfMods(sq, ta, l1, ta);
    var l3 := Mul(x, l2);
    MulOfMods(x, e, x, l2);
    var l4 := Add(c, l3);
    AddOfMods(c, xe, c, l3);
    var r0 := Mul(x, qt);
    MulOfMods(x, qt, x, qt);
    var r1 := Add(ta, r0);
    AddOfMods(ta, xq, ta, r0);
    var r2 := Mul(l0, r1);
    MulOfMods(s, f, l0, r1);
    var r5 := Mul(a, ta);
    MulOfMods(a, ta, a, ta);
    var r3 := Add(c, r5);
    AddOfMods(c, at, c, r5);
    var r4 := Add(r2, r3);
    AddOfMods(sf, c + at, r2, r3);
    SyntheticDivisionInt(c, x, a, ta, qt);
    assert c + xe == sf + (c + at);
  }

  lemma AddSubChain(e: Fe, a: Fe, c: Fe)
    ensures Add(Sub(e, a), Sub(a, c)) == Sub(e, c)
  {
    ModSmall(e);
    ModSmall(a);
    ModSmall(c);
    SubOfMods(e, a, e, a);
    SubOfMods(a, c, a, c);
    AddOfMods(e - a, a - c, Sub(e, a), Sub(a, c));
  }

  /** Moving a factor t into the middle of g * (e * s). */
  lemma MulRotate(g: Fe, e: Fe, s: Fe, t: Fe)
    ensures Mul(Mul(g, Mul(e, s)), t) == Mul(g, Mul(Mul(t, e), s))
  {
    MulAssoc(g, Mul(e, s), t);
    MulAssoc(e, s, t);
    MulComm(s, t);
    MulAssoc(e, t, s);
    MulComm(e, t);
  }

  /** g * (q * s) * z + g * (r * s) == g * ((q * z + r) * s). */
  lemma MulAddFactor(g: Fe, q: Fe, s: Fe, z: Fe, r: Fe)
    ensures Add(Mul(Mul(g, Mul(q, s)), z), Mul(g, Mul(r, s))) == Mul(g, Mul(Add(Mul(q, z), r), s))
  {
    MulRotate(g, q, s, z);
    MulComm(z, q);
    DistribRight(Mul(q, z), r, s);
    Distrib(g, Mul(Mul(q, z), s), Mul(r, s));
  }

  lemma SubIsAddNeg(a: Fe, b: Fe)
    ensures Sub(a, b) == Add(a, Neg(b))
  {
  }

  lemma MulNeg(a: Fe, b: Fe)
    ensures Mul(a, Neg(b)) == Neg(Mul(a, b))
  {
    var ab := a * b;
    var m := Mul(a, b);
    assert m == ab % P;
    if b == 0 {
      assert Neg(b) == 0;
      MulZero(a);
    } else {
      assert Neg(b) == P - b;
      assert Mul(a, Neg(b)) == (a * (P - b)) % P;
      assert a * (P - b) == (a - 1 - ab / P) * P + (P - m) by {
        assert ab == (ab / P) * P + m;
        assert a * (P - b) == a * P - ab;
      }
      ModMultiple(a - 1 - ab / P, P - m);
      assert Neg(m) == (P - m) % P;
    }
  }

  lemma MulSwap(a: Fe, b: Fe, c: Fe, d: Fe)
    ensures Mul(Mul(a, b), Mul(c, d)) == Mul(Mul(a, c), Mul(b, d))
  {
    MulAssoc(a, b, Mul(c, d));
    MulAssoc(b, c, d);
    MulComm(b, c);
    MulAssoc(c, b, d);
    MulAssoc(a, c, Mul(b, d));
  }

  // ---------------------------------------------------------------------
  // Powers and units

  lemma {:induction false} PowMul(a: Fe, b: Fe, e: nat)
    ensures Pow(Mul(a, b), e) == Mul(Pow(a, e), Pow(b, e))
    decreases e
  {
    if e != 0 {
      PowMul(a, b, e - 1);
      MulSwap(a, b, Pow(a, e - 1), Pow(b, e - 1));
    }
  }

  lemma {:induction false} PowOne(e: nat)
    ensures Pow(1, e) == 1
    decreases e
  {
    if e != 0 {
      PowOne(e - 1);
    }
  }

  lemma {:induction false} PowAdd(a: Fe, i: nat, j: nat)
    ensures Pow(a, i + j) == Mul(Pow(a, i), Pow(a, j))
    decreases i
  {
    if i == 0 {
      MulOne(Pow(a, j));
    } else {
      PowAdd(a, i - 1, j);
      assert i + j - 1 == (i - 1) + j;
      MulAssoc(a, Pow(a, i - 1), Pow(a, j));
    }
  }

  lemma OneIsUnit()
    ensures IsUnit(1)
  {
    PowOne(P - 2);
  }

  lemma ZeroIsNotUnit()
    ensures !IsUnit(0)
  {
  }

  /** Units are closed under multiplication. */
  lemma UnitMul(a: Fe, b: Fe)
    requires IsUnit(a) && IsUnit(b)
    ensures IsUnit(Mul(a, b))
    ensures Inv(Mul(a, b)) == Mul(Inv(a), Inv(b))
  {
    PowMul(a, b, P - 2);
    assert Inv(Mul(a, b)) == Mul(Inv(a), Inv(b));
    MulSwap(a, b, Inv(a), Inv(b));
    assert Mul(Mul(a, b), Mul(Inv(a), Inv(b))) == Mul(Mul(a, Inv(a)), Mul(b, Inv(b)));
    MulOne(1);
  }

  /** The inverse of a unit is a unit. */
  lemma UnitInv(a: Fe)
    requires IsUnit(a)
    ensures IsUnit(Inv(a)) && Mul(Inv(a), a) == 1
  {
    PowMul(a, Inv(a), P - 2);
    PowOne(P - 2);
    MulComm(a, Inv(a));
    MulComm(Inv(a), Inv(Inv(a)));
    MulAssoc(Inv(a), a, Inv(Inv(a)));
  }

  /** A unit can be cancelled from both sides of an equation. */
  lemma UnitCancel(a: Fe, x: Fe, y: Fe)
    requires IsUnit(a) && Mul(a, x) == Mul(a, y)
    ensures x == y
  {
    UnitInv(a);
    MulAssoc(Inv(a), a, x);
    MulAssoc(Inv(a), a, y);
    MulOne(x);
    MulOne(y);
  }

  /** Dividing by a unit: u * z == v exactly when z is v / u. */
  lemma UnitSolve(u: Fe, z: Fe, v: Fe)
    requires IsUnit(u)
    ensures Mul(u, z) == v <==> z == Mul(v, Inv(u))
  {
    var iu := Inv(u);
    if Mul(u, z) == v {
      MulComm(u, z);
      MulAssoc(z, u, iu);
      MulOne(z);
    }
    if z == Mul(v, iu) {
      MulComm(v, iu);
      MulAssoc(u, iu, v);
      MulOne(v);
    }
  }

  /** Multiplying by a unit never produces zero from a non-zero element. */
  lemma UnitNoZeroDivisor(a: Fe, x: Fe)
    requires IsUnit(a) && Mul(a, x) == 0
    ensures x == 0
  {
    MulZero(a);
    UnitCancel(a, x, 0);
  }

  // ---------------------------------------------------------------------
  // Sums

  /** The sum of f over xs, accumulated left to right. */
  function SumBy<T>(xs: seq<T>, f: T -> Fe): Fe
  {
    if xs == [] then 0 else Add(SumBy(xs[..|xs| - 1], f), f(xs[|xs| - 1]))
  }

  /** The sum of the products a[k] * b[k]. */
  function InnerProduct(a: seq<Fe>, b: seq<Fe>): Fe
    requires |a| == |b|
  {
    if a == [] then 0
    else Add(InnerProduct(a[..|a| - 1], b[..|b| - 1]), Mul(a[|a| - 1], b[|b| - 1]))
  }

  lemma {:induction false} SumByAppend<T>(xs: seq<T>, ys: seq<T>, f: T -> Fe)
    ensures SumBy(xs + ys, f) == Add(SumBy(xs, f), SumBy(ys, f))
    decreases |ys|
  {
    if ys == [] {
      assert xs + ys == xs;
    } else {
      var zs := xs + ys;
      assert zs[..|zs| - 1] == xs + ys[..|ys| - 1];
      SumByAppend(xs, ys[..|ys| - 1], f);
      AddAssoc(SumBy(xs, f), SumBy(ys[..|ys| - 1], f), f(ys[|ys| - 1]));
    }
  }

  lemma SumBySingle<T>(x: T, f: T -> Fe)
    ensures SumBy([x], f) == f(x)
  {
    assert [x][..0] == [];
  }

  lemma MultisetRemove<T>(ys: seq<T>, j: nat)
    requires j < |ys|
    ensures multiset(ys[..j] + ys[j + 1..]) == multiset(ys) - multiset{ys[j]}
  {
    assert ys == ys[..j] + [ys[j]] + ys[j + 1..];
    assert multiset(ys) == multiset(ys[..j]) + multiset{ys[j]} + multiset(ys[j + 1..]);
  }

  lemma PrefixSnoc<T>(s: seq<T>, prefix: seq<T>, m: nat)
    requires 0 < m <= |s| && prefix == s[..m - 1]
    ensures prefix + [s[m - 1]] == s[..m]
  {
  }

  lemma SplitAt<T>(ys: seq<T>, j: nat)
    requires j < |ys|
    ensures ys == ys[..j] + ([ys[j]] + ys[j + 1..])
  {
  }

  lemma DropLastAppend<T>(a: seq<T>, b: seq<T>)
    requires b != []
    ensures (a + b)[..|a + b| - 1] == a + b[..|b| - 1]
  {
  }

  /** A summand in the middle can be added last. */
  lemma SumByInsert<T>(xs: seq<T>, x: T, ys: seq<T>, f: T -> Fe)
    ensures SumBy(xs + ([x] + ys), f) == Add(SumBy(xs + ys, f), f(x))
  {
    var a, b := SumBy(xs, f), SumBy(ys, f);
    SumByAppend(xs, [x] + ys, f);
    SumByAppend([x], ys, f);
    SumBySingle(x, f);
    SumByAppend(xs, ys, f);
    AddComm(f(x), b);
    AddAssoc(a, b, f(x));
  }

  /** Taking summand j out of the sum and adding it back. */
  lemma SumByRemove<T>(ys: seq<T>, j: nat, f: T -> Fe)
    requires j < |ys|
    ensures SumBy(ys, f) == Add(SumBy(ys[..j] + ys[j + 1..], f), f(ys[j]))
  {
    SplitAt(ys, j);
    SumByInsert(ys[..j], ys[j], ys[j + 1..], f);
  }

  /** Summation does not depend on the order of the summands. */
  lemma {:induction false} SumByPermutation<T>(xs: seq<T>, ys: seq<T>, f: T -> Fe)
    requires multiset(xs) == multiset(ys)
    ensures SumBy(xs, f) == SumBy(ys, f)
    decreases |xs|
  {
    if xs != [] {
      var last := xs[|xs| - 1];
      var init := xs[..|xs| - 1];
      assert last in multiset(ys);
      var j :| 0 <= j < |ys| && ys[j] == last;
      var rest := ys[..j] + ys[j + 1..];
      MultisetRemove(xs, |xs| - 1);
      MultisetRemove(ys, j);
      assert xs[..|xs| - 1] + xs[|xs|..] == init;
      SumByPermutation(init, rest, f);
      SumByRemove(ys, j, f);
    }
  }

  lemma {:induction false} InnerProductAppend(a: seq<Fe>, b: seq<Fe>, c: seq<Fe>, d: seq<Fe>)
    requires |a| == |c| && |b| == |d|
    ensures InnerProduct(a + b, c + d) == Add(InnerProduct(a, c), InnerProduct(b, d))
    decreases |b|
  {
    if b == [] {
      assert a + b == a && c + d == c;
    } else {
      var b', d' := b[..|b| - 1], d[..|d| - 1];
      var x := Mul(b[|b| - 1], d[|d| - 1]);
      DropLastAppend(a, b);
      DropLastAppend(c, d);
      assert (a + b)[|a + b| - 1] == b[|b| - 1] && (c + d)[|c + d| - 1] == d[|d| - 1];
      assert InnerProduct(a + b, c + d) == Add(InnerProduct(a + b', c + d'), x);
      InnerProductAppend(a, b', c, d');
      AddAssoc(InnerProduct(a, c), InnerProduct(b', d'), x);
    }
  }
}
