/**
 Bytes as elements of GF(2^8) (FIPS 197 section 4.2): addition, multiplication by repeated doubling as
 in Aes_ECB.cpp, and the products that mixing columns needs.
 */
module AesField {
  import opened Octets

  /** The polynomial 0x1B. */
  const REDUCER := Octet(false, false, false, true, true, false, true, true)

  /** Multiplication by x, reduced by x^8 + x^4 + x^3 + x + 1. */
  function XTime(v: Octet): Octet {
    Octet(v.b6, v.b5, v.b4, v.b3 != v.b7, v.b2 != v.b7, v.b1, v.b0 != v.b7, v.b7)
  }

  lemma {:induction false} XTimeReduces(v: Octet)
    ensures XTime(v) == if v.b7 then Add(ShiftLeft(v), REDUCER) else ShiftLeft(v)
  {
  }

  /** v if the lowest bit of u is set, else 0. */
  function Chosen(u: Octet, v: Octet): Octet {
    if u.b0 then v else ZERO
  }

  /** The sum of v * x^i over the bits i < n that are set in u. */
  function Times(u: Octet, v: Octet, n: nat): Octet
    decreases n, u, v
  {
    if n == 0 then ZERO else Add(Chosen(u, v), Times(ShiftRight(u), XTime(v), n - 1))
  }

  /** p plus n doubling steps of u and v is the product. */
  ghost predicate Pending(p: Octet, u: Octet, v: Octet, n: nat, product: Octet) {
    Add(p, Times(u, v, n)) == product
  }

  method GMul(u0: Octet, v0: Octet) returns (p: Octet)
    ensures p == Times(u0, v0, 8)
  {
    ghost var product := Times(u0, v0, 8);
    p := ZERO;
    var u, v := u0, v0;
    StartPending(u, v);
    var i := 0;
    while i < 8
      invariant 0 <= i <= 8 && Pending(p, u, v, 8 - i, product)
    {
      p, u, v := GMulStep(p, u, v, 8 - i, product);
      i := i + 1;
    }
    EndPending(p, u, v, product);
  }

  lemma {:induction false} StartPending(u: Octet, v: Octet)
    ensures Pending(ZERO, u, v, 8, Times(u, v, 8))
  {
    AddZero(Times(u, v, 8));
  }

  lemma {:induction false} EndPending(p: Octet, u: Octet, v: Octet, product: Octet)
    requires Pending(p, u, v, 0, product)
    ensures p == product
  {
    AddZero(p);
  }

  /** One bit of u. */
  method GMulStep(p0: Octet, u0: Octet, v0: Octet, ghost n: nat, ghost product: Octet)
    returns (p: Octet, u: Octet, v: Octet)
    requires n > 0 && Pending(p0, u0, v0, n, product)
    ensures Pending(p, u, v, n - 1, product)
  {
    TimesStep(p0, u0, v0, n);
    p := p0;
    if u0.b0 {
      p := Add(p, v0);
    }
    v := Double(v0);
    u := ShiftRight(u0);
  }

  method Double(v0: Octet) returns (v: Octet)
    ensures v == XTime(v0)
  {
    XTimeReduces(v0);
    v := ShiftLeft(v0);
    if v0.b7 {
      v := Add(v, REDUCER);
    }
  }

  lemma {:induction false} TimesStep(p: Octet, u: Octet, v: Octet, n: nat)
    requires n > 0
    ensures Add(p, Times(u, v, n)) == Add(if u.b0 then Add(p, v) else p, Times(ShiftRight(u), XTime(v), n - 1))
  {
    AddAssoc(p, Chosen(u, v), Times(ShiftRight(u), XTime(v), n - 1));
    AddZero(p);
  }

  lemma {:induction false} XTimeSum(a: Octet, b: Octet)
    ensures XTime(Add(a, b)) == Add(XTime(a), XTime(b))
  {
  }

  lemma {:induction false} ChosenSum(u: Octet, a: Octet, b: Octet)
    ensures Chosen(u, Add(a, b)) == Add(Chosen(u, a), Chosen(u, b))
  {
  }

  /** Multiplication distributes over addition. */
  lemma {:induction false} TimesSum(u: Octet, a: Octet, b: Octet, n: nat)
    ensures Times(u, Add(a, b), n) == Add(Times(u, a, n), Times(u, b, n))
    decreases n
  {
    if n > 0 {
      var h, m := ShiftRight(u), n - 1;
      XTimeSum(a, b);
      TimesSum(h, XTime(a), XTime(b), m);
      ChosenSum(u, a, b);
      AddSwap(Chosen(u, a), Chosen(u, b), Times(h, XTime(a), m), Times(h, XTime(b), m));
    }
  }

  lemma {:induction false} TimesZero(u: Octet, v: Octet, n: nat)
    requires u == ZERO || v == ZERO
    ensures Times(u, v, n) == ZERO
    decreases n
  {
    if n > 0 {
      TimesZero(ShiftRight(u), XTime(v), n - 1);
    }
  }

  // ---------- products with small factors ----------

  /** An odd factor: v and twice the product with half the factor. */
  lemma {:induction false} Odd(u: Octet, h: Octet, v: Octet, n: nat)
    requires n > 0 && u.b0 && h == ShiftRight(u)
    ensures Times(u, v, n) == Add(v, Times(h, XTime(v), n - 1))
  {
  }

  /** A factor below 16. */
  function Nibble(b3: bool, b2: bool, b1: bool, b0: bool): Octet {
    Octet(false, false, false, false, b3, b2, b1, b0)
  }

  /** v if the bit is set, else 0. */
  function If(b: bool, v: Octet): Octet {
    if b then v else ZERO
  }

  lemma {:induction false} NibbleStep(b3: bool, b2: bool, b1: bool, b0: bool, v: Octet, n: nat)
    requires n > 0
    ensures Times(Nibble(b3, b2, b1, b0), v, n) == Add(If(b0, v), Times(Nibble(false, b3, b2, b1), XTime(v), n - 1))
  {
  }

  /** A product with a factor below 16, bit by bit. */
  lemma {:induction false} NibbleTimes(b3: bool, b2: bool, b1: bool, b0: bool, v: Octet, x: Octet, y: Octet, z: Octet)
    requires x == XTime(v) && y == XTime(x) && z == XTime(y)
    ensures Times(Nibble(b3, b2, b1, b0), v, 8) == Add(If(b0, v), Add(If(b1, x), Add(If(b2, y), If(b3, z))))
  {
    NibbleStep(b3, b2, b1, b0, v, 8);
    NibbleStep(false, b3, b2, b1, x, 7);
    LastNibbleSteps(b3, b2, y, z);
  }

  lemma {:induction false} LastNibbleSteps(b3: bool, b2: bool, y: Octet, z: Octet)
    requires z == XTime(y)
    ensures Times(Nibble(false, false, b3, b2), y, 6) == Add(If(b2, y), If(b3, z))
  {
    NibbleStep(false, false, b3, b2, y, 6);
    NibbleStep(false, false, false, b3, z, 5);
    TimesZero(Nibble(false, false, false, false), XTime(z), 4);
    AddZero(If(b3, z));
  }

  // ---------- sums of four ----------

  function Sum4(a: Octet, b: Octet, c: Octet, d: Octet): Octet {
    Add(Add(Add(a, b), c), d)
  }

  lemma {:induction false} Sum4Add(a: Octet, b: Octet, c: Octet, d: Octet, a': Octet, b': Octet, c': Octet, d': Octet)
    ensures Sum4(Add(a, a'), Add(b, b'), Add(c, c'), Add(d, d')) == Add(Sum4(a, b, c, d), Sum4(a', b', c', d'))
  {
    AddSwap(a, a', b, b');
    AddSwap(Add(a, b), Add(a', b'), c, c');
    AddSwap(Add(Add(a, b), c), Add(Add(a', b'), c'), d, d');
  }

  lemma {:induction false} TimesSum4(u: Octet, a: Octet, b: Octet, c: Octet, d: Octet)
    ensures Times(u, Sum4(a, b, c, d), 8) == Sum4(Times(u, a, 8), Times(u, b, 8), Times(u, c, 8), Times(u, d, 8))
  {
    TimesSum(u, a, b, 8);
    TimesSum(u, Add(a, b), c, 8);
    TimesSum(u, Add(Add(a, b), c), d, 8);
  }

  datatype Four = Four(a: Octet, b: Octet, c: Octet, d: Octet)

  function Sum(f: Four): Octet {
    Sum4(f.a, f.b, f.c, f.d)
  }

  /** Adding up rows first or columns first. */
  lemma {:induction false} Transposed(p: Four, q: Four, r: Four, s: Four)
    ensures Sum4(Sum(p), Sum(q), Sum(r), Sum(s))
         == Sum4(Sum4(p.a, q.a, r.a, s.a), Sum4(p.b, q.b, r.b, s.b), Sum4(p.c, q.c, r.c, s.c), Sum4(p.d, q.d, r.d, s.d))
  {
    Sum4Add(p.a, q.a, r.a, s.a, p.b, q.b, r.b, s.b);
    Sum4Add(Add(p.a, p.b), Add(q.a, q.b), Add(r.a, r.b), Add(s.a, s.b), p.c, q.c, r.c, s.c);
    Sum4Add(Add(Add(p.a, p.b), p.c), Add(Add(q.a, q.b), q.c), Add(Add(r.a, r.b), r.c), Add(Add(s.a, s.b), s.c),
            p.d, q.d, r.d, s.d);
  }

  // ---------- polynomials in x with a byte as coefficient ----------

  /** Which of 1, x, x^2, x^3 and x^4 occur. */
  datatype Mask = Mask(m0: bool, m1: bool, m2: bool, m3: bool, m4: bool)

  function MaskAdd(m: Mask, n: Mask): Mask {
    Mask(m.m0 != n.m0, m.m1 != n.m1, m.m2 != n.m2, m.m3 != n.m3, m.m4 != n.m4)
  }

  /** The multiples of a byte by 1, x, x^2, x^3 and x^4. */
  datatype Powers = Powers(p0: Octet, p1: Octet, p2: Octet, p3: Octet, p4: Octet)

  function PowersOf(a: Octet): Powers {
    Powers(a, XTime(a), XTime(XTime(a)), XTime(XTime(XTime(a))), XTime(XTime(XTime(XTime(a)))))
  }

  function Poly(m: Mask, p: Powers): Octet {
    Add(If(m.m0, p.p0), Add(If(m.m1, p.p1), Add(If(m.m2, p.p2), Add(If(m.m3, p.p3), If(m.m4, p.p4)))))
  }

  lemma {:induction false} IfSum(b: bool, c: bool, v: Octet)
    ensures Add(If(b, v), If(c, v)) == If(b != c, v)
  {
    AddZero(v);
  }

  lemma {:induction false} TermSum(b: bool, c: bool, v: Octet, r: Octet, s: Octet, t: Octet)
    requires Add(r, s) == t
    ensures Add(Add(If(b, v), r), Add(If(c, v), s)) == Add(If(b != c, v), t)
  {
    AddSwap(If(b, v), r, If(c, v), s);
    IfSum(b, c, v);
  }

  lemma {:induction false} PolySum(m: Mask, n: Mask, p: Powers)
    ensures Add(Poly(m, p), Poly(n, p)) == Poly(MaskAdd(m, n), p)
  {
    var k := MaskAdd(m, n);
    var m3, n3, k3 := Add(If(m.m3, p.p3), If(m.m4, p.p4)), Add(If(n.m3, p.p3), If(n.m4, p.p4)),
                      Add(If(k.m3, p.p3), If(k.m4, p.p4));
    IfSum(m.m4, n.m4, p.p4);
    TermSum(m.m3, n.m3, p.p3, If(m.m4, p.p4), If(n.m4, p.p4), If(k.m4, p.p4));
    UpperSum(m, n, p, m3, n3, k3);
  }

  lemma {:induction false} UpperSum(m: Mask, n: Mask, p: Powers, m3: Octet, n3: Octet, k3: Octet)
    requires Add(m3, n3) == k3
    ensures var k := MaskAdd(m, n);
            (Add(Add(If(m.m0, p.p0), Add(If(m.m1, p.p1), Add(If(m.m2, p.p2), m3))),
                 Add(If(n.m0, p.p0), Add(If(n.m1, p.p1), Add(If(n.m2, p.p2), n3))))
             == Add(If(k.m0, p.p0), Add(If(k.m1, p.p1), Add(If(k.m2, p.p2), k3))))
  {
    var k := MaskAdd(m, n);
    var m2, n2, k2 := Add(If(m.m2, p.p2), m3), Add(If(n.m2, p.p2), n3), Add(If(k.m2, p.p2), k3);
    var m1, n1, k1 := Add(If(m.m1, p.p1), m2), Add(If(n.m1, p.p1), n2), Add(If(k.m1, p.p1), k2);
    TermSum(m.m2, n.m2, p.p2, m3, n3, k3);
    TermSum(m.m1, n.m1, p.p1, m2, n2, k2);
    TermSum(m.m0, n.m0, p.p0, m1, n1, k1);
  }

  // ---------- products of the two matrices ----------

  /** A factor below 16. */
  datatype Factor = Factor(f3: bool, f2: bool, f1: bool, f0: bool)

  function Value(f: Factor): Octet {
    Nibble(f.f3, f.f2, f.f1, f.f0)
  }

  /** Products with the bits of a factor, as a polynomial. */
  function FactorMask(f: Factor): Mask {
    Mask(f.f0, f.f1, f.f2, f.f3, false)
  }

  /** Doubling a polynomial without its highest power. */
  function Doubled(m: Mask): Mask {
    Mask(false, m.m0, m.m1, m.m2, m.m3)
  }

  const NOTHING := Mask(false, false, false, false, false)

  function MaskIf(b: bool, m: Mask): Mask {
    if b then m else NOTHING
  }

  /** The product of two factors, the second below 4. */
  function ProductMask(f: Factor, g: Factor): Mask {
    MaskAdd(MaskIf(g.f0, FactorMask(f)), MaskIf(g.f1, Doubled(FactorMask(f))))
  }

  lemma {:induction false} FactorPoly(f: Factor, a: Octet)
    ensures Times(Value(f), a, 8) == Poly(FactorMask(f), PowersOf(a))
  {
    var p := PowersOf(a);
    NibbleTimes(f.f3, f.f2, f.f1, f.f0, a, p.p1, p.p2, p.p3);
    AddZero(If(f.f3, p.p3));
  }

  lemma {:induction false} DoubledPoly(f: Factor, a: Octet)
    ensures Times(Value(f), XTime(a), 8) == Poly(Doubled(FactorMask(f)), PowersOf(a))
  {
    var p := PowersOf(a);
    NibbleTimes(f.f3, f.f2, f.f1, f.f0, p.p1, p.p2, p.p3, p.p4);
    AddZero(Add(If(f.f0, p.p1), Add(If(f.f1, p.p2), Add(If(f.f2, p.p3), If(f.f3, p.p4)))));
  }

  lemma {:induction false} NoTerms(p: Powers)
    ensures Poly(NOTHING, p) == ZERO
  {
    AddZero(ZERO);
  }

  /** A product that counts only if the bit is set. */
  lemma {:induction false} TimesIf(u: Octet, b: bool, v: Octet, m: Mask, p: Powers)
    requires Times(u, v, 8) == Poly(m, p)
    ensures Times(u, If(b, v), 8) == Poly(MaskIf(b, m), p)
  {
    TimesZero(u, ZERO, 8);
    NoTerms(p);
  }

  lemma {:induction false} TwoBits(g: Factor, a: Octet)
    requires !g.f3 && !g.f2
    ensures Times(Value(g), a, 8) == Add(If(g.f0, a), If(g.f1, XTime(a)))
  {
    FactorPoly(g, a);
    AddZero(If(g.f1, XTime(a)));
    AddZero(ZERO);
  }

  lemma {:induction false} ProductPoly(f: Factor, g: Factor, a: Octet)
    requires !g.f3 && !g.f2
    ensures Times(Value(f), Times(Value(g), a, 8), 8) == Poly(ProductMask(f, g), PowersOf(a))
  {
    var p, x := PowersOf(a), XTime(a);
    TwoBits(g, a);
    TimesSum(Value(f), If(g.f0, a), If(g.f1, x), 8);
    FactorPoly(f, a);
    DoubledPoly(f, a);
    TimesIf(Value(f), g.f0, a, FactorMask(f), p);
    TimesIf(Value(f), g.f1, x, Doubled(FactorMask(f)), p);
    PolySum(MaskIf(g.f0, FactorMask(f)), MaskIf(g.f1, Doubled(FactorMask(f))), p);
  }

  /** Both matrices repeat their first row, shifted. */
  function Offset(i: nat, j: nat): nat
    requires i < 4 && j < 4
  {
    if i <= j then j - i else j + 4 - i
  }

  /** 2 3 1 1 */
  function MixFactor(i: nat, j: nat): (f: Factor)
    requires i < 4 && j < 4
    ensures !f.f3 && !f.f2
  {
    match Offset(i, j)
    case 0 => Factor(false, false, true, false)
    case 1 => Factor(false, false, true, true)
    case _ => Factor(false, false, false, true)
  }

  /** E B D 9 */
  function InvMixFactor(i: nat, j: nat): Factor
    requires i < 4 && j < 4
  {
    match Offset(i, j)
    case 0 => Factor(true, true, true, false)
    case 1 => Factor(true, false, true, true)
    case 2 => Factor(true, true, false, true)
    case _ => Factor(true, false, false, true)
  }

  function MaskSum(a: Mask, b: Mask, c: Mask, d: Mask): Mask {
    MaskAdd(MaskAdd(MaskAdd(a, b), c), d)
  }

  /** Entry (i, l) of the product of the two matrices. */
  function ProductEntry(i: nat, l: nat): Mask
    requires i < 4 && l < 4
  {
    MaskSum(ProductMask(InvMixFactor(i, 0), MixFactor(0, l)), ProductMask(InvMixFactor(i, 1), MixFactor(1, l)),
            ProductMask(InvMixFactor(i, 2), MixFactor(2, l)), ProductMask(InvMixFactor(i, 3), MixFactor(3, l)))
  }

  lemma {:induction false} UpperEntries(i: nat, l: nat)
    requires i < 2 && l < 4
    ensures ProductEntry(i, l) == if i == l then Mask(true, false, false, false, false) else NOTHING
  {
    match l { case 0 => case 1 => case 2 => case _ => }
  }

  lemma {:induction false} LowerEntries(i: nat, l: nat)
    requires 2 <= i < 4 && l < 4
    ensures ProductEntry(i, l) == if i == l then Mask(true, false, false, false, false) else NOTHING
  {
    match l { case 0 => case 1 => case 2 => case _ => }
  }

  /** The product of the two matrices is the identity. */
  lemma {:induction false} MatricesInverse(i: nat, l: nat)
    requires i < 4 && l < 4
    ensures ProductEntry(i, l) == if i == l then Mask(true, false, false, false, false) else NOTHING
  {
    if i < 2 {
      UpperEntries(i, l);
    } else {
      LowerEntries(i, l);
    }
  }

  lemma {:induction false} PolySum4(a: Mask, b: Mask, c: Mask, d: Mask, p: Powers)
    ensures Sum4(Poly(a, p), Poly(b, p), Poly(c, p), Poly(d, p)) == Poly(MaskSum(a, b, c, d), p)
  {
    PolySum(a, b, p);
    PolySum(MaskAdd(a, b), c, p);
    PolySum(MaskAdd(MaskAdd(a, b), c), d, p);
  }

  // ---------- one column ----------

  function Pick(c: Four, i: nat): Octet
    requires i < 4
  {
    if i == 0 then c.a else if i == 1 then c.b else if i == 2 then c.c else c.d
  }

  /** Row i of the mixed column. */
  function Mixed(c: Four, i: nat): Octet
    requires i < 4
  {
    Sum4(Times(Value(MixFactor(i, 0)), c.a, 8), Times(Value(MixFactor(i, 1)), c.b, 8),
         Times(Value(MixFactor(i, 2)), c.c, 8), Times(Value(MixFactor(i, 3)), c.d, 8))
  }

  function Unmixed(c: Four, i: nat): Octet
    requires i < 4
  {
    Sum4(Times(Value(InvMixFactor(i, 0)), c.a, 8), Times(Value(InvMixFactor(i, 1)), c.b, 8),
         Times(Value(InvMixFactor(i, 2)), c.c, 8), Times(Value(InvMixFactor(i, 3)), c.d, 8))
  }

  /** What byte l of the column contributes to row i after mixing and unmixing through row k. */
  function Share(i: nat, k: nat, l: nat, v: Octet): Octet
    requires i < 4 && k < 4 && l < 4
  {
    Times(Value(InvMixFactor(i, k)), Times(Value(MixFactor(k, l)), v, 8), 8)
  }

  lemma {:induction false} RowShares(i: nat, k: nat, c: Four)
    requires i < 4 && k < 4
    ensures Times(Value(InvMixFactor(i, k)), Mixed(c, k), 8)
         == Sum(Four(Share(i, k, 0, c.a), Share(i, k, 1, c.b), Share(i, k, 2, c.c), Share(i, k, 3, c.d)))
  {
    TimesSum4(Value(InvMixFactor(i, k)), Times(Value(MixFactor(k, 0)), c.a, 8), Times(Value(MixFactor(k, 1)), c.b, 8),
              Times(Value(MixFactor(k, 2)), c.c, 8), Times(Value(MixFactor(k, 3)), c.d, 8));
  }

  /** The shares of a byte add up to itself in its own row and vanish in the others. */
  lemma {:induction false} ColumnShares(i: nat, l: nat, v: Octet)
    requires i < 4 && l < 4
    ensures Sum4(Share(i, 0, l, v), Share(i, 1, l, v), Share(i, 2, l, v), Share(i, 3, l, v)) == If(i == l, v)
  {
    var p := PowersOf(v);
    ProductPoly(InvMixFactor(i, 0), MixFactor(0, l), v);
    ProductPoly(InvMixFactor(i, 1), MixFactor(1, l), v);
    ProductPoly(InvMixFactor(i, 2), MixFactor(2, l), v);
    ProductPoly(InvMixFactor(i, 3), MixFactor(3, l), v);
    PolySum4(ProductMask(InvMixFactor(i, 0), MixFactor(0, l)), ProductMask(InvMixFactor(i, 1), MixFactor(1, l)),
             ProductMask(InvMixFactor(i, 2), MixFactor(2, l)), ProductMask(InvMixFactor(i, 3), MixFactor(3, l)), p);
    MatricesInverse(i, l);
    NoTerms(p);
    OneTerm(p);
  }

  lemma {:induction false} OneTerm(p: Powers)
    ensures Poly(Mask(true, false, false, false, false), p) == p.p0
  {
    AddZero(ZERO);
    AddZero(p.p0);
  }

  /** Unmixing a mixed column restores it. */
  lemma {:induction false} UnmixedOfMixed(c: Four, i: nat)
    requires i < 4
    ensures Unmixed(Four(Mixed(c, 0), Mixed(c, 1), Mixed(c, 2), Mixed(c, 3)), i) == Pick(c, i)
  {
    RowShares(i, 0, c);
    RowShares(i, 1, c);
    RowShares(i, 2, c);
    RowShares(i, 3, c);
    SharesTransposed(i, c);
    ColumnShares(i, 0, c.a);
    ColumnShares(i, 1, c.b);
    ColumnShares(i, 2, c.c);
    ColumnShares(i, 3, c.d);
    OneOfFour(c, i);
  }

  function Shares(i: nat, k: nat, c: Four): Four
    requires i < 4 && k < 4
  {
    Four(Share(i, k, 0, c.a), Share(i, k, 1, c.b), Share(i, k, 2, c.c), Share(i, k, 3, c.d))
  }

  lemma {:induction false} SharesTransposed(i: nat, c: Four)
    requires i < 4
    ensures Sum4(Sum(Shares(i, 0, c)), Sum(Shares(i, 1, c)), Sum(Shares(i, 2, c)), Sum(Shares(i, 3, c)))
         == Sum4(Sum4(Share(i, 0, 0, c.a), Share(i, 1, 0, c.a), Share(i, 2, 0, c.a), Share(i, 3, 0, c.a)),
                 Sum4(Share(i, 0, 1, c.b), Share(i, 1, 1, c.b), Share(i, 2, 1, c.b), Share(i, 3, 1, c.b)),
                 Sum4(Share(i, 0, 2, c.c), Share(i, 1, 2, c.c), Share(i, 2, 2, c.c), Share(i, 3, 2, c.c)),
                 Sum4(Share(i, 0, 3, c.d), Share(i, 1, 3, c.d), Share(i, 2, 3, c.d), Share(i, 3, 3, c.d)))
  {
    Transposed(Shares(i, 0, c), Shares(i, 1, c), Shares(i, 2, c), Shares(i, 3, c));
  }

  lemma {:induction false} OneOfFour(c: Four, i: nat)
    requires i < 4
    ensures Sum4(If(i == 0, c.a), If(i == 1, c.b), If(i == 2, c.c), If(i == 3, c.d)) == Pick(c, i)
  {
    AddZero(Pick(c, i));
    AddZero(ZERO);
  }
}
