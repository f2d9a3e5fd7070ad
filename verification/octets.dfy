/** Bytes as eight bits, with exclusive or, shifts and the numbers they denote. */
module Octets {

  /** A byte, highest bit first. */
  datatype Octet = Octet(b7: bool, b6: bool, b5: bool, b4: bool, b3: bool, b2: bool, b1: bool, b0: bool)

  const ZERO := Octet(false, false, false, false, false, false, false, false)

  /** Exclusive or. */
  function Add(u: Octet, v: Octet): Octet {
    Octet(u.b7 != v.b7, u.b6 != v.b6, u.b5 != v.b5, u.b4 != v.b4,
          u.b3 != v.b3, u.b2 != v.b2, u.b1 != v.b1, u.b0 != v.b0)
  }

  function ShiftLeft(v: Octet): Octet {
    Octet(v.b6, v.b5, v.b4, v.b3, v.b2, v.b1, v.b0, false)
  }

  function ShiftRight(u: Octet): Octet {
    Octet(false, u.b7, u.b6, u.b5, u.b4, u.b3, u.b2, u.b1)
  }

  lemma {:induction false} AddAssoc(a: Octet, b: Octet, c: Octet)
    ensures Add(a, Add(b, c)) == Add(Add(a, b), c)
  {
  }

  lemma {:induction false} AddZero(a: Octet)
    ensures Add(a, ZERO) == a && Add(ZERO, a) == a && Add(a, a) == ZERO
  {
  }

  lemma {:induction false} AddSwap(a: Octet, b: Octet, c: Octet, d: Octet)
    ensures Add(Add(a, b), Add(c, d)) == Add(Add(a, c), Add(b, d))
  {
  }

  // ---------- numbers ----------

  function Bit(b: bool, v: nat): nat {
    if b then v else 0
  }

  /** The number that four bits denote. */
  function Half(b3: bool, b2: bool, b1: bool, b0: bool): (n: nat)
    ensures n < 16
  {
    Bit(b3, 8) + Bit(b2, 4) + Bit(b1, 2) + Bit(b0, 1)
  }

  function Num(o: Octet): (n: nat)
    ensures n < 256
  {
    16 * Half(o.b7, o.b6, o.b5, o.b4) + Half(o.b3, o.b2, o.b1, o.b0)
  }

  /** Shifting left doubles the number, but for what falls out. */
  lemma {:induction false} LeftDoubles(o: Octet)
    ensures 2 * Num(o) == Num(ShiftLeft(o)) + Bit(o.b7, 256)
  {
    HalfShifted(o.b7, o.b6, o.b5, o.b4, o.b3);
    HalfShifted(o.b3, o.b2, o.b1, o.b0, false);
  }

  /** Shifting right halves it. */
  lemma {:induction false} RightHalves(o: Octet)
    ensures Num(o) == 2 * Num(ShiftRight(o)) + Bit(o.b0, 1)
  {
    HalfShifted(false, o.b7, o.b6, o.b5, o.b4);
    HalfShifted(o.b4, o.b3, o.b2, o.b1, o.b0);
  }

  lemma {:induction false} HalfShifted(b3: bool, b2: bool, b1: bool, b0: bool, next: bool)
    ensures 2 * Half(b3, b2, b1, b0) + Bit(next, 1) == Bit(b3, 16) + Half(b2, b1, b0, next)
  {
  }

  /** A byte from its two halves. */
  function FromHalves(h: nat, l: nat): Octet {
    Octet(h >= 8, h % 8 >= 4, h % 4 >= 2, h % 2 >= 1, l >= 8, l % 8 >= 4, l % 4 >= 2, l % 2 >= 1)
  }

  function FromNum(n: nat): Octet {
    FromHalves(n / 16, n % 16)
  }

  lemma {:induction false} HalfBits(b3: bool, b2: bool, b1: bool, b0: bool)
    ensures var n := Half(b3, b2, b1, b0);
            (n >= 8 <==> b3) && (n % 8 >= 4 <==> b2) && (n % 4 >= 2 <==> b1) && (n % 2 >= 1 <==> b0)
  {
  }

  lemma {:induction false} HalfOfBits(n: nat)
    requires n < 16
    ensures Half(n >= 8, n % 8 >= 4, n % 4 >= 2, n % 2 >= 1) == n
  {
  }

  lemma {:induction false} NumOfFromNum(n: nat)
    requires n < 256
    ensures Num(FromNum(n)) == n
  {
    HalfOfBits(n / 16);
    HalfOfBits(n % 16);
  }

  lemma {:induction false} FromNumOfNum(o: Octet)
    ensures FromNum(Num(o)) == o
  {
    HalvesApart(Half(o.b7, o.b6, o.b5, o.b4), Half(o.b3, o.b2, o.b1, o.b0));
    HalvesBack(o);
  }

  lemma {:induction false} HalvesBack(o: Octet)
    ensures FromHalves(Half(o.b7, o.b6, o.b5, o.b4), Half(o.b3, o.b2, o.b1, o.b0)) == o
  {
    HalfBits(o.b7, o.b6, o.b5, o.b4);
    HalfBits(o.b3, o.b2, o.b1, o.b0);
  }

  lemma {:induction false} HalvesApart(h: nat, l: nat)
    requires l < 16
    ensures (16 * h + l) / 16 == h && (16 * h + l) % 16 == l
  {
  }
}
