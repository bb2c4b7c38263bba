/** The part of JavaScript's number semantics that the hash code relies on: 32-bit
    wrap-around, the left shift and exclusive or. A word is an integer with an
    explicit range, because the program prints words as signed numbers. */
module Words {
  const TWO32: int := 0x1_0000_0000
  const TWO31: int := 0x8000_0000

  type Uint32 = x: int | 0 <= x < 0x1_0000_0000
  type Int32 = x: int | -0x8000_0000 <= x < 0x8000_0000

  /** Integers that a double holds exactly. */
  type SafeInt = x: int | -0x20_0000_0000_0000 < x < 0x20_0000_0000_0000

  /** x >>> 0 */
  function ToUint32(x: int): Uint32 {
    x % TWO32
  }

  /** x | 0 */
  function ToInt32(x: int): Int32 {
    var u := x % TWO32;
    if u >= TWO31 then u - TWO32 else u
  }

  function Pow(b: int, n: nat): int {
    if n == 0 then 1 else b * Pow(b, n - 1)
  }

  /** Exclusive or of two binary expansions, bit by bit from the lowest. */
  function XorNat(a: nat, b: nat): nat {
    if a == 0 && b == 0 then 0
    else (a + b) % 2 + 2 * XorNat(a / 2, b / 2)
  }

  /** a ^ b: both sides are taken modulo 2^32 and the result is signed. */
  function Xor(a: int, b: int): (r: Int32)
    ensures ToUint32(r) == XorNat(ToUint32(a), ToUint32(b))
  {
    WordSize();
    XorNatBound(32, ToUint32(a), ToUint32(b));
    ToInt32(XorNat(ToUint32(a), ToUint32(b)))
  }

  lemma WordSize()
    ensures Pow(2, 32) == TWO32
  {
    assert Pow(2, 8) == 256;
    assert Pow(2, 16) == 65536;
    assert Pow(2, 24) == 16777216;
  }

  lemma {:induction false} XorNatBound(n: nat, a: nat, b: nat)
    requires a < Pow(2, n) && b < Pow(2, n)
    ensures XorNat(a, b) < Pow(2, n)
  {
    if n > 0 {
      assert Pow(2, n) == 2 * Pow(2, n - 1);
      XorNatBound(n - 1, a / 2, b / 2);
    }
  }

  lemma {:induction false} XorNatCommutes(a: nat, b: nat)
    ensures XorNat(a, b) == XorNat(b, a)
  {
    if a != 0 || b != 0 {
      XorNatCommutes(a / 2, b / 2);
    }
  }

  function XorBit(p: nat, q: nat): nat {
    if p == q then 0 else 1
  }

  /** The recursion of XorNat, stated without division. */
  lemma XorNatBits(p: nat, q: nat, a: nat, b: nat)
    requires p < 2 && q < 2
    ensures XorNat(p + 2 * a, q + 2 * b) == XorBit(p, q) + 2 * XorNat(a, b)
  {
    assert (p + 2 * a) / 2 == a && (q + 2 * b) / 2 == b;
    assert (p + 2 * a + q + 2 * b) % 2 == XorBit(p, q);
  }

  lemma AssociatesStep(p: nat, q: nat, r: nat, a: nat, b: nat, c: nat)
    requires p < 2 && q < 2 && r < 2
    requires XorNat(XorNat(a, b), c) == XorNat(a, XorNat(b, c))
    ensures XorNat(XorNat(p + 2 * a, q + 2 * b), r + 2 * c) == XorNat(p + 2 * a, XorNat(q + 2 * b, r + 2 * c))
  {
    XorNatBits(p, q, a, b);
    XorNatBits(XorBit(p, q), r, XorNat(a, b), c);
    XorNatBits(q, r, b, c);
    XorNatBits(p, XorBit(q, r), a, XorNat(b, c));
  }

  lemma {:induction false} XorNatAssociates(a: nat, b: nat, c: nat)
    ensures XorNat(XorNat(a, b), c) == XorNat(a, XorNat(b, c))
    decreases a + b + c
  {
    if a != 0 || b != 0 || c != 0 {
      XorNatAssociates(a / 2, b / 2, c / 2);
      AssociatesStep(a % 2, b % 2, c % 2, a / 2, b / 2, c / 2);
    }
  }

  lemma {:induction false} XorNatZero(a: nat)
    ensures XorNat(a, 0) == a
    ensures XorNat(a, a) == 0
  {
    if a != 0 {
      XorNatZero(a / 2);
    }
  }

  /** Signed and unsigned readings of a word determine each other. */
  lemma ReadingsAgree(x: int)
    ensures ToUint32(ToInt32(x)) == ToUint32(x)
    ensures ToInt32(ToUint32(x)) == ToInt32(x)
    ensures -TWO31 <= x < TWO31 ==> ToInt32(x) == x
  {
  }

  lemma XorCommutes(a: int, b: int)
    ensures Xor(a, b) == Xor(b, a)
  {
    XorNatCommutes(ToUint32(a), ToUint32(b));
  }

  lemma XorAssociates(a: int, b: int, c: int)
    ensures Xor(Xor(a, b), c) == Xor(a, Xor(b, c))
  {
    XorNatAssociates(ToUint32(a), ToUint32(b), ToUint32(c));
  }

  lemma XorZero(a: Int32)
    ensures Xor(a, 0) == a
  {
    XorNatZero(ToUint32(a));
    ReadingsAgree(a);
  }

  lemma XorWithZero(b: int)
    ensures Xor(0, b) == ToInt32(b)
  {
    XorNatZero(ToUint32(b));
    XorNatCommutes(0, ToUint32(b));
    ReadingsAgree(b);
  }

  lemma XorSelf(b: int)
    ensures Xor(b, b) == 0
  {
    XorNatZero(ToUint32(b));
  }

  lemma XorCancels(a: Int32, b: int)
    ensures Xor(Xor(a, b), b) == a
  {
    XorAssociates(a, b, b);
    XorSelf(b);
    XorZero(a);
  }
}
