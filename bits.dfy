/** Bytes and the bit-level arithmetic the cipher toolkit relies on:
    powers of two, the j-th binary digit of a number, and Python's `^`
    (bitwise exclusive or) on non-negative integers. */
module Bits {

  /** A byte: the code of one character of the (raw-byte) text, or a key. */
  type Byte = b: int | 0 <= b < 256

  function Pow2(w: nat): (r: nat)
    ensures r >= 1
  {
    if w == 0 then 1 else 2 * Pow2(w - 1)
  }

  /** Four more binary digits multiply the range by 16. */
  lemma Pow2Nibble(w: nat)
    ensures Pow2(w + 4) == 16 * Pow2(w)
  {
    assert Pow2(w + 4) == 2 * Pow2(w + 3);
    assert Pow2(w + 3) == 2 * Pow2(w + 2);
  }

  /** A byte has eight binary digits. */
  lemma ByteWidth()
    ensures Pow2(8) == 256
  {
  }

  /** The binary digit of weight 2^j in n (0 or 1). */
  function Bit(n: nat, j: nat): (r: nat)
    ensures r < 2
  {
    if j == 0 then n % 2 else Bit(n / 2, j - 1)
  }

  /** Python's `a ^ b` for non-negative integers, one binary digit at a time.
      It is 0 exactly when the operands are equal. */
  function Xor(a: nat, b: nat): (r: nat)
    ensures (r == 0) == (a == b)
    decreases a + b
  {
    if a == 0 && b == 0 then 0
    else 2 * Xor(a / 2, b / 2) + (if a % 2 == b % 2 then 0 else 1)
  }

  /** Every binary digit of `a ^ b` is the exclusive or of the two digits. */
  lemma {:induction false} XorBit(a: nat, b: nat, j: nat)
    ensures Bit(Xor(a, b), j) == if Bit(a, j) == Bit(b, j) then 0 else 1
    decreases j
  {
    if a == 0 && b == 0 {
      ZeroBit(j);
    } else if j > 0 {
      XorBit(a / 2, b / 2, j - 1);
    }
  }

  lemma {:induction false} ZeroBit(j: nat)
    ensures Bit(0, j) == 0
  {
    if j > 0 {
      ZeroBit(j - 1);
    }
  }

  /** Exclusive or with a fixed key is self-inverse. */
  lemma {:induction false} XorCancel(a: nat, k: nat)
    ensures Xor(Xor(a, k), k) == a
    decreases a + k
  {
    if a == 0 && k == 0 {
    } else {
      var x := Xor(a / 2, k / 2);
      XorCancel(a / 2, k / 2);
      assert Xor(a, k) == 2 * x + (if a % 2 == k % 2 then 0 else 1);
    }
  }

  /** Exclusive or with 0 changes nothing. */
  lemma {:induction false} XorZero(a: nat)
    ensures Xor(a, 0) == a
    decreases a
  {
    if a != 0 {
      XorZero(a / 2);
    }
  }

  /** Exclusive or of two w-bit numbers is a w-bit number. */
  lemma {:induction false} XorBound(a: nat, b: nat, w: nat)
    requires a < Pow2(w) && b < Pow2(w)
    ensures Xor(a, b) < Pow2(w)
    decreases w
  {
    if a == 0 && b == 0 {
    } else if w == 0 {
    } else {
      XorBound(a / 2, b / 2, w - 1);
    }
  }

  /** The exclusive or of two bytes is a byte. */
  function XorByte(a: Byte, b: Byte): (r: Byte)
    ensures Xor(r, b) == a
  {
    ByteWidth();
    XorBound(a, b, 8);
    XorCancel(a, b);
    Xor(a, b)
  }

  /** Two numbers below 2^w with the same w low binary digits are equal. */
  lemma {:induction false} BitsDetermine(a: nat, b: nat, w: nat)
    requires a < Pow2(w) && b < Pow2(w)
    requires forall j | 0 <= j < w :: Bit(a, j) == Bit(b, j)
    ensures a == b
    decreases w
  {
    if w > 0 {
      assert Bit(a, 0) == Bit(b, 0);
      forall j | 0 <= j < w - 1
        ensures Bit(a / 2, j) == Bit(b / 2, j)
      {
        assert Bit(a, j + 1) == Bit(b, j + 1);
      }
      BitsDetermine(a / 2, b / 2, w - 1);
    }
  }
}
