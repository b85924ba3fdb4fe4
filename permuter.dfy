/** The bit permuter: `swap_every_second_bit` exchanges the two binary
    digits of every adjacent pair of a byte. */
module Permuter {
  import opened Bits
  import opened Codec

  /** `''.join(c[1] + c[0] for c in zip(s[::2], s[1::2]))`: swaps the two
      characters of each adjacent pair; `zip` drops an unpaired last character. */
  function SwapPairs(s: seq<char>): (r: seq<char>)
    ensures |r| == |s| / 2 * 2
    ensures forall i | 0 <= i < |r| :: r[i] == if i % 2 == 0 then s[i + 1] else s[i - 1]
    decreases |s|
  {
    if |s| < 2 then [] else [s[1], s[0]] + SwapPairs(s[2..])
  }

  /** y is x with the binary digits of every pair (2i, 2i+1), i < 4, exchanged. */
  predicate PairsSwapped(x: nat, y: nat) {
    forall j | 0 <= j < 8 :: Bit(y, j) == Bit(x, if j % 2 == 0 then j + 1 else j - 1)
  }

  /** swap_every_second_bit (non_secure_encryption.py:147-168), for a byte:
      the binary form padded to 8 digits, each adjacent pair swapped, read
      back through `bin2hex` and `int(_, 16)`. The result is a byte whose
      binary digits 2i and 2i+1 are the input's digits 2i+1 and 2i. */
  function SwapEverySecondBit(number: Byte): (r: Byte)
    ensures PairsSwapped(number, r)
  {
    var binString := FillUpByte(Bin(number));
    PaddedByte(number);
    var swapped := SwapPairs(binString);
    SwappedDigits(binString);
    HexValue(Bin2Hex(swapped))
  }

  /** The padded binary form of a byte has exactly 8 digits. */
  lemma PaddedByte(number: Byte)
    ensures |FillUpByte(Bin(number))| == 8
    ensures BinValue(FillUpByte(Bin(number))) == number
  {
    ByteWidth();
    BinLength(number, 8);
    var binary := Bin(number);
    PaddedToEight(|binary|, |FillUpByte(binary)|);
  }

  /** A multiple of 8 that is at least a length of 1 to 8, and less than 8
      above it, is 8. */
  lemma PaddedToEight(length: nat, padded: nat)
    requires 1 <= length <= 8
    requires padded % 8 == 0 && length <= padded < length + 8
    ensures padded == 8
  {
  }

  /** Swapping the digit pairs of an 8-digit binary string swaps the bit
      pairs of the byte it denotes. */
  lemma SwappedDigits(s: seq<char>)
    requires IsBinary(s) && |s| == 8
    ensures IsBinary(SwapPairs(s)) && |SwapPairs(s)| == 8
    ensures BinValue(SwapPairs(s)) < 256
    ensures PairsSwapped(BinValue(s), BinValue(SwapPairs(s)))
  {
    var swapped := SwapPairs(s);
    assert DigitPairsSwapped(s, swapped);
    SwapPairsBinary(s, swapped);
    ByteWidth();
    forall j | 0 <= j < 8
      ensures Bit(BinValue(swapped), j) == Bit(BinValue(s), if j % 2 == 0 then j + 1 else j - 1)
    {
      SwappedBit(s, swapped, j);
    }
  }

  /** t is the 8-character string s with each adjacent pair exchanged. */
  predicate DigitPairsSwapped(s: seq<char>, t: seq<char>) {
    |s| == 8 && |t| == 8 &&
    forall i | 0 <= i < 8 :: t[i] == if i % 2 == 0 then s[i + 1] else s[i - 1]
  }

  /** Exchanging the pairs of a binary digit string leaves binary digits. */
  lemma SwapPairsBinary(s: seq<char>, t: seq<char>)
    requires IsBinary(s) && DigitPairsSwapped(s, t)
    ensures IsBinary(t)
  {
    forall i | 0 <= i < 8
      ensures IsBinaryDigit(t[i])
    {
      assert t[i] == if i % 2 == 0 then s[i + 1] else s[i - 1];
    }
  }

  /** Bit j of the exchanged string's value is bit j's partner in the
      original. */
  lemma SwappedBit(s: seq<char>, t: seq<char>, j: nat)
    requires IsBinary(s) && IsBinary(t) && DigitPairsSwapped(s, t) && j < 8
    ensures Bit(BinValue(t), j) == Bit(BinValue(s), if j % 2 == 0 then j + 1 else j - 1)
  {
    var partner := if j % 2 == 0 then j + 1 else j - 1;
    BinValueBit(t, j);
    BinValueBit(s, partner);
    SwappedDigit(s, t, j);
  }

  /** Digit 7 - j of the exchanged string (the digit of weight 2^j) is
      digit 7 - j' of the original, where j' is j's partner. */
  lemma SwappedDigit(s: seq<char>, t: seq<char>, j: nat)
    requires DigitPairsSwapped(s, t) && j < 8
    ensures t[7 - j] == s[7 - (if j % 2 == 0 then j + 1 else j - 1)]
  {
    var i := 7 - j;
    assert (i % 2 == 0) == (j % 2 == 1);
    assert t[i] == if i % 2 == 0 then s[i + 1] else s[i - 1];
  }

  /** Swapping the bit pairs twice gives back the byte. */
  lemma PairsSwappedTwice(x: nat, y: nat, z: nat)
    requires x < 256 && z < 256
    requires PairsSwapped(x, y) && PairsSwapped(y, z)
    ensures z == x
  {
    forall j | 0 <= j < 8
      ensures Bit(z, j) == Bit(x, j)
    {
      var partner := if j % 2 == 0 then j + 1 else j - 1;
      assert Bit(z, j) == Bit(y, partner);
      assert Bit(y, partner) == Bit(x, j);
    }
    ByteWidth();
    BitsDetermine(z, x, 8);
  }

  /** The permutation is self-inverse on every byte. */
  lemma SwapEverySecondBitInvolutive(b: Byte)
    ensures SwapEverySecondBit(SwapEverySecondBit(b)) == b
  {
    var once := SwapEverySecondBit(b);
    PairsSwappedTwice(b, once, SwapEverySecondBit(once));
  }
}
