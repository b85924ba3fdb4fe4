/** Conversions between binary digit strings, hexadecimal digit strings and
    byte strings: `bin2hex`, `fillupbyte`, `hex2string` and `string2hex`,
    together with the pieces of Python they use (`bin`, `hex`, `int(s, 2)`,
    `int(s, 16)`, `str.zfill`, `str.rjust`). */
module Codec {
  import opened Bits

  // ---------------------------------------------------------------------
  // Binary digit strings

  predicate IsBinaryDigit(c: char) {
    c == '0' || c == '1'
  }

  predicate IsBinary(s: seq<char>) {
    forall i | 0 <= i < |s| :: IsBinaryDigit(s[i])
  }

  function BinaryDigitValue(c: char): (d: nat) {
    if c == '1' then 1 else 0
  }

  function BinaryDigit(d: nat): (c: char)
    requires d < 2
  {
    if d == 1 then '1' else '0'
  }

  /** `int(s, 2)`: the number a binary digit string denotes, most
      significant digit first. A string of w digits denotes a number below
      2^w. */
  function BinValue(s: seq<char>): (r: nat)
    requires IsBinary(s)
    ensures r < Pow2(|s|)
  {
    if s == [] then 0
    else 2 * BinValue(s[..|s| - 1]) + BinaryDigitValue(s[|s| - 1])
  }

  /** `bin(n)[2:]`: the shortest binary digit string of n ("0" for zero). */
  function Bin(n: nat): (r: seq<char>)
    ensures IsBinary(r) && 1 <= |r|
    ensures BinValue(r) == n
    ensures |r| > 1 ==> r[0] == '1'
  {
    if n < 2 then [BinaryDigit(n)]
    else
      var r := Bin(n / 2) + [BinaryDigit(n % 2)];
      assert r[..|r| - 1] == Bin(n / 2);
      r
  }

  function Zeros(m: nat): (r: seq<char>)
    ensures |r| == m && IsBinary(r)
    ensures forall i | 0 <= i < m :: r[i] == '0'
  {
    seq(m, _ => '0')
  }

  /** Digit j of BinValue(s), counted from the least significant end, is
      the character j places from the end of s. */
  lemma {:induction false} BinValueBit(s: seq<char>, j: nat)
    requires IsBinary(s) && j < |s|
    ensures Bit(BinValue(s), j) == BinaryDigitValue(s[|s| - 1 - j])
    decreases |s|
  {
    var init := s[..|s| - 1];
    if j > 0 {
      BinValueBit(init, j - 1);
      assert init[|init| - 1 - (j - 1)] == s[|s| - 1 - j];
    }
  }

  /** Leading zeros do not change the value of a binary digit string. */
  lemma {:induction false} BinValueLeadingZeros(m: nat, s: seq<char>)
    requires IsBinary(s)
    ensures IsBinary(Zeros(m) + s) && BinValue(Zeros(m) + s) == BinValue(s)
    decreases |s|
  {
    var t := Zeros(m) + s;
    if s == [] {
      assert t == Zeros(m);
      ZerosValue(m);
    } else {
      assert t[..|t| - 1] == Zeros(m) + s[..|s| - 1];
      BinValueLeadingZeros(m, s[..|s| - 1]);
    }
  }

  lemma {:induction false} ZerosValue(m: nat)
    ensures BinValue(Zeros(m)) == 0
    decreases m
  {
    if m > 0 {
      assert Zeros(m)[..m - 1] == Zeros(m - 1);
      ZerosValue(m - 1);
    }
  }

  /** A number below 2^w has at most w binary digits. */
  lemma {:induction false} BinLength(n: nat, w: nat)
    requires 1 <= w && n < Pow2(w)
    ensures |Bin(n)| <= w
    decreases w
  {
    if n >= 2 {
      BinLength(n / 2, w - 1);
    }
  }

  // ---------------------------------------------------------------------
  // Hexadecimal digit strings

  /** A digit `int(_, 16)` accepts, in either case. */
  predicate IsHexDigit(c: char) {
    ('0' <= c <= '9') || ('a' <= c <= 'f') || ('A' <= c <= 'F')
  }

  predicate IsHex(s: seq<char>) {
    forall i | 0 <= i < |s| :: IsHexDigit(s[i])
  }

  /** Lower-case hexadecimal, as `hex()` produces it. */
  predicate IsLowerHex(s: seq<char>) {
    forall i | 0 <= i < |s| :: ('0' <= s[i] <= '9') || ('a' <= s[i] <= 'f')
  }

  function HexDigitValue(c: char): (d: nat)
    requires IsHexDigit(c)
    ensures d < 16
  {
    if '0' <= c <= '9' then c as int - '0' as int
    else if 'a' <= c <= 'f' then c as int - 'a' as int + 10
    else c as int - 'A' as int + 10
  }

  function HexChar(d: nat): (c: char)
    requires d < 16
    ensures IsHexDigit(c) && HexDigitValue(c) == d
    ensures ('0' <= c <= '9') || ('a' <= c <= 'f')
  {
    if d < 10 then ('0' as int + d) as char else ('a' as int + d - 10) as char
  }

  /** `int(s, 16)`: the number a hexadecimal digit string denotes. A string
      of n digits denotes a number below 16^n. */
  function HexValue(s: seq<char>): (r: nat)
    requires IsHex(s)
    ensures r < Pow2(4 * |s|)
  {
    if s == [] then 0
    else
      Pow2Nibble(4 * (|s| - 1));
      16 * HexValue(s[..|s| - 1]) + HexDigitValue(s[|s| - 1])
  }

  /** `hex(n)[2:]`: the shortest lower-case hexadecimal digit string of n. */
  function Hex(n: nat): (r: seq<char>)
    ensures IsHex(r) && 1 <= |r|
    ensures HexValue(r) == n
    ensures |r| > 1 ==> r[0] != '0'
  {
    if n < 16 then [HexChar(n)]
    else
      var r := Hex(n / 16) + [HexChar(n % 16)];
      assert r[..|r| - 1] == Hex(n / 16);
      r
  }

  /** `hex()` writes only lower-case digits. */
  lemma {:induction false} HexIsLowerHex(n: nat)
    ensures IsLowerHex(Hex(n))
    decreases n
  {
    if n >= 16 {
      HexIsLowerHex(n / 16);
    }
  }

  /** bin2hex (non_secure_encryption.py:4-14): the binary digit string read
      as a number and written in shortest lower-case hexadecimal. `int('', 2)`
      raises, so the string must not be empty. */
  function Bin2Hex(binary: seq<char>): (r: seq<char>)
    requires IsBinary(binary) && binary != []
    ensures IsLowerHex(r) && IsHex(r) && r != []
    ensures HexValue(r) == BinValue(binary)
    ensures |r| > 1 ==> r[0] != '0'
  {
    HexIsLowerHex(BinValue(binary));
    Hex(BinValue(binary))
  }

  /** `s.zfill(width)` for a string without a sign: left-pad with '0'. */
  function ZFill(s: seq<char>, width: nat): (r: seq<char>)
    ensures |r| == if width <= |s| then |s| else width
    ensures r[|r| - |s|..] == s
    ensures forall i | 0 <= i < |r| - |s| :: r[i] == '0'
  {
    if width <= |s| then s else Zeros(width - |s|) + s
  }

  /** The width fillupbyte pads to: the least multiple of 8 not below n. */
  lemma FillWidth(n: nat)
    ensures (n + (8 - n % 8) % 8) % 8 == 0
    ensures n <= n + (8 - n % 8) % 8 < n + 8
    ensures n % 8 == 0 ==> (8 - n % 8) % 8 == 0
  {
  }

  /** fillupbyte (non_secure_encryption.py:17-31): left-pads a binary digit
      string with '0' to the least multiple of 8 that is at least its length,
      which leaves its value unchanged. */
  function FillUpByte(binary: seq<char>): (r: seq<char>)
    requires IsBinary(binary)
    ensures |r| % 8 == 0 && |binary| <= |r| < |binary| + 8
    ensures IsBinary(r) && BinValue(r) == BinValue(binary)
  {
    FillWidth(|binary|);
    var r := ZFill(binary, |binary| + (8 - |binary| % 8) % 8);
    BinValueLeadingZeros(|r| - |binary|, binary);
    r
  }

  /** fillupbyte only prepends '0' digits. */
  lemma FillUpBytePads(binary: seq<char>)
    requires IsBinary(binary)
    ensures FillUpByte(binary) == Zeros(|FillUpByte(binary)| - |binary|) + binary
  {
  }

  /** A binary digit string whose length is already a multiple of 8 is
      returned unchanged. */
  lemma FillUpByteAligned(binary: seq<char>)
    requires IsBinary(binary) && |binary| % 8 == 0
    ensures FillUpByte(binary) == binary
  {
    FillWidth(|binary|);
    assert Zeros(0) + binary == binary;
  }

  // ---------------------------------------------------------------------
  // Byte strings and their hexadecimal form

  /** The chunk `h[i:i+2]` of a hexadecimal string, clamped as Python slices
      are: the one or two characters from i on, only one at the very end. */
  function HexChunk(h: seq<char>, i: nat): (r: seq<char>)
    requires i < |h|
    ensures 0 < |r| <= 2 && r <= h[i..]
    ensures |r| == 2 || i + |r| == |h|
  {
    if i + 2 <= |h| then h[i..i + 2] else h[i..]
  }

  /** hex2string (non_secure_encryption.py:34-46): every two hexadecimal
      digits become one byte; an odd trailing digit is read on its own. */
  function Hex2String(h: seq<char>): (r: seq<Byte>)
    requires IsHex(h)
    ensures |r| == (|h| + 1) / 2
    decreases |h|
  {
    if h == [] then []
    else
      var chunk := HexChunk(h, 0);
      HexChunkValue(chunk);
      var b: Byte := HexValue(chunk);
      [b] + if |h| <= 2 then [] else Hex2String(h[2..])
  }

  /** Byte i of hex2string(h) is the value of the chunk `h[2i:2i+2]`. */
  lemma {:induction false} Hex2StringAt(h: seq<char>, i: nat)
    requires IsHex(h) && 2 * i < |h|
    ensures Hex2String(h)[i] == HexValue(HexChunk(h, 2 * i))
    decreases i
  {
    if i > 0 {
      var tail := h[2..];
      HexSuffix(h);
      Hex2StringAt(tail, i - 1);
      assert Hex2String(h)[1..] == Hex2String(tail);
      HexChunkShift(h, 2 * i);
    }
  }

  /** Dropping the first two digits of a hexadecimal string leaves one. */
  lemma HexSuffix(h: seq<char>)
    requires IsHex(h) && 2 <= |h|
    ensures IsHex(h[2..])
    ensures IsLowerHex(h) ==> IsLowerHex(h[2..])
  {
    forall k | 0 <= k < |h| - 2
      ensures h[2..][k] == h[k + 2]
    {
    }
  }

  /** A chunk past the first two digits is the same chunk of the rest. */
  lemma HexChunkShift(h: seq<char>, i: nat)
    requires 2 <= i < |h|
    ensures HexChunk(h, i) == HexChunk(h[2..], i - 2)
  {
    var rest := h[2..];
    if i + 2 <= |h| {
      PairEqual(rest[i - 2..i], h[i..i + 2]);
    } else {
      forall k | 0 <= k < |h| - i
        ensures rest[i - 2..][k] == h[i..][k]
      {
      }
    }
  }

  /** One or two hexadecimal digits denote a byte. */
  lemma HexChunkValue(chunk: seq<char>)
    requires IsHex(chunk) && 1 <= |chunk| <= 2
    ensures HexValue(chunk) == if |chunk| == 1 then HexDigitValue(chunk[0])
                               else 16 * HexDigitValue(chunk[0]) + HexDigitValue(chunk[1])
    ensures HexValue(chunk) < 256
  {
    assert chunk[..|chunk| - 1][..0] == [];
    if |chunk| == 2 {
      assert chunk[..1] == [chunk[0]];
      assert HexValue([chunk[0]]) == HexDigitValue(chunk[0]) by {
        assert [chunk[0]][..0] == [];
      }
    }
  }

  /** `hex(b)[2:].rjust(2, '0')`: the two hexadecimal digits of one byte. */
  function ByteHex(b: Byte): (r: seq<char>)
    ensures |r| == 2 && r[0] == HexChar(b / 16) && r[1] == HexChar(b % 16)
  {
    var digits := Hex(b);
    if b < 16 then
      assert digits == [HexChar(b)];
      ['0'] + digits
    else
      assert digits == Hex(b / 16) + [HexChar(b % 16)];
      assert Hex(b / 16) == [HexChar(b / 16)];
      digits
  }

  /** string2hex (non_secure_encryption.py:49-63): two lower-case hexadecimal
      digits per byte. */
  function String2Hex(message: seq<Byte>): (r: seq<char>)
    ensures |r| == 2 * |message|
  {
    if message == [] then [] else ByteHex(message[0]) + String2Hex(message[1..])
  }

  /** string2hex emits only lower-case hexadecimal digits. */
  lemma {:induction false} String2HexIsLowerHex(m: seq<Byte>)
    ensures IsLowerHex(String2Hex(m)) && IsHex(String2Hex(m))
    decreases |m|
  {
    if m != [] {
      String2HexIsLowerHex(m[1..]);
      var head, tail := ByteHex(m[0]), String2Hex(m[1..]);
      assert String2Hex(m) == head + tail;
      forall i | 0 <= i < |head + tail|
        ensures (head + tail)[i] == if i < 2 then head[i] else tail[i - 2]
      {
      }
    }
  }

  /** string2hex distributes over concatenation. */
  lemma {:induction false} String2HexAppend(a: seq<Byte>, b: seq<Byte>)
    ensures String2Hex(a + b) == String2Hex(a) + String2Hex(b)
    decreases |a|
  {
    if a == [] {
      assert a + b == b;
    } else {
      assert (a + b)[0] == a[0];
      assert (a + b)[1..] == a[1..] + b;
      String2HexAppend(a[1..], b);
    }
  }

  /** Characters 2i and 2i+1 of string2hex(m) are the two digits of byte i. */
  lemma {:induction false} String2HexAt(m: seq<Byte>, i: nat)
    requires i < |m|
    ensures String2Hex(m)[2 * i] == HexChar(m[i] / 16)
    ensures String2Hex(m)[2 * i + 1] == HexChar(m[i] % 16)
    decreases i
  {
    var head, tail := ByteHex(m[0]), String2Hex(m[1..]);
    assert String2Hex(m) == head + tail;
    if i > 0 {
      String2HexAt(m[1..], i - 1);
      assert m[1..][i - 1] == m[i];
    }
  }

  /** The chunk `string2hex(m)[2i:2i+2]` is the hexadecimal form of byte i. */
  lemma String2HexChunk(m: seq<Byte>, i: nat)
    requires i < |m|
    ensures String2Hex(m)[2 * i..2 * i + 2] == [HexChar(m[i] / 16), HexChar(m[i] % 16)]
  {
    String2HexAt(m, i);
    PairSlice(String2Hex(m), 2 * i, HexChar(m[i] / 16), HexChar(m[i] % 16));
  }

  /** A two-element slice is the pair of its elements. */
  lemma PairSlice<T>(s: seq<T>, k: nat, x: T, y: T)
    requires k + 1 < |s| && s[k] == x && s[k + 1] == y
    ensures s[k..k + 2] == [x, y]
  {
  }

  /** hex2string inverts string2hex on every byte string. */
  lemma {:induction false} Hex2StringOfString2Hex(m: seq<Byte>)
    ensures IsHex(String2Hex(m))
    ensures Hex2String(String2Hex(m)) == m
    decreases |m|
  {
    String2HexIsLowerHex(m);
    if m != [] {
      var h := String2Hex(m);
      assert h[..2] == ByteHex(m[0]);
      assert h[2..] == String2Hex(m[1..]);
      Hex2StringCons(h);
      ByteHexValue(m[0]);
      Hex2StringOfString2Hex(m[1..]);
      assert [m[0]] + m[1..] == m;
    }
  }

  /** hex2string reads the first two digits and then the rest. */
  lemma Hex2StringCons(h: seq<char>)
    requires IsHex(h) && 2 <= |h|
    ensures IsHex(h[..2]) && IsHex(h[2..])
    ensures Hex2String(h) == [HexValue(h[..2])] + Hex2String(h[2..])
  {
    HexSuffix(h);
    assert HexChunk(h, 0) == h[..2];
  }

  /** The two digits string2hex writes for a byte denote that byte. */
  lemma ByteHexValue(b: Byte)
    ensures IsHex(ByteHex(b)) && HexValue(ByteHex(b)) == b
  {
    var digits := ByteHex(b);
    HexChunkValue(digits);
  }

  /** string2hex inverts hex2string on lower-case hexadecimal strings of
      even length. */
  lemma {:induction false} String2HexOfHex2String(h: seq<char>)
    requires IsLowerHex(h) && IsHex(h) && |h| % 2 == 0
    ensures String2Hex(Hex2String(h)) == h
    decreases |h|
  {
    if h != [] {
      var chunk, tail := h[..2], h[2..];
      HexSuffix(h);
      String2HexOfHex2String(tail);
      var r := Hex2String(h);
      assert r[1..] == Hex2String(tail);
      FirstByteHex(h);
      assert String2Hex(r) == ByteHex(r[0]) + String2Hex(r[1..]);
      assert h == chunk + tail;
    }
  }

  /** The first byte hex2string decodes is written back as the first two digits. */
  lemma FirstByteHex(h: seq<char>)
    requires IsLowerHex(h) && IsHex(h) && |h| >= 2
    ensures ByteHex(Hex2String(h)[0]) == h[..2]
  {
    var b := Hex2String(h)[0];
    var chunk := h[..2];
    assert HexChunk(h, 0) == chunk;
    HexChunkValue(chunk);
    var hi, lo := HexDigitValue(h[0]), HexDigitValue(h[1]);
    DigitsOfByte(b, hi, lo);
    LowerHexDigit(h[0]);
    LowerHexDigit(h[1]);
    PairEqual(ByteHex(b), chunk);
  }

  /** The two hexadecimal digits of 16 hi + lo are hi and lo. */
  lemma DigitsOfByte(b: nat, hi: nat, lo: nat)
    requires b == 16 * hi + lo && lo < 16
    ensures b / 16 == hi && b % 16 == lo
  {
  }

  /** Two sequences of length two with the same elements are equal. */
  lemma PairEqual<T>(s: seq<T>, t: seq<T>)
    requires |s| == 2 && |t| == 2 && s[0] == t[0] && s[1] == t[1]
    ensures s == t
  {
  }

  lemma LowerHexDigit(c: char)
    requires IsHexDigit(c) && (('0' <= c <= '9') || ('a' <= c <= 'f'))
    ensures HexChar(HexDigitValue(c)) == c
  {
  }
}
