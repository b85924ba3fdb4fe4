/** Worked examples from the source's documentation, stated on the model. */
module Vectors {
  import opened Bits
  import opened Codec
  import opened KeySchedule
  import opened Ciphers
  import opened Permuter
  import opened Interleave

  /** bin2hex('1111') is 'f'. The input is given character by character,
      as for fillupbyte below. */
  lemma Bin2HexVector(ones: seq<char>)
    requires |ones| == 4 && ones[0] == '1' && ones[1] == '1' && ones[2] == '1' && ones[3] == '1'
    ensures Bin2Hex(ones) == "f"
  {
    assert BinValue(ones[..1]) == 1;
    assert ones[..2][..1] == ones[..1];
    assert BinValue(ones[..2]) == 3;
    assert ones[..3][..2] == ones[..2];
    assert BinValue(ones[..3]) == 7;
    assert ones[..3] == ones[..|ones| - 1];
    assert BinValue(ones) == 15;
    assert Hex(15) == [HexChar(15)];
  }

  /** bin2hex('1') is '1'. */
  lemma Bin2HexOne(one: seq<char>)
    requires |one| == 1 && one[0] == '1'
    ensures Bin2Hex(one) == "1"
  {
    assert BinValue(one) == 1;
    assert Hex(1) == [HexChar(1)];
  }

  /** fillupbyte('011') is '00000011'. The input is given character by
      character, which keeps the solver from unfolding fillupbyte on a
      literal string. */
  lemma FillUpByteShort(short: seq<char>)
    requires |short| == 3 && short[0] == '0' && short[1] == '1' && short[2] == '1'
    ensures FillUpByte(short) == "00000011"
  {
    FillUpBytePads(short);
    var padded := FillUpByte(short);
    assert |padded| == 8;
    assert padded == Zeros(5) + short;
  }

  /** fillupbyte('11100111') is unchanged. */
  lemma FillUpByteFull(full: seq<char>)
    requires full == "11100111"
    ensures FillUpByte(full) == full
  {
    FillUpByteAligned(full);
  }

  /** string2hex('a') is '61' and hex2string('61') is 'a'. */
  lemma HexVectors()
    ensures String2Hex([97]) == "61"
    ensures Hex2String("61") == [97]
  {
  }

  /** swap_every_second_bit(1) is 2 and swap_every_second_bit(0b01010110)
      is 0b10101001: the permutation is pinned down by which bits it
      exchanges. */
  lemma SwapVectors()
    ensures SwapEverySecondBit(1) == 2
    ensures SwapEverySecondBit(0x56) == 0xa9
  {
    SwapVector(1, 2);
    SwapVector(0x56, 0xa9);
  }

  /** When y has x's bit pairs exchanged, swap_every_second_bit(x) is y. */
  lemma SwapVector(x: Byte, y: Byte)
    requires Bit(y, 0) == Bit(x, 1) && Bit(y, 1) == Bit(x, 0)
    requires Bit(y, 2) == Bit(x, 3) && Bit(y, 3) == Bit(x, 2)
    requires Bit(y, 4) == Bit(x, 5) && Bit(y, 5) == Bit(x, 4)
    requires Bit(y, 6) == Bit(x, 7) && Bit(y, 7) == Bit(x, 6)
    ensures SwapEverySecondBit(x) == y
  {
    BitPairs(x, y);
    PairsSwappedTwice(y, x, SwapEverySecondBit(x));
  }

  /** The eight bit equations, gathered into one statement. */
  lemma BitPairs(x: Byte, y: Byte)
    requires Bit(y, 0) == Bit(x, 1) && Bit(y, 1) == Bit(x, 0)
    requires Bit(y, 2) == Bit(x, 3) && Bit(y, 3) == Bit(x, 2)
    requires Bit(y, 4) == Bit(x, 5) && Bit(y, 5) == Bit(x, 4)
    requires Bit(y, 6) == Bit(x, 7) && Bit(y, 7) == Bit(x, 6)
    ensures PairsSwapped(y, x)
  {
    forall j | 0 <= j < 8
      ensures Bit(x, j) == Bit(y, if j % 2 == 0 then j + 1 else j - 1)
    {
      if j == 0 {} else if j == 1 {} else if j == 2 {} else if j == 3 {}
      else if j == 4 {} else if j == 5 {} else if j == 6 {} else { assert j == 7; }
    }
  }

  /** 'Hello' encrypted by encrypt_with_power2 under key 2 and decrypted
      under key 62 comes back as 'tello': 2 and 62 have the same square
      modulo 256, so only the first byte is wrong. */
  lemma WrongKeyVector(hello: seq<Byte>, tello: seq<Byte>)
    requires hello == [72, 101, 108, 108, 111] && tello == [116, 101, 108, 108, 111]
    ensures Power2Cipher(Power2Cipher(hello, 2, Encrypt), 62, Decrypt) == tello
  {
    var plain := Power2Cipher(Power2Cipher(hello, 2, Encrypt), 62, Decrypt);
    SameSquare();
    Power2WrongKey(hello, 2, 62);
    WrongKeyFirst(hello, 2, 62);
    XorVector();
    SameTail(hello, tello);
    HeadTail(plain, tello);
  }

  /** 'Hello' and 'tello' share their last four letters. */
  lemma SameTail(hello: seq<Byte>, tello: seq<Byte>)
    requires hello == [72, 101, 108, 108, 111] && tello == [116, 101, 108, 108, 111]
    ensures hello[1..] == tello[1..]
  {
  }

  /** Two non-empty sequences with the same head and tail are equal. */
  lemma HeadTail(s: seq<Byte>, t: seq<Byte>)
    requires s != [] && t != [] && s[0] == t[0] && s[1..] == t[1..]
    ensures s == t
  {
    assert s == [s[0]] + s[1..];
    assert t == [t[0]] + t[1..];
  }

  /** The first byte of a wrong-key decryption is the first plaintext byte
      xored with both keys. */
  lemma WrongKeyFirst(plaintext: seq<Byte>, key: Byte, wrongKey: Byte)
    requires plaintext != []
    ensures Power2Cipher(Power2Cipher(plaintext, key, Encrypt), wrongKey, Decrypt)[0]
         == XorByte(XorByte(plaintext[0], key), wrongKey)
  {
  }

  /** 2 and 62 square to the same key, 4, modulo 256. */
  lemma SameSquare()
    ensures Square(2) == Square(62) == 4
  {
  }

  /** 'H' (72) xor 2 is 74, and 74 xor 62 is 't' (116). */
  lemma XorVector()
    ensures XorByte(XorByte(72, 2), 62) == 116
  {
    Xor72By2();
    Xor74By62();
  }

  // ---------------------------------------------------------------------
  // The ciphers on 'Hello' (72 101 108 108 111).

  /** encrypt_with_power('Hello', 250) is b2 41 7c 6c 6f: the keys are 250,
      36, 16 and then 0, which leaves the last two bytes alone. */
  lemma PowerVector(hello: seq<Byte>, cipher: seq<Byte>)
    requires hello == [72, 101, 108, 108, 111] && cipher == [0xb2, 0x41, 0x7c, 0x6c, 0x6f]
    ensures PowerCipher(hello, 250) == cipher
  {
    PowerKeys250();
    Xor72By250();
    Xor101By36();
    Xor108By16();
    XorZero(108);
    XorOf(108, 0, 0x6c);
    XorZero(111);
    XorOf(111, 0, 0x6f);
    var c := PowerCipher(hello, 250);
    forall i | 0 <= i < 5
      ensures c[i] == cipher[i]
    {
      if i == 0 {} else if i == 1 {} else if i == 2 {} else if i == 3 {} else {}
    }
  }

  lemma PowerKeys250()
    ensures PowerKey(250, 1) == 36 && PowerKey(250, 2) == 16
    ensures PowerKey(250, 3) == 0 && PowerKey(250, 4) == 0
  {
  }

  /** encrypt_with_power2('Hello', 253, 'encrypt') is b5 6c 3d cd 2e: the
      keys are 253, 9, 81, 161 and 65, none of which squares to 0 or 1. */
  lemma Power2Vector(hello: seq<Byte>, cipher: seq<Byte>)
    requires hello == [72, 101, 108, 108, 111] && cipher == [0xb5, 0x6c, 0x3d, 0xcd, 0x2e]
    ensures Power2Cipher(hello, 253, Encrypt) == cipher
  {
    var keys: seq<Byte> := [253, 9, 81, 161, 65];
    Power2Keys(hello, keys, cipher);
    Power2Xors(hello, keys, cipher);
    KeyStreamOf(XorKey, hello, keys, cipher, Encrypt);
  }

  /** Each key of that run is the square of the one before. */
  lemma Power2Keys(hello: seq<Byte>, keys: seq<Byte>, cipher: seq<Byte>)
    requires hello == [72, 101, 108, 108, 111] && cipher == [0xb5, 0x6c, 0x3d, 0xcd, 0x2e]
    requires keys == [253, 9, 81, 161, 65]
    ensures forall i | 0 < i < 5 :: keys[i] == UpdateKey(keys[i - 1], hello[i - 1], [cipher[i - 1]], Encrypt)
  {
    assert Square(253) == 9 && Square(9) == 81 && Square(81) == 161 && Square(161) == 65;
    forall i | 0 < i < 5
      ensures keys[i] == UpdateKey(keys[i - 1], hello[i - 1], [cipher[i - 1]], Encrypt)
    {
      if i == 1 {} else if i == 2 {} else if i == 3 {} else {}
    }
  }

  /** Each byte of that run is the plaintext byte xored with its key. */
  lemma Power2Xors(hello: seq<Byte>, keys: seq<Byte>, cipher: seq<Byte>)
    requires hello == [72, 101, 108, 108, 111] && cipher == [0xb5, 0x6c, 0x3d, 0xcd, 0x2e]
    requires keys == [253, 9, 81, 161, 65]
    ensures forall i | 0 <= i < 5 :: XorByte(hello[i], keys[i]) == cipher[i]
  {
    forall i | 0 <= i < 5
      ensures XorByte(hello[i], keys[i]) == cipher[i]
    {
      if i == 0 {
        Xor72By253();
      } else if i == 1 {
        Xor101By9();
      } else if i == 2 {
        Xor108By81();
      } else if i == 3 {
        Xor108By161();
      } else {
        Xor111By65();
      }
    }
  }

  /** encrypt_with_power_and_swap_every_second_bit('Hello', 250, 'encrypt')
      is 7e be 8c f0 0f. The third key, 16, squares to 0, so the fourth key
      is recovered from the plaintext byte 'l' (108). */
  lemma SwapCipherVector(hello: seq<Byte>, cipher: seq<Byte>)
    requires hello == [72, 101, 108, 108, 111] && cipher == [0x7e, 0xbe, 0x8c, 0xf0, 0x0f]
    ensures SwapCipher(hello, 250, Encrypt) == cipher
  {
    var keys: seq<Byte> := [250, 36, 16, 108, 144];
    var swapped: seq<Byte> := [132, 154, 156, 156, 159];
    SwapKeys(hello, keys, cipher);
    HelloSwapped(hello, swapped);
    SwapXors(swapped, keys, cipher);
    SwapSteps(hello, keys, swapped, cipher);
    KeyStreamOf(SwapBitAndEncrypt, hello, keys, cipher, Encrypt);
  }

  /** The keys of that run, with the recovery after 16. */
  lemma SwapKeys(hello: seq<Byte>, keys: seq<Byte>, cipher: seq<Byte>)
    requires hello == [72, 101, 108, 108, 111] && cipher == [0x7e, 0xbe, 0x8c, 0xf0, 0x0f]
    requires keys == [250, 36, 16, 108, 144]
    ensures forall i | 0 < i < 5 :: keys[i] == UpdateKey(keys[i - 1], hello[i - 1], [cipher[i - 1]], Encrypt)
  {
    assert Square(250) == 36 && Square(36) == 16 && Square(16) == 0 && Square(108) == 144;
    forall i | 0 < i < 5
      ensures keys[i] == UpdateKey(keys[i - 1], hello[i - 1], [cipher[i - 1]], Encrypt)
    {
      if i == 1 {} else if i == 2 {} else if i == 3 {} else {}
    }
  }

  /** The swapped bytes xored with the keys of that run. */
  lemma SwapXors(swapped: seq<Byte>, keys: seq<Byte>, cipher: seq<Byte>)
    requires swapped == [132, 154, 156, 156, 159] && keys == [250, 36, 16, 108, 144]
    requires cipher == [0x7e, 0xbe, 0x8c, 0xf0, 0x0f]
    ensures forall i | 0 <= i < 5 :: XorByte(swapped[i], keys[i]) == cipher[i]
  {
    forall i | 0 <= i < 5
      ensures XorByte(swapped[i], keys[i]) == cipher[i]
    {
      if i == 0 {
        Xor132By250();
      } else if i == 1 {
        Xor154By36();
      } else if i == 2 {
        Xor156By16();
      } else if i == 3 {
        Xor156By108();
      } else {
        Xor159By144();
      }
    }
  }

  /** The letters of 'Hello' with their bit pairs exchanged. */
  lemma HelloSwapped(hello: seq<Byte>, swapped: seq<Byte>)
    requires hello == [72, 101, 108, 108, 111] && swapped == [132, 154, 156, 156, 159]
    ensures forall i | 0 <= i < 5 :: SwapEverySecondBit(hello[i]) == swapped[i]
  {
    HelloPairs(hello, swapped);
    SwappedBytes(hello, swapped);
  }

  lemma HelloPairs(hello: seq<Byte>, swapped: seq<Byte>)
    requires hello == [72, 101, 108, 108, 111] && swapped == [132, 154, 156, 156, 159]
    ensures forall i | 0 <= i < 5 :: PairsSwapped(swapped[i], hello[i])
  {
    PairsHe();
    PairsLo();
    forall i | 0 <= i < 5
      ensures PairsSwapped(swapped[i], hello[i])
    {
      if i == 0 {} else if i == 1 {} else if i == 2 {} else if i == 3 {} else {}
    }
  }

  lemma PairsHe()
    ensures PairsSwapped(132, 72) && PairsSwapped(154, 101)
  {
    BitPairs(72, 132);
    BitPairs(101, 154);
  }

  lemma PairsLo()
    ensures PairsSwapped(156, 108) && PairsSwapped(159, 111)
  {
    BitPairs(108, 156);
    BitPairs(111, 159);
  }

  /** Bytes whose bit pairs are those of text exchanged are what
      swap_every_second_bit makes of text. */
  lemma SwappedBytes(text: seq<Byte>, swapped: seq<Byte>)
    requires |text| == |swapped|
    requires forall i | 0 <= i < |text| :: PairsSwapped(swapped[i], text[i])
    ensures forall i | 0 <= i < |text| :: SwapEverySecondBit(text[i]) == swapped[i]
  {
    forall i | 0 <= i < |text|
      ensures SwapEverySecondBit(text[i]) == swapped[i]
    {
      PairsSwappedTwice(swapped[i], text[i], SwapEverySecondBit(text[i]));
    }
  }

  /** Byte by byte, swap_bit_and_encrypt in encrypt mode xors the key into
      the swapped byte. */
  lemma SwapSteps(text: seq<Byte>, keys: seq<Byte>, swapped: seq<Byte>, out: seq<Byte>)
    requires |text| == |swapped| == |out| <= |keys|
    requires forall i | 0 <= i < |text| :: SwapEverySecondBit(text[i]) == swapped[i]
    requires forall i | 0 <= i < |text| :: XorByte(swapped[i], keys[i]) == out[i]
    ensures forall i | 0 <= i < |text| :: SwapBitAndEncrypt(text[i], keys[i], Encrypt) == out[i]
  {
  }

  /** encrypt_with_power_and_swap_every_second_bit_8byte('Hello', [1, ..., 8],
      'encrypt') is 85 98 9f 98 9a: each letter is alone in its lane and is
      swapped and xored with its own key. */
  lemma EightByteVector(hello: seq<Byte>, keys: seq<Byte>, cipher: seq<Byte>)
    requires hello == [72, 101, 108, 108, 111] && keys == [1, 2, 3, 4, 5, 6, 7, 8]
    requires cipher == [0x85, 0x98, 0x9f, 0x98, 0x9a]
    ensures EightByte(hello, keys, Encrypt) == cipher
  {
    var swapped: seq<Byte> := [132, 154, 156, 156, 159];
    HelloSwapped(hello, swapped);
    EightXors(swapped, keys, cipher);
    SwapSteps(hello, keys, swapped, cipher);
    var c := EightByte(hello, keys, Encrypt);
    forall q | 0 <= q < 5
      ensures c[q] == cipher[q]
    {
      EightByteShort(hello, keys, Encrypt, q);
    }
  }

  /** Decrypting 85 98 9f 98 9a, the cipher of 'Hello' under the keys 1 to
      8, with the keys [34, 76, 87, 98, 33, 99, 1, 234] gives 5b e8 c4 f5 77:
      each byte is xored with its own key and then has its bit pairs
      exchanged. */
  lemma EightByteDecryptVector(cipher: seq<Byte>, keys: seq<Byte>, plain: seq<Byte>)
    requires cipher == [0x85, 0x98, 0x9f, 0x98, 0x9a]
    requires keys == [34, 76, 87, 98, 33, 99, 1, 234]
    requires plain == [0x5b, 0xe8, 0xc4, 0xf5, 0x77]
    ensures EightByte(cipher, keys, Decrypt) == plain
  {
    var xored: seq<Byte> := [0xa7, 0xd4, 0xc8, 0xfa, 0xbb];
    DecryptXors(cipher, keys, xored);
    DecryptPairs(xored, plain);
    SwappedBytes(xored, plain);
    DecryptSteps(cipher, keys, xored, plain);
    var p := EightByte(cipher, keys, Decrypt);
    forall q | 0 <= q < 5
      ensures p[q] == plain[q]
    {
      EightByteShort(cipher, keys, Decrypt, q);
    }
  }

  /** The cipher bytes xored with the first five of those keys. */
  lemma DecryptXors(cipher: seq<Byte>, keys: seq<Byte>, xored: seq<Byte>)
    requires cipher == [0x85, 0x98, 0x9f, 0x98, 0x9a]
    requires keys == [34, 76, 87, 98, 33, 99, 1, 234]
    requires xored == [0xa7, 0xd4, 0xc8, 0xfa, 0xbb]
    ensures forall i | 0 <= i < 5 :: XorByte(cipher[i], keys[i]) == xored[i]
  {
    DecryptXorsHead(cipher, keys, xored);
    DecryptXorsTail(cipher, keys, xored);
  }

  lemma DecryptXorsHead(cipher: seq<Byte>, keys: seq<Byte>, xored: seq<Byte>)
    requires cipher == [0x85, 0x98, 0x9f, 0x98, 0x9a]
    requires keys == [34, 76, 87, 98, 33, 99, 1, 234]
    requires xored == [0xa7, 0xd4, 0xc8, 0xfa, 0xbb]
    ensures forall i | 0 <= i < 3 :: XorByte(cipher[i], keys[i]) == xored[i]
  {
    forall i | 0 <= i < 3
      ensures XorByte(cipher[i], keys[i]) == xored[i]
    {
      if i == 0 {
        Xor133By34();
      } else if i == 1 {
        Xor152By76();
      } else {
        Xor159By87();
      }
    }
  }

  lemma DecryptXorsTail(cipher: seq<Byte>, keys: seq<Byte>, xored: seq<Byte>)
    requires cipher == [0x85, 0x98, 0x9f, 0x98, 0x9a]
    requires keys == [34, 76, 87, 98, 33, 99, 1, 234]
    requires xored == [0xa7, 0xd4, 0xc8, 0xfa, 0xbb]
    ensures forall i | 3 <= i < 5 :: XorByte(cipher[i], keys[i]) == xored[i]
  {
    forall i | 3 <= i < 5
      ensures XorByte(cipher[i], keys[i]) == xored[i]
    {
      if i == 3 {
        Xor152By98();
      } else {
        Xor154By33();
      }
    }
  }

  /** The plaintext bytes are the xored bytes with their bit pairs exchanged. */
  lemma DecryptPairs(xored: seq<Byte>, plain: seq<Byte>)
    requires xored == [0xa7, 0xd4, 0xc8, 0xfa, 0xbb]
    requires plain == [0x5b, 0xe8, 0xc4, 0xf5, 0x77]
    ensures forall i | 0 <= i < 5 :: PairsSwapped(plain[i], xored[i])
  {
    DecryptPairsHead();
    DecryptPairsTail();
    forall i | 0 <= i < 5
      ensures PairsSwapped(plain[i], xored[i])
    {
      if i == 0 {} else if i == 1 {} else if i == 2 {} else if i == 3 {} else {}
    }
  }

  lemma DecryptPairsHead()
    ensures PairsSwapped(0x5b, 0xa7) && PairsSwapped(0xe8, 0xd4) && PairsSwapped(0xc4, 0xc8)
  {
    BitPairs(0xa7, 0x5b);
    BitPairs(0xd4, 0xe8);
    BitPairs(0xc8, 0xc4);
  }

  lemma DecryptPairsTail()
    ensures PairsSwapped(0xf5, 0xfa) && PairsSwapped(0x77, 0xbb)
  {
    BitPairs(0xfa, 0xf5);
    BitPairs(0xbb, 0x77);
  }

  /** Byte by byte, swap_bit_and_encrypt in decrypt mode swaps the bit
      pairs of the byte xored with the key. */
  lemma DecryptSteps(text: seq<Byte>, keys: seq<Byte>, xored: seq<Byte>, out: seq<Byte>)
    requires |text| == |xored| == |out| <= |keys|
    requires forall i | 0 <= i < |text| :: XorByte(text[i], keys[i]) == xored[i]
    requires forall i | 0 <= i < |text| :: SwapEverySecondBit(xored[i]) == out[i]
    ensures forall i | 0 <= i < |text| :: SwapBitAndEncrypt(text[i], keys[i], Decrypt) == out[i]
  {
  }

  /** The swapped letters xored with the keys 1 to 5. */
  lemma EightXors(swapped: seq<Byte>, keys: seq<Byte>, cipher: seq<Byte>)
    requires swapped == [132, 154, 156, 156, 159] && keys == [1, 2, 3, 4, 5, 6, 7, 8]
    requires cipher == [0x85, 0x98, 0x9f, 0x98, 0x9a]
    ensures forall i | 0 <= i < 5 :: XorByte(swapped[i], keys[i]) == cipher[i]
  {
    forall i | 0 <= i < 5
      ensures XorByte(swapped[i], keys[i]) == cipher[i]
    {
      if i == 0 {
        Xor132By1();
      } else if i == 1 {
        Xor154By2();
      } else if i == 2 {
        Xor156By3();
      } else if i == 3 {
        Xor156By4();
      } else {
        Xor159By5();
      }
    }
  }

  // ---------------------------------------------------------------------
  // The exclusive ors the vectors need, each evaluated on its own.

  /** a ^ b is c as bytes once it is c as numbers. */
  lemma XorOf(a: Byte, b: Byte, c: Byte)
    requires Xor(a, b) == c
    ensures XorByte(a, b) == c
  {
  }

  lemma Xor72By2()
    ensures XorByte(72, 2) == 0x4a
  {
    assert Xor(2, 0) == 2;
    assert Xor(18, 0) == 18;
    XorOf(72, 2, 0x4a);
  }

  lemma Xor74By62()
    ensures XorByte(74, 62) == 0x74
  {
    assert Xor(2, 1) == 3;
    assert Xor(18, 15) == 29;
    XorOf(74, 62, 0x74);
  }

  lemma Xor72By250()
    ensures XorByte(72, 250) == 0xb2
  {
    assert Xor(2, 7) == 5;
    assert Xor(18, 62) == 44;
    XorOf(72, 250, 0xb2);
  }

  lemma Xor101By36()
    ensures XorByte(101, 36) == 0x41
  {
    assert Xor(3, 1) == 2;
    assert Xor(25, 9) == 16;
    XorOf(101, 36, 0x41);
  }

  lemma Xor108By16()
    ensures XorByte(108, 16) == 0x7c
  {
    assert Xor(3, 0) == 3;
    assert Xor(27, 4) == 31;
    XorOf(108, 16, 0x7c);
  }

  lemma Xor72By253()
    ensures XorByte(72, 253) == 0xb5
  {
    assert Xor(2, 7) == 5;
    assert Xor(18, 63) == 45;
    XorOf(72, 253, 0xb5);
  }

  lemma Xor101By9()
    ensures XorByte(101, 9) == 0x6c
  {
    assert Xor(3, 0) == 3;
    assert Xor(25, 2) == 27;
    XorOf(101, 9, 0x6c);
  }

  lemma Xor108By81()
    ensures XorByte(108, 81) == 0x3d
  {
    assert Xor(3, 2) == 1;
    assert Xor(27, 20) == 15;
    XorOf(108, 81, 0x3d);
  }

  lemma Xor108By161()
    ensures XorByte(108, 161) == 0xcd
  {
    assert Xor(3, 5) == 6;
    assert Xor(27, 40) == 51;
    XorOf(108, 161, 0xcd);
  }

  lemma Xor111By65()
    ensures XorByte(111, 65) == 0x2e
  {
    assert Xor(3, 2) == 1;
    assert Xor(27, 16) == 11;
    XorOf(111, 65, 0x2e);
  }

  lemma Xor132By250()
    ensures XorByte(132, 250) == 0x7e
  {
    assert Xor(4, 7) == 3;
    assert Xor(33, 62) == 31;
    XorOf(132, 250, 0x7e);
  }

  lemma Xor154By36()
    ensures XorByte(154, 36) == 0xbe
  {
    assert Xor(4, 1) == 5;
    assert Xor(38, 9) == 47;
    XorOf(154, 36, 0xbe);
  }

  lemma Xor156By16()
    ensures XorByte(156, 16) == 0x8c
  {
    assert Xor(4, 0) == 4;
    assert Xor(39, 4) == 35;
    XorOf(156, 16, 0x8c);
  }

  lemma Xor156By108()
    ensures XorByte(156, 108) == 0xf0
  {
    assert Xor(4, 3) == 7;
    assert Xor(39, 27) == 60;
    XorOf(156, 108, 0xf0);
  }

  lemma Xor159By144()
    ensures XorByte(159, 144) == 0x0f
  {
    assert Xor(4, 4) == 0;
    assert Xor(39, 36) == 3;
    XorOf(159, 144, 0x0f);
  }

  lemma Xor132By1()
    ensures XorByte(132, 1) == 0x85
  {
    assert Xor(4, 0) == 4;
    assert Xor(33, 0) == 33;
    XorOf(132, 1, 0x85);
  }

  lemma Xor154By2()
    ensures XorByte(154, 2) == 0x98
  {
    assert Xor(4, 0) == 4;
    assert Xor(38, 0) == 38;
    XorOf(154, 2, 0x98);
  }

  lemma Xor156By3()
    ensures XorByte(156, 3) == 0x9f
  {
    assert Xor(4, 0) == 4;
    assert Xor(39, 0) == 39;
    XorOf(156, 3, 0x9f);
  }

  lemma Xor156By4()
    ensures XorByte(156, 4) == 0x98
  {
    assert Xor(4, 0) == 4;
    assert Xor(39, 1) == 38;
    XorOf(156, 4, 0x98);
  }

  lemma Xor159By5()
    ensures XorByte(159, 5) == 0x9a
  {
    assert Xor(4, 0) == 4;
    assert Xor(39, 1) == 38;
    XorOf(159, 5, 0x9a);
  }

  lemma Xor133By34()
    ensures XorByte(133, 34) == 0xa7
  {
    assert Xor(4, 1) == 5;
    assert Xor(33, 8) == 41;
    XorOf(133, 34, 0xa7);
  }

  lemma Xor152By76()
    ensures XorByte(152, 76) == 0xd4
  {
    assert Xor(4, 2) == 6;
    assert Xor(38, 19) == 53;
    XorOf(152, 76, 0xd4);
  }

  lemma Xor159By87()
    ensures XorByte(159, 87) == 0xc8
  {
    assert Xor(4, 2) == 6;
    assert Xor(39, 21) == 50;
    XorOf(159, 87, 0xc8);
  }

  lemma Xor152By98()
    ensures XorByte(152, 98) == 0xfa
  {
    assert Xor(4, 3) == 7;
    assert Xor(38, 24) == 62;
    XorOf(152, 98, 0xfa);
  }

  lemma Xor154By33()
    ensures XorByte(154, 33) == 0xbb
  {
    assert Xor(4, 1) == 5;
    assert Xor(38, 8) == 46;
    XorOf(154, 33, 0xbb);
  }
}
