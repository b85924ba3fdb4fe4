/** The three single-key stream ciphers. Each is a loop over the text (a
    method, as in the source) proved equal to a specification function, and
    the properties the source's examples rely on are lemmas about those
    functions. */
module Ciphers {
  import opened Bits
  import opened KeySchedule
  import opened Permuter

  // ---------------------------------------------------------------------
  // encrypt_with_power: the key is squared after every byte, no recovery.

  /** Byte i of the output is byte i of the text xor key^(2^i) mod 256. */
  function PowerCipher(plaintext: seq<Byte>, key: Byte): (r: seq<Byte>)
    ensures |r| == |plaintext|
  {
    seq(|plaintext|, i requires 0 <= i < |plaintext| => XorByte(plaintext[i], PowerKey(key, i)))
  }

  /** encrypt_with_power (non_secure_encryption.py:90-96). */
  method EncryptWithPower(plaintext: seq<Byte>, key: Byte) returns (ret: seq<Byte>)
    ensures ret == PowerCipher(plaintext, key)
  {
    ret := [];
    var actualKey := key;
    for i := 0 to |plaintext|
      invariant ret == PowerCipher(plaintext[..i], key)
      invariant actualKey == PowerKey(key, i)
    {
      var actualCipherVal := XorByte(plaintext[i], actualKey);
      PowerCipherSnoc(plaintext, key, i);
      ret := ret + [actualCipherVal];
      actualKey := Square(actualKey);
    }
    assert plaintext[..|plaintext|] == plaintext;
  }

  /** One more byte of text adds one more byte of output, enciphered with
      the next key of the stream. */
  lemma PowerCipherSnoc(plaintext: seq<Byte>, key: Byte, i: nat)
    requires i < |plaintext|
    ensures PowerCipher(plaintext[..i + 1], key)
      == PowerCipher(plaintext[..i], key) + [XorByte(plaintext[i], PowerKey(key, i))]
  {
    var longer, shorter := PowerCipher(plaintext[..i + 1], key), PowerCipher(plaintext[..i], key);
    var last := XorByte(plaintext[i], PowerKey(key, i));
    forall k | 0 <= k < i
      ensures longer[k] == shorter[k]
    {
      assert plaintext[..i + 1][k] == plaintext[..i][k];
    }
    SnocEqual(longer, shorter, last);
  }

  /** A sequence one longer than s that agrees with s and ends in x is s + [x]. */
  lemma SnocEqual(longer: seq<Byte>, shorter: seq<Byte>, x: Byte)
    requires |longer| == |shorter| + 1 && longer[|shorter|] == x
    requires forall k | 0 <= k < |shorter| :: longer[k] == shorter[k]
    ensures longer == shorter + [x]
  {
  }

  /** The cipher is its own inverse: applying it twice with one key gives
      the text back, so the same call decrypts. */
  lemma PowerCipherInvolutive(plaintext: seq<Byte>, key: Byte)
    ensures PowerCipher(PowerCipher(plaintext, key), key) == plaintext
  {
    var once := PowerCipher(plaintext, key);
    forall i | 0 <= i < |plaintext|
      ensures PowerCipher(once, key)[i] == plaintext[i]
    {
      XorCancel(plaintext[i], PowerKey(key, i));
    }
  }

  /** With key 0 every key of the stream is 0 and the text is unchanged. */
  lemma PowerCipherKeyZero(plaintext: seq<Byte>)
    ensures PowerCipher(plaintext, 0) == plaintext
  {
    forall i | 0 <= i < |plaintext|
      ensures PowerCipher(plaintext, 0)[i] == plaintext[i]
    {
      PowerKeyAbsorbed(0, 0, i);
      XorZero(plaintext[i]);
    }
  }

  /** With an even key only the first three bytes are changed: the fourth
      key is k^8 mod 256 = 0, and so is every later one. */
  lemma PowerCipherEvenKey(plaintext: seq<Byte>, key: Byte, i: nat)
    requires key % 2 == 0 && 3 <= i < |plaintext|
    ensures PowerCipher(plaintext, key)[i] == plaintext[i]
  {
    EvenKeyVanishes(key, i);
    XorZero(plaintext[i]);
  }

  // ---------------------------------------------------------------------
  // The key-stream loop shared by encrypt_with_power2 and
  // encrypt_with_power_and_swap_every_second_bit.

  /** The per-byte operation of a key-stream cipher: a byte, the current key
      and the mode give the output byte. */
  type Step = (Byte, Byte, Mode) -> Byte

  /** Each byte goes through `step` with the current key, and the next key
      comes from update_key, given the byte just consumed and the output so
      far: it depends on the current key and, when squaring degenerates, on
      the plaintext byte (encrypt) or on the byte just emitted (decrypt). */
  function KeyStream(step: Step, text: seq<Byte>, key: Byte, mode: Mode): (r: seq<Byte>)
    ensures |r| == |text|
  {
    if text == [] then []
    else
      var out := step(text[0], key, mode);
      [out] + KeyStream(step, text[1..], UpdateKey(key, text[0], [out], mode), mode)
  }

  /** The two modes of `step` undo each other under every key. */
  predicate Inverts(step: Step) {
    (forall b: Byte, k: Byte :: step(step(b, k, Encrypt), k, Decrypt) == b) &&
    (forall b: Byte, k: Byte :: step(step(b, k, Decrypt), k, Encrypt) == b)
  }

  /** One pass of the loop from position i of the text, with the output so
      far in front: the pass emits step(text[i]) and hands update_key the
      output including that byte. */
  lemma KeyStreamStep(step: Step, text: seq<Byte>, i: nat, key: Byte, mode: Mode, done: seq<Byte>)
    requires i < |text|
    ensures var out := step(text[i], key, mode);
      done + KeyStream(step, text[i..], key, mode)
        == (done + [out]) + KeyStream(step, text[i + 1..], UpdateKey(key, text[i], done + [out], mode), mode)
  {
    assert text[i..][1..] == text[i + 1..];
  }

  /** A key-stream output is pinned down by its steps: when byte i of `out`
      is the step of text byte i under key i, and every key after the first
      is update_key of the step before it, `out` is the key stream from the
      first key. */
  lemma {:induction false} KeyStreamOf(step: Step, text: seq<Byte>, keys: seq<Byte>, out: seq<Byte>, mode: Mode)
    requires 0 < |text| == |keys| == |out|
    requires forall i | 0 <= i < |text| :: out[i] == step(text[i], keys[i], mode)
    requires forall i | 0 < i < |text| :: keys[i] == UpdateKey(keys[i - 1], text[i - 1], [out[i - 1]], mode)
    ensures KeyStream(step, text, keys[0], mode) == out
    decreases |text|
  {
    var next := UpdateKey(keys[0], text[0], [out[0]], mode);
    if |text| == 1 {
      assert KeyStream(step, text[1..], next, mode) == [];
    } else {
      assert next == keys[1];
      forall i | 0 <= i < |text| - 1
        ensures out[1..][i] == step(text[1..][i], keys[1..][i], mode)
      {
        assert out[i + 1] == step(text[i + 1], keys[i + 1], mode);
      }
      forall i | 0 < i < |text| - 1
        ensures keys[1..][i] == UpdateKey(keys[1..][i - 1], text[1..][i - 1], [out[1..][i - 1]], mode)
      {
        assert keys[i + 1] == UpdateKey(keys[i], text[i], [out[i]], mode);
      }
      KeyStreamOf(step, text[1..], keys[1..], out[1..], mode);
    }
    assert out == [out[0]] + out[1..];
  }

  /** Decryption undoes encryption with the same key, for any step whose
      modes undo each other: the decryptor rebuilds the encryptor's key
      stream because update_key sees the same plaintext byte on both
      sides. */
  lemma {:induction false} KeyStreamDecryptsEncrypt(step: Step, plaintext: seq<Byte>, key: Byte)
    requires Inverts(step)
    ensures KeyStream(step, KeyStream(step, plaintext, key, Encrypt), key, Decrypt) == plaintext
    decreases |plaintext|
  {
    if plaintext != [] {
      var p := plaintext[0];
      var c := step(p, key, Encrypt);
      var next := UpdateKey(key, p, [c], Encrypt);
      KeyStreamDecryptsEncrypt(step, plaintext[1..], next);
      var cipher := KeyStream(step, plaintext, key, Encrypt);
      assert cipher[0] == c && cipher[1..] == KeyStream(step, plaintext[1..], next, Encrypt);
      assert step(c, key, Decrypt) == p;
      UpdateKeyAgrees(key, p, c, [], []);
    }
  }

  /** Encryption undoes decryption with the same key. */
  lemma {:induction false} KeyStreamEncryptsDecrypt(step: Step, ciphertext: seq<Byte>, key: Byte)
    requires Inverts(step)
    ensures KeyStream(step, KeyStream(step, ciphertext, key, Decrypt), key, Encrypt) == ciphertext
    decreases |ciphertext|
  {
    if ciphertext != [] {
      var c := ciphertext[0];
      var p := step(c, key, Decrypt);
      var next := UpdateKey(key, c, [p], Decrypt);
      KeyStreamEncryptsDecrypt(step, ciphertext[1..], next);
      var plain := KeyStream(step, ciphertext, key, Decrypt);
      assert plain[0] == p && plain[1..] == KeyStream(step, ciphertext[1..], next, Decrypt);
      assert step(p, key, Encrypt) == c;
      UpdateKeyAgrees(key, p, c, [], []);
    }
  }

  /** Two keys with the same square (2 and 62, say) give outputs that differ
      in the first byte only, as long as that square is above 1 or the mode
      is encrypt (in decrypt mode a degenerate square is replaced by the
      first output byte, which depends on the key). */
  lemma KeyStreamSameSquare(step: Step, text: seq<Byte>, key1: Byte, key2: Byte, mode: Mode)
    requires text != [] && Square(key1) == Square(key2)
    requires Square(key1) > 1 || mode == Encrypt
    ensures KeyStream(step, text, key1, mode)[1..] == KeyStream(step, text, key2, mode)[1..]
  {
    var out1, out2 := step(text[0], key1, mode), step(text[0], key2, mode);
    assert UpdateKey(key1, text[0], [out1], mode) == UpdateKey(key2, text[0], [out2], mode);
  }

  /** Decrypting with a wrong key that has the same square, when that square
      is above 1, recovers all but the first byte of the text. */
  lemma KeyStreamWrongKey(step: Step, plaintext: seq<Byte>, key: Byte, wrongKey: Byte)
    requires Inverts(step)
    requires plaintext != [] && Square(key) == Square(wrongKey) > 1
    ensures KeyStream(step, KeyStream(step, plaintext, key, Encrypt), wrongKey, Decrypt)[1..] == plaintext[1..]
  {
    var cipher := KeyStream(step, plaintext, key, Encrypt);
    KeyStreamSameSquare(step, cipher, wrongKey, key, Decrypt);
    KeyStreamDecryptsEncrypt(step, plaintext, key);
  }

  // ---------------------------------------------------------------------
  // encrypt_with_power2: the key is squared, with recovery through update_key.

  /** `ord(c) ^ actual_key`, the same in both modes. */
  function XorKey(ch: Byte, key: Byte, mode: Mode): (r: Byte)
    ensures Xor(r, key) == ch
  {
    XorByte(ch, key)
  }

  /** Xoring the key twice gives the byte back. */
  lemma XorKeyInverts()
    ensures Inverts(XorKey)
  {
    forall b: Byte, k: Byte
      ensures XorKey(XorKey(b, k, Encrypt), k, Decrypt) == b
    {
      XorCancel(b, k);
    }
  }

  /** The text xored with the key stream that update_key produces. */
  function Power2Cipher(plaintext: seq<Byte>, key: Byte, mode: Mode): (r: seq<Byte>)
    ensures |r| == |plaintext|
    ensures plaintext != [] ==> r[0] == XorByte(plaintext[0], key)
  {
    KeyStream(XorKey, plaintext, key, mode)
  }

  /** encrypt_with_power2 (non_secure_encryption.py:129-134). update_key is
      given the whole output so far; it only ever looks at its last byte. */
  method EncryptWithPower2(plaintext: seq<Byte>, key: Byte, mode: Mode) returns (ret: seq<Byte>)
    ensures ret == Power2Cipher(plaintext, key, mode)
  {
    ret := [];
    var actualKey := key;
    for i := 0 to |plaintext|
      invariant ret + Power2Cipher(plaintext[i..], actualKey, mode) == Power2Cipher(plaintext, key, mode)
    {
      var c := plaintext[i];
      var cipherVal := XorByte(c, actualKey);
      KeyStreamStep(XorKey, plaintext, i, actualKey, mode, ret);
      ret := ret + [cipherVal];
      actualKey := UpdateKey(actualKey, c, ret, mode);
    }
    assert plaintext[|plaintext|..] == [];
  }

  /** Decryption undoes encryption with the same key. */
  lemma Power2DecryptsEncrypt(plaintext: seq<Byte>, key: Byte)
    ensures Power2Cipher(Power2Cipher(plaintext, key, Encrypt), key, Decrypt) == plaintext
  {
    XorKeyInverts();
    KeyStreamDecryptsEncrypt(XorKey, plaintext, key);
  }

  /** Encryption undoes decryption with the same key. */
  lemma Power2EncryptsDecrypt(ciphertext: seq<Byte>, key: Byte)
    ensures Power2Cipher(Power2Cipher(ciphertext, key, Decrypt), key, Encrypt) == ciphertext
  {
    XorKeyInverts();
    KeyStreamEncryptsDecrypt(XorKey, ciphertext, key);
  }

  /** Decrypting with a wrong key that has the same square, when that square
      is above 1, recovers all but the first byte of the text. */
  lemma Power2WrongKey(plaintext: seq<Byte>, key: Byte, wrongKey: Byte)
    requires plaintext != [] && Square(key) == Square(wrongKey) > 1
    ensures Power2Cipher(Power2Cipher(plaintext, key, Encrypt), wrongKey, Decrypt)[1..] == plaintext[1..]
  {
    XorKeyInverts();
    KeyStreamWrongKey(XorKey, plaintext, key, wrongKey);
  }

  // ---------------------------------------------------------------------
  // encrypt_with_power_and_swap_every_second_bit.

  /** swap_bit_and_encrypt (non_secure_encryption.py:207-213): encryption
      permutes the bits of the byte and then xors the key; decryption xors
      the key and then permutes the bits. */
  function SwapBitAndEncrypt(ch: Byte, key: Byte, mode: Mode): (r: Byte)
    ensures mode == Encrypt ==> PairsSwapped(ch, Xor(r, key))
    ensures mode == Decrypt ==> PairsSwapped(Xor(ch, key), r)
  {
    if mode == Encrypt then
      var swapped := SwapEverySecondBit(ch);
      XorCancel(swapped, key);
      XorByte(swapped, key)
    else SwapEverySecondBit(XorByte(ch, key))
  }

  /** Each mode of swap_bit_and_encrypt undoes the other. */
  lemma SwapBitAndEncryptInverse(b: Byte, key: Byte)
    ensures SwapBitAndEncrypt(SwapBitAndEncrypt(b, key, Encrypt), key, Decrypt) == b
    ensures SwapBitAndEncrypt(SwapBitAndEncrypt(b, key, Decrypt), key, Encrypt) == b
  {
    SwapEncryptUndone(b, key);
    SwapDecryptUndone(b, key);
  }

  /** Decryption undoes encryption: the key is xored out, then the bit pairs
      are swapped back. */
  lemma SwapEncryptUndone(b: Byte, key: Byte)
    ensures SwapBitAndEncrypt(SwapBitAndEncrypt(b, key, Encrypt), key, Decrypt) == b
  {
    var swapped := SwapEverySecondBit(b);
    XorCancel(swapped, key);
    SwapEverySecondBitInvolutive(b);
  }

  /** Encryption undoes decryption: the bit pairs are swapped back, then the
      key is xored out. */
  lemma SwapDecryptUndone(b: Byte, key: Byte)
    ensures SwapBitAndEncrypt(SwapBitAndEncrypt(b, key, Decrypt), key, Encrypt) == b
  {
    var plain := XorByte(b, key);
    assert SwapBitAndEncrypt(b, key, Decrypt) == SwapEverySecondBit(plain);
    SwapEverySecondBitInvolutive(plain);
    XorCancel(b, key);
    assert XorByte(plain, key) == b;
  }

  /** The same, for every byte and key at once. */
  lemma SwapBitAndEncryptInverts()
    ensures Inverts(SwapBitAndEncrypt)
  {
    forall b: Byte, k: Byte
      ensures SwapBitAndEncrypt(SwapBitAndEncrypt(b, k, Encrypt), k, Decrypt) == b
      ensures SwapBitAndEncrypt(SwapBitAndEncrypt(b, k, Decrypt), k, Encrypt) == b
    {
      SwapBitAndEncryptInverse(b, k);
    }
  }

  /** The swap cipher: each byte goes through swap_bit_and_encrypt with the
      current key, and the key evolves through update_key. */
  function SwapCipher(plaintext: seq<Byte>, key: Byte, mode: Mode): (r: seq<Byte>)
    ensures |r| == |plaintext|
    ensures plaintext != [] ==> r[0] == SwapBitAndEncrypt(plaintext[0], key, mode)
  {
    KeyStream(SwapBitAndEncrypt, plaintext, key, mode)
  }

  /** encrypt_with_power_and_swap_every_second_bit
      (non_secure_encryption.py:199-204). */
  method EncryptWithPowerAndSwap(plaintext: seq<Byte>, key: Byte, mode: Mode) returns (ret: seq<Byte>)
    ensures ret == SwapCipher(plaintext, key, mode)
  {
    ret := [];
    var actualKey := key;
    for i := 0 to |plaintext|
      invariant ret + SwapCipher(plaintext[i..], actualKey, mode) == SwapCipher(plaintext, key, mode)
    {
      var c := plaintext[i];
      var cipherVal := SwapBitAndEncrypt(c, actualKey, mode);
      KeyStreamStep(SwapBitAndEncrypt, plaintext, i, actualKey, mode, ret);
      ret := ret + [cipherVal];
      actualKey := UpdateKey(actualKey, c, ret, mode);
    }
    assert plaintext[|plaintext|..] == [];
  }

  /** Decryption undoes encryption with the same key. */
  lemma SwapDecryptsEncrypt(plaintext: seq<Byte>, key: Byte)
    ensures SwapCipher(SwapCipher(plaintext, key, Encrypt), key, Decrypt) == plaintext
  {
    SwapBitAndEncryptInverts();
    KeyStreamDecryptsEncrypt(SwapBitAndEncrypt, plaintext, key);
  }

  /** Encryption undoes decryption with the same key. */
  lemma SwapEncryptsDecrypt(ciphertext: seq<Byte>, key: Byte)
    ensures SwapCipher(SwapCipher(ciphertext, key, Decrypt), key, Encrypt) == ciphertext
  {
    SwapBitAndEncryptInverts();
    KeyStreamEncryptsDecrypt(SwapBitAndEncrypt, ciphertext, key);
  }

  /** Decrypting with a wrong key that has the same square, when that square
      is above 1, recovers all but the first byte of the text ('Hello' encrypted with 2 and decrypted
      with 62 ends in 'ello'). */
  lemma SwapWrongKey(plaintext: seq<Byte>, key: Byte, wrongKey: Byte)
    requires plaintext != [] && Square(key) == Square(wrongKey) > 1
    ensures SwapCipher(SwapCipher(plaintext, key, Encrypt), wrongKey, Decrypt)[1..] == plaintext[1..]
  {
    SwapBitAndEncryptInverts();
    KeyStreamWrongKey(SwapBitAndEncrypt, plaintext, key, wrongKey);
  }
}
