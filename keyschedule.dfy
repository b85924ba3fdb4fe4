/** The key scheduler: how the single-byte key evolves from one text byte
    to the next. */
module KeySchedule {
  import opened Bits

  /** The `mode` argument: the source compares it with 'encrypt'; every
      other value takes the decrypt branch. */
  datatype Mode = Encrypt | Decrypt

  /** `key ** 2 % 256`. 0 and 1 are fixed points of squaring, so a stream
      that reaches them would stay there; this is why update_key replaces
      them. */
  function Square(key: Byte): (r: Byte)
    ensures key <= 1 ==> r == key
  {
    key * key % 256
  }

  /** update_key (non_secure_encryption.py:137-144). The next key is the
      square of the key modulo 256, unless that is 0 or 1, a value squaring
      would never leave; then it is replaced by the byte just consumed
      (encrypt) or by the newest byte of the output so far (decrypt). A key
      of 0 or 1 therefore only ever comes from that replacement byte. */
  function UpdateKey(key: Byte, ch: Byte, cipherText: seq<Byte>, mode: Mode): (r: Byte)
    requires Square(key) <= 1 && mode == Decrypt ==> cipherText != []
    ensures Square(key) > 1 ==> r == Square(key)
    ensures Square(key) <= 1 ==> r == if mode == Encrypt then ch else cipherText[|cipherText| - 1]
  {
    var newKey := Square(key);
    if newKey == 0 || newKey == 1 then
      if mode == Encrypt then ch else cipherText[|cipherText| - 1]
    else newKey
  }

  /** Encryption and decryption agree on the next key whenever the byte the
      encryptor consumed is the byte the decryptor just emitted: both are
      the plaintext byte, which is what lets decryption rebuild the key
      stream. */
  lemma UpdateKeyAgrees(key: Byte, plain: Byte, cipher: Byte, encrypted: seq<Byte>, decrypted: seq<Byte>)
    ensures UpdateKey(key, plain, encrypted + [cipher], Encrypt)
         == UpdateKey(key, cipher, decrypted + [plain], Decrypt)
  {
  }

  /** The key of step i when the key is only ever squared (no recovery):
      key^(2^i) mod 256. A first key of 0 or 1 is kept for good. */
  function PowerKey(key: Byte, i: nat): (r: Byte)
    ensures key <= 1 ==> r == key
  {
    if i == 0 then key else Square(PowerKey(key, i - 1))
  }

  /** Once the squared key reaches 0 or 1 it stays there for good. */
  lemma {:induction false} PowerKeyAbsorbed(key: Byte, i: nat, j: nat)
    requires PowerKey(key, i) <= 1 && i <= j
    ensures PowerKey(key, j) == PowerKey(key, i)
    decreases j - i
  {
    if i < j {
      PowerKeyAbsorbed(key, i, j - 1);
    }
  }

  /** An even key squares to 0 within three steps: k^2 is a multiple of 4,
      k^4 of 16 and k^8 of 256. */
  lemma EvenKeyVanishes(key: Byte, i: nat)
    requires key % 2 == 0 && 3 <= i
    ensures PowerKey(key, i) == 0
  {
    var k1, k2 := PowerKey(key, 1), PowerKey(key, 2);
    assert PowerKey(key, 0) == key;
    assert k1 == Square(key);
    assert k2 == Square(k1);
    assert PowerKey(key, 3) == Square(k2);
    SquareOfEven(key);
    SquareOfMultipleOf4(k1);
    SquareOfMultipleOf16(k2);
    assert PowerKey(key, 3) == 0;
    PowerKeyAbsorbed(key, 3, i);
  }

  /** Squaring modulo 256 turns an even number into a multiple of 4. */
  lemma SquareOfEven(k: Byte)
    requires k % 2 == 0
    ensures Square(k) % 4 == 0
  {
    var q, t := k / 2, k * k / 256;
    assert k * k == 4 * (q * q);
    assert Square(k) == 4 * (q * q - 64 * t);
  }

  /** Squaring modulo 256 turns a multiple of 4 into a multiple of 16. */
  lemma SquareOfMultipleOf4(k: Byte)
    requires k % 4 == 0
    ensures Square(k) % 16 == 0
  {
    var q := k / 4;
    var m := q * q;
    assert k * k == 16 * m;
    SixteenfoldMod(m);
  }

  /** Sixteen times any number stays a multiple of 16 modulo 256. */
  lemma SixteenfoldMod(m: nat)
    ensures 16 * m % 256 % 16 == 0
  {
    assert 16 * m % 256 == 16 * (m % 16);
  }

  /** Squaring modulo 256 turns a multiple of 16 into 0. */
  lemma SquareOfMultipleOf16(k: Byte)
    requires k % 16 == 0
    ensures Square(k) == 0
  {
    var q, t := k / 16, k * k / 256;
    assert k * k == 256 * (q * q);
  }
}
