# Weak educational ciphers, modelled in Dafny

This project models `non_secure_encryption.py`. That module is a small toolkit of deliberately weak ciphers, kept for teaching:

- **Codecs.** `bin2hex`, `fillupbyte`, `hex2string` and `string2hex`.
- **A key scheduler.** `update_key` squares the single-byte key modulo 256. When the square falls to 0 or 1, it recovers the key from the text.
- **A bit permuter.** `swap_every_second_bit` exchanges the binary digits of every adjacent pair of a byte.
- **Three single-key stream ciphers.** `encrypt_with_power`, `encrypt_with_power2` and `encrypt_with_power_and_swap_every_second_bit`, each built on a per-byte step such as `swap_bit_and_encrypt`.
- **An eight-key mode.** `encrypt_with_power_and_swap_every_second_bit_8byte` deals the text into eight lanes, enciphers each lane with its own key, and weaves the lanes back together through their hexadecimal forms.

Text is modelled as a sequence of bytes (`Bits.Byte`, 0 to 255). Each character of the Python string stands for one byte. Python's `^` on non-negative integers is `Bits.Xor`, defined one binary digit at a time.

The source's loops are methods: `EncryptWithPower`, `EncryptWithPower2`, `EncryptWithPowerAndSwap`, `InterleaveHex` and `JoinRow`. Each method is proved equal to a specification function. The source's pure helpers are functions.

The properties are proved about the specification functions:

- `hex2string` and `string2hex` are inverse to each other.
- The bit swap is an involution.
- `encrypt_with_power` is its own inverse; the other three ciphers are undone by their decrypt mode with the same key.
- A different key with the same square, when that square is above 1, decrypts all but the first byte.
- Even keys leave `encrypt_with_power` idle after three bytes.
- The eight-key mode enciphers each lane independently and loses no byte.

Module layout:

| file | module | contents |
|---|---|---|
| bits.dfy | `Bits` | bytes, powers of two, binary digits, exclusive or |
| codec.dfy | `Codec` | `bin()`, `hex()`, `int(_, 2)`, `int(_, 16)`, `zfill`, and the four codecs |
| keyschedule.dfy | `KeySchedule` | the mode, `update_key`, the pure squaring key stream |
| permuter.dfy | `Permuter` | `swap_every_second_bit` and its bit-level characterisation |
| ciphers.dfy | `Ciphers` | the three single-key ciphers, as methods and specification functions |
| interleave.dfy | `Interleave` | the eight-key mode: lanes, weaving, the hexadecimal interleave loop |
| vectors.dfy | `Vectors` | worked examples from the module's documentation |

## Model

| member | source | states |
|---|---|---|
| `Bits.Xor` | non_secure_encryption.py:93 | Python's `a ^ b` on non-negative integers, digit by digit; it is 0 exactly when the operands are equal (also the xor of lines 131 and 212-213) |
| `Bits.XorByte` | non_secure_encryption.py:93 | `ord(c) ^ key` of two bytes is a byte, and xoring the key again gives `ord(c)` back |
| `Bits.XorBit` | non_secure_encryption.py:93 | every binary digit of `a ^ b` is the exclusive or of the two operands' digits |
| `Bits.XorCancel` | non_secure_encryption.py:93-95 | `(a ^ k) ^ k == a` for all non-negative integers |
| `Bits.XorZero` | non_secure_encryption.py:81-84 | `a ^ 0 == a`, so a key of 0 leaves a byte unchanged |
| `Bits.XorBound` | non_secure_encryption.py:93-94 | the exclusive or of two w-bit numbers is a w-bit number, so `chr()` of it is one byte |
| `Bits.BitsDetermine` | non_secure_encryption.py:165-168 | two numbers below 2^w with the same w low digits are equal |
| `Codec.Bin` | non_secure_encryption.py:165 | `bin(n)[2:]` is a non-empty binary string denoting n, with no leading zero unless it is "0" |
| `Codec.BinValue` | non_secure_encryption.py:14 | `int(s, 2)` of a binary string of length w is below 2^w |
| `Codec.BinValueBit` | non_secure_encryption.py:165-168 | digit j of the binary string's value is the character j places from its end |
| `Codec.BinValueLeadingZeros` | non_secure_encryption.py:31 | prepending '0' digits does not change a binary string's value |
| `Codec.BinLength` | non_secure_encryption.py:165 | a number below 2^w has at most w binary digits |
| `Codec.HexValue` | non_secure_encryption.py:46 | `int(s, 16)` of a hexadecimal string of length w is below 16^w (also line 168) |
| `Codec.ZFill` | non_secure_encryption.py:31 | `zfill(width)` returns the string itself when it is at least `width` long, and otherwise `width` characters: '0' digits followed by the string |
| `Codec.Hex` | non_secure_encryption.py:14 | `hex(n)[2:]` is a non-empty hexadecimal string denoting n, with no leading zero unless it is "0" |
| `Codec.HexIsLowerHex` | non_secure_encryption.py:14 | `hex()` writes lower-case digits only |
| `Codec.Bin2Hex` | non_secure_encryption.py:4-14 | bin2hex's result is lower-case hexadecimal, non-empty, without a leading zero, and denotes the same number as its binary input |
| `Codec.FillUpByte` | non_secure_encryption.py:17-31 | fillupbyte pads to the least multiple of 8 not below the length, and keeps the string binary and its value unchanged |
| `Codec.FillUpBytePads` | non_secure_encryption.py:31 | fillupbyte only prepends '0' digits |
| `Codec.FillUpByteAligned` | non_secure_encryption.py:28-31 | a string whose length is a multiple of 8 is returned unchanged |
| `Codec.Hex2String` | non_secure_encryption.py:34-46 | hex2string yields one byte per two digits, with an odd last digit read on its own: ceil(len / 2) bytes |
| `Codec.HexChunk` | non_secure_encryption.py:46 | the clamped slice `h[i:i+2]` is one or two characters from i on, only one at the very end of the string |
| `Codec.Hex2StringAt` | non_secure_encryption.py:46 | byte i of hex2string's result is the value of the slice `h[2i:2i+2]` |
| `Codec.ByteHex` | non_secure_encryption.py:63 | `hex(ord(c))[2:].rjust(2, '0')` is exactly the two digits of the byte: high nibble, then low nibble |
| `Codec.String2Hex` | non_secure_encryption.py:49-63 | string2hex writes two characters per byte |
| `Codec.String2HexIsLowerHex` | non_secure_encryption.py:63 | string2hex writes lower-case hexadecimal digits only |
| `Codec.String2HexAppend` | non_secure_encryption.py:63 | string2hex of a concatenation is the concatenation of the two string2hex results |
| `Codec.String2HexAt` | non_secure_encryption.py:63 | characters 2i and 2i+1 of string2hex's result are the digits of byte i |
| `Codec.String2HexChunk` | non_secure_encryption.py:63 | the slice `[2i:2i+2]` of string2hex's result is the two digits of byte i |
| `Codec.Hex2StringOfString2Hex` | non_secure_encryption.py:34-63 | `hex2string(string2hex(m)) == m` for every byte string |
| `Codec.String2HexOfHex2String` | non_secure_encryption.py:34-63 | `string2hex(hex2string(h)) == h` for every lower-case hexadecimal string of even length |
| `Codec.ByteHexValue` | non_secure_encryption.py:46-63 | the two digits string2hex writes for a byte are read back by `int(_, 16)` as that byte |
| `Codec.Hex2StringCons` | non_secure_encryption.py:46 | hex2string decodes the first two digits, then the rest |
| `Codec.FirstByteHex` | non_secure_encryption.py:46 | re-encoding the first decoded byte gives the first two digits back (lower case) |
| `KeySchedule.Square` | non_secure_encryption.py:141 | `key ** 2 % 256` is a byte, and 0 and 1 are its fixed points, which is why update_key replaces them (also line 95) |
| `KeySchedule.PowerKey` | non_secure_encryption.py:91-95 | the key of step i of encrypt_with_power; a first key of 0 or 1 never changes |
| `KeySchedule.UpdateKey` | non_secure_encryption.py:137-144 | the next key is the square modulo 256; when that is 0 or 1 it is the consumed byte (encrypt) or the last output byte (decrypt) |
| `KeySchedule.UpdateKeyAgrees` | non_secure_encryption.py:137-144 | encryption and decryption compute the same next key whenever the byte the encryptor consumed is the byte the decryptor emitted |
| `KeySchedule.PowerKeyAbsorbed` | non_secure_encryption.py:95 | once the squared key is 0 or 1 it stays there |
| `KeySchedule.EvenKeyVanishes` | non_secure_encryption.py:95 | an even key reaches 0 after three squarings and stays 0 |
| `KeySchedule.SquareOfEven` | non_secure_encryption.py:95 | squaring modulo 256 turns an even number into a multiple of 4 |
| `KeySchedule.SquareOfMultipleOf4` | non_secure_encryption.py:95 | squaring modulo 256 turns a multiple of 4 into a multiple of 16 |
| `KeySchedule.SquareOfMultipleOf16` | non_secure_encryption.py:95 | squaring modulo 256 turns a multiple of 16 into 0 |
| `Permuter.SwapPairs` | non_secure_encryption.py:166-167 | character i of the result is its pair partner in the input; an unpaired last character is dropped |
| `Permuter.SwapEverySecondBit` | non_secure_encryption.py:147-168 | the result is a byte whose binary digits 2i and 2i+1 are the input's digits 2i+1 and 2i |
| `Permuter.PaddedByte` | non_secure_encryption.py:165 | a byte's padded binary form has exactly 8 digits and denotes the byte |
| `Permuter.SwappedDigits` | non_secure_encryption.py:166-168 | swapping the digit pairs of an 8-digit binary string swaps the bit pairs of its value |
| `Permuter.PairsSwappedTwice` | non_secure_encryption.py:147-168 | swapping the bit pairs twice gives the byte back |
| `Permuter.SwapEverySecondBitInvolutive` | non_secure_encryption.py:147-168 | `swap_every_second_bit(swap_every_second_bit(b)) == b` for every byte |
| `Ciphers.PowerCipher` | non_secure_encryption.py:90-96 | encrypt_with_power returns one byte per text byte (the bytes themselves are stated by `Ciphers.EncryptWithPower` and `Ciphers.PowerCipherSnoc`) |
| `Ciphers.EncryptWithPower` | non_secure_encryption.py:90-96 | the loop's output is byte i of the text xored with key^(2^i) mod 256 |
| `Ciphers.PowerCipherSnoc` | non_secure_encryption.py:92-95 | one more byte of text adds one output byte, enciphered with the next key of the stream |
| `Ciphers.PowerCipherInvolutive` | non_secure_encryption.py:85-88 | encrypt_with_power applied twice with one key gives the text back |
| `Ciphers.PowerCipherKeyZero` | non_secure_encryption.py:81-84 | with key 0 the text is unchanged |
| `Ciphers.PowerCipherEvenKey` | non_secure_encryption.py:95 | with an even key, every byte from the fourth on is unchanged |
| `Ciphers.KeyStream` | non_secure_encryption.py:129-134 | the key-stream output has one byte per input byte |
| `Ciphers.KeyStreamStep` | non_secure_encryption.py:130-133 | one loop step: output so far plus the key stream of the rest, from the updated key, stays the whole output |
| `Ciphers.KeyStreamOf` | non_secure_encryption.py:129-134 | an output is the key stream of a text when each of its bytes is the step of the text byte under its key, and each key is update_key of the one before |
| `Ciphers.KeyStreamDecryptsEncrypt` | non_secure_encryption.py:118-127 | for a step whose modes undo each other, decryption with the same key undoes encryption |
| `Ciphers.KeyStreamEncryptsDecrypt` | non_secure_encryption.py:118-127 | for such a step, encryption with the same key undoes decryption |
| `Ciphers.KeyStreamSameSquare` | non_secure_encryption.py:124-125 | keys with the same square above 1 (or any same square, in encrypt mode) give outputs that agree after the first byte |
| `Ciphers.KeyStreamWrongKey` | non_secure_encryption.py:124-125 | decrypting with a wrong key of the same square, when that square is above 1, recovers all but the first byte |
| `Ciphers.XorKey` | non_secure_encryption.py:131 | the output byte xored with the key is the input byte |
| `Ciphers.XorKeyInverts` | non_secure_encryption.py:131 | xoring with the key is undone by xoring with it again, in either mode order |
| `Ciphers.Power2Cipher` | non_secure_encryption.py:129-134 | the text xored with the key stream update_key drives: one byte per text byte, the first xored with the given key (the rest by `Ciphers.KeyStreamOf` and the round-trip lemmas) |
| `Ciphers.EncryptWithPower2` | non_secure_encryption.py:129-134 | the loop's output is the xor key stream driven by update_key |
| `Ciphers.Power2DecryptsEncrypt` | non_secure_encryption.py:118-123 | encrypt_with_power2 decrypt undoes encrypt with the same key |
| `Ciphers.Power2EncryptsDecrypt` | non_secure_encryption.py:129-144 | encrypt_with_power2 encrypt undoes decrypt with the same key |
| `Ciphers.Power2WrongKey` | non_secure_encryption.py:124-125 | decrypting with a different key of the same square above 1 (such as 2 and 62, both squaring to 4) gets all but the first byte right |
| `Ciphers.SwapBitAndEncrypt` | non_secure_encryption.py:207-213 | encrypt permutes the bit pairs and then xors the key; decrypt xors the key and then permutes |
| `Ciphers.SwapBitAndEncryptInverse` | non_secure_encryption.py:207-213 | each mode of swap_bit_and_encrypt undoes the other under the same key |
| `Ciphers.SwapEncryptUndone` | non_secure_encryption.py:207-213 | swap_bit_and_encrypt in decrypt mode undoes encrypt mode under the same key |
| `Ciphers.SwapDecryptUndone` | non_secure_encryption.py:207-213 | swap_bit_and_encrypt in encrypt mode undoes decrypt mode under the same key |
| `Ciphers.SwapBitAndEncryptInverts` | non_secure_encryption.py:207-213 | the same, for every byte and key at once |
| `Ciphers.SwapCipher` | non_secure_encryption.py:199-204 | the text put through swap_bit_and_encrypt under the key stream update_key drives: one byte per text byte, the first under the given key |
| `Ciphers.EncryptWithPowerAndSwap` | non_secure_encryption.py:199-204 | the loop's output is the swap key stream driven by update_key |
| `Ciphers.SwapDecryptsEncrypt` | non_secure_encryption.py:188-197 | decrypt undoes encrypt with the same key |
| `Ciphers.SwapEncryptsDecrypt` | non_secure_encryption.py:199-213 | encrypt undoes decrypt with the same key |
| `Ciphers.SwapWrongKey` | non_secure_encryption.py:194-195 | decrypting with a different key of the same square above 1 gets all but the first byte right |
| `Interleave.Lane` | non_secure_encryption.py:259-260 | `text[j::8]`: lane byte k is text byte j + 8k, and every text byte congruent to j modulo 8 is in the lane |
| `Interleave.LaneCiphers` | non_secure_encryption.py:259-260 | the eight lane ciphertexts have the lane lengths, so they can be woven back into the text's length |
| `Interleave.HexStrings` | non_secure_encryption.py:259-260 | each lane's hexadecimal string has two characters per lane byte |
| `Interleave.PySlice` | non_secure_encryption.py:262 | `s[i:j]` is empty when it starts at or past the end, the plain slice when it ends inside, and the rest of `s` from i when it starts inside and ends past the end |
| `Interleave.Weave` | non_secure_encryption.py:261-263 | weaving lanes that fit n bytes gives exactly n bytes (where each byte lands is `Interleave.WeaveAt`) |
| `Interleave.EightByte` | non_secure_encryption.py:258-263 | the eight-key cipher's output is exactly as long as the text; it is not truncated |
| `Interleave.EncryptWithPowerAndSwapEightByte` | non_secure_encryption.py:258-263 | the method's result is the woven lane ciphers |
| `Interleave.InterleaveHex` | non_secure_encryption.py:261-262 | when eight strings hold a byte string's digits row by row, the loop yields that byte string's hexadecimal form |
| `Interleave.JoinRow` | non_secure_encryption.py:262 | one join yields the hexadecimal form of the row's bytes that exist, in lane order |
| `Interleave.WovenRows` | non_secure_encryption.py:259-262 | the lane strings hold the woven bytes' digits row by row, and lane 0 has one row per row of the output |
| `Interleave.LaneDigits` | non_secure_encryption.py:259-262 | row r of the lane strings holds the digits of woven bytes 8r to 8r+7, and nothing for lanes already ended |
| `Interleave.HexPair` | non_secure_encryption.py:262 | `string2hex(lane)[2r:2r+2]` is the hexadecimal form of lane byte r |
| `Interleave.WeaveAt` | non_secure_encryption.py:259-262 | woven byte 8r + j is byte r of lane j |
| `Interleave.WeaveLane` | non_secure_encryption.py:259-262 | lane j of the woven output is lane j: weaving loses and invents nothing |
| `Interleave.EightByteLane` | non_secure_encryption.py:258-263 | lane j of the output is the swap cipher of lane j of the text under key j |
| `Interleave.EightByteShort` | non_secure_encryption.py:259-263 | for a text of at most eight bytes, output byte q is swap_bit_and_encrypt of text byte q under key q |
| `Interleave.EightByteDecryptsEncrypt` | non_secure_encryption.py:241-256 | decrypting with the same eight keys undoes encryption, for every text length |
| `Interleave.EightByteEncryptsDecrypt` | non_secure_encryption.py:258-263 | encrypting with the same eight keys undoes decryption |
| `Vectors.Bin2HexVector` | non_secure_encryption.py:9-10 | `bin2hex('1111') == 'f'` |
| `Vectors.Bin2HexOne` | non_secure_encryption.py:11-12 | `bin2hex('1') == '1'` |
| `Vectors.FillUpByteShort` | non_secure_encryption.py:22-23 | `fillupbyte('011') == '00000011'` |
| `Vectors.FillUpByteFull` | non_secure_encryption.py:28-29 | `fillupbyte('11100111')` is unchanged |
| `Vectors.HexVectors` | non_secure_encryption.py:39-55 | `string2hex('a') == '61'` and `hex2string('61') == 'a'` |
| `Vectors.SwapVectors` | non_secure_encryption.py:152-163 | `swap_every_second_bit(1) == 2` and `swap_every_second_bit(0b01010110) == 0b10101001` |
| `Vectors.WrongKeyVector` | non_secure_encryption.py:124-125 | 'Hello' encrypted with key 2 and decrypted with key 62 is 'tello' |
| `Vectors.PowerVector` | non_secure_encryption.py:73-74 | `encrypt_with_power('Hello', 250)` is the bytes b2 41 7c 6c 6f |
| `Vectors.Power2Vector` | non_secure_encryption.py:104-105 | `encrypt_with_power2('Hello', 253, 'encrypt')` is the bytes b5 6c 3d cd 2e |
| `Vectors.SwapCipherVector` | non_secure_encryption.py:180-181 | `encrypt_with_power_and_swap_every_second_bit('Hello', 250, 'encrypt')` is the bytes 7e be 8c f0 0f, with the key recovered from the text after 16 |
| `Vectors.EightByteVector` | non_secure_encryption.py:223-224 | the eight-key cipher of 'Hello' under keys 1 to 8 is the bytes 85 98 9f 98 9a |
| `Vectors.EightByteDecryptVector` | non_secure_encryption.py:247-248 | decrypting 85989f989a (the key-1 cipher of 'Hello') under the second key list gives 5be8c4f577 |

## Left out

- Python strings are sequences of bytes here. Characters above 255 (`chr` of a larger code point) are not modelled. Every cipher keeps its values below 256 anyway.
- Keys are modelled as bytes (0 to 255). A larger integer key would make `ord(c) ^ key` exceed 255 in the first step. That case is not modelled.
- The `mode` string becomes `KeySchedule.Mode`: 'encrypt' is `Encrypt`, and every other string is `Decrypt`, as in the source's comparisons. The default argument `mode='encrypt'` is not modelled; callers always pass a mode.
- `Codec.Bin2Hex`: requires a non-empty binary string. `int('', 2)` raises in the source, and raising is not modelled. Signs, whitespace, underscores and `0b` prefixes that `int()` accepts are not modelled either.
- `Codec.Hex2String`: requires a well-formed hexadecimal string. `int()` raising on other characters is not modelled, nor are its allowances for whitespace, signs and underscores.
- `Codec.ZFill` models `zfill` for strings without a sign only; bin2hex and fillupbyte never see a sign.
- `Interleave.EncryptWithPowerAndSwapEightByte`: requires exactly eight keys. With fewer keys the source silently drops lanes (or `strings[0]` fails when there are none); with more, it deals the text into more than eight lanes with a stride of 8. Neither case is modelled.
- The loop runs over lane 0, the longest lane, and shorter lanes contribute empty slices, so the output is as long as the text (`Interleave.EightByte`).
- The generator inside `''.join(...)` on line 262 is modelled as a loop over the eight lane strings (`Interleave.JoinRow`).
- `encrypt_with_power2` and `encrypt_with_power_and_swap_every_second_bit` share one specification, `Ciphers.KeyStream`, which is parameterised by the per-byte step. Each source loop remains its own method.
- The doctest harness (`doctest.testmod` at lines 266-267) is not modelled. `Vectors` restates one documented example of each codec and cipher, on 'Hello' for the ciphers; the examples on longer texts are not restated.
- No security property is claimed: the module is deliberately weak, and the model proves only functional behaviour.
