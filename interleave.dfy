/** The eight-key mode: the text is dealt into eight lanes (bytes 0, 8,
    16, ... form lane 0; bytes 1, 9, 17, ... lane 1; and so on), each lane
    goes through the swap cipher with its own key, and the lane outputs are
    woven back together two hexadecimal digits (one byte) at a time. */
module Interleave {
  import opened Bits
  import opened Codec
  import opened KeySchedule
  import opened Ciphers

  function Min(a: int, b: int): (m: int) {
    if a <= b then a else b
  }

  /** `text[j::8]`: every eighth byte, starting at byte j. Byte k of the
      lane is byte j + 8k of the text, and every byte of the text at a
      position congruent to j modulo 8 appears in the lane. */
  function Lane(text: seq<Byte>, j: nat): (r: seq<Byte>)
    requires j < 8
    ensures |r| == (|text| + 7 - j) / 8
    ensures forall k | 0 <= k < |r| :: j + 8 * k < |text| && r[k] == text[j + 8 * k]
    ensures forall q | 0 <= q < |text| && q % 8 == j :: q / 8 < |r| && r[q / 8] == text[q]
  {
    seq((|text| + 7 - j) / 8, k requires 0 <= k < (|text| + 7 - j) / 8 => text[j + 8 * k])
  }

  /** `encrypt_with_power_and_swap_every_second_bit(text[i::8], key, mode)`
      for each lane i and its key: the eight lane outputs, each as long as
      its lane. */
  function LaneCiphers(text: seq<Byte>, keys: seq<Byte>, mode: Mode): (r: seq<seq<Byte>>)
    requires |keys| == 8
    ensures LanesFit(r, |text|)
  {
    seq(8, j requires 0 <= j < 8 => SwapCipher(Lane(text, j), keys[j], mode))
  }

  /** Eight lanes that can be woven into n bytes: lane j holds the bytes at
      positions j, j + 8, ... below n. */
  predicate LanesFit(lanes: seq<seq<Byte>>, n: nat) {
    |lanes| == 8 && forall j | 0 <= j < 8 :: |lanes[j]| == (n + 7 - j) / 8
  }

  /** `string2hex` of every lane: the list the source's comprehension
      builds. */
  function HexStrings(lanes: seq<seq<Byte>>): (r: seq<seq<char>>)
    ensures |r| == |lanes|
    ensures forall j | 0 <= j < |lanes| :: |r[j]| == 2 * |lanes[j]|
  {
    seq(|lanes|, j requires 0 <= j < |lanes| => String2Hex(lanes[j]))
  }

  /** Python's `s[i:j]` for 0 <= i <= j: both bounds are clamped to the
      length, so a slice past the end is empty. */
  function PySlice(s: seq<char>, i: nat, j: nat): (r: seq<char>)
    requires i <= j
    ensures |s| <= i ==> r == []
    ensures j <= |s| ==> r == s[i..j]
    ensures i < |s| < j ==> r == s[i..]
  {
    s[Min(i, |s|)..Min(j, |s|)]
  }

  /** The n bytes woven from eight lanes: byte q is byte q / 8 of lane q % 8. */
  function Weave(lanes: seq<seq<Byte>>, n: nat): (r: seq<Byte>)
    requires LanesFit(lanes, n)
    ensures |r| == n
  {
    seq(n, q requires 0 <= q < n => lanes[q % 8][q / 8])
  }

  /** The eight-key cipher by position: output byte q is byte q / 8 of the
      cipher of lane q % 8. The output is as long as the text: short lanes
      are not truncated away. */
  function EightByte(text: seq<Byte>, keys: seq<Byte>, mode: Mode): (r: seq<Byte>)
    requires |keys| == 8
    ensures |r| == |text|
  {
    Weave(LaneCiphers(text, keys, mode), |text|)
  }

  /** encrypt_with_power_and_swap_every_second_bit_8byte
      (non_secure_encryption.py:258-263): build the lanes' hexadecimal
      strings, interleave them, and decode the result. */
  method EncryptWithPowerAndSwapEightByte(plaintext: seq<Byte>, keys: seq<Byte>, mode: Mode)
    returns (r: seq<Byte>)
    requires |keys| == 8
    ensures r == EightByte(plaintext, keys, mode)
  {
    ghost var lanes := LaneCiphers(plaintext, keys, mode);
    var strings := HexStrings(LaneCiphers(plaintext, keys, mode));
    WovenRows(lanes, |plaintext|);
    var result := InterleaveHex(strings, Weave(lanes, |plaintext|));
    Hex2StringOfString2Hex(Weave(lanes, |plaintext|));
    r := Hex2String(result);
  }

  /** The loop of encrypt_with_power_and_swap_every_second_bit_8byte
      (non_secure_encryption.py:261-262): pass i / 2 appends the digits at
      i and i + 1 of every lane string, which is the hexadecimal form of
      woven bytes 8(i / 2) to 8(i / 2) + 7. The loop runs over the length of
      lane 0, the longest lane, so no byte of a shorter lane is lost. */
  method InterleaveHex(strings: seq<seq<char>>, ghost out: seq<Byte>) returns (result: seq<char>)
    requires LaneRows(strings, out)
    ensures result == String2Hex(out)
  {
    result := [];
    ghost var row, k := 0, 0;
    var i := 0;
    while i < |strings[0]|
      invariant i == 2 * row && i <= |strings[0]|
      invariant k == Min(8 * row, |out|)
      invariant result == String2Hex(out[..k])
    {
      RowStart(|out|, row);
      var joined := JoinRow(strings, i, out, row);
      HexOfSlices(out, k, Min(k + 8, |out|), result, joined);
      result := result + joined;
      i := i + 2;
      row, k := row + 1, Min(k + 8, |out|);
    }
    RowsCover(|out|, row);
    assert out[..k] == out;
  }

  /** Eight strings that hold, row by row, the hexadecimal digits of `out`
      dealt into eight lanes; string 0 has one row per lane-0 byte. */
  predicate LaneRows(strings: seq<seq<char>>, out: seq<Byte>) {
    |strings| == 8 && |strings[0]| == 2 * ((|out| + 7) / 8) &&
    forall r | 0 <= r < (|out| + 7) / 8 :: RowDigits(strings, out, r)
  }

  /** The hexadecimal strings of eight fitting lanes hold the digits of the
      woven bytes row by row. */
  lemma WovenRows(lanes: seq<seq<Byte>>, n: nat)
    requires LanesFit(lanes, n)
    ensures LaneRows(HexStrings(lanes), Weave(lanes, n))
  {
    forall r | 0 <= r < (n + 7) / 8
      ensures RowDigits(HexStrings(lanes), Weave(lanes, n), r)
    {
      LaneDigits(HexStrings(lanes), lanes, n, r);
    }
  }

  /** `''.join(s[i:i + 2] for s in strings)` (non_secure_encryption.py:262):
      the digits at i and i + 1 of the eight lane strings, in lane order.
      When these are the digits of bytes 8(i / 2), 8(i / 2) + 1, ... of
      `out` (nothing for a lane past its end), the join is the hexadecimal
      form of those bytes, as many of the eight as exist. */
  method JoinRow(strings: seq<seq<char>>, i: nat, ghost out: seq<Byte>, ghost row: nat)
    returns (joined: seq<char>)
    requires i == 2 * row && 8 * row < |out|
    requires RowDigits(strings, out, row)
    ensures joined == String2Hex(out[8 * row..Min(8 * row + 8, |out|)])
  {
    ghost var k := 8 * row;
    joined := [];
    for j := 0 to |strings|
      invariant k == Min(8 * row + j, |out|)
      invariant joined == String2Hex(out[8 * row..k])
    {
      var piece := PySlice(strings[j], i, i + 2);
      if 8 * row + j < |out| {
        HexSnoc(out, 8 * row, k, joined, piece);
        k := k + 1;
      } else {
        assert joined + [] == joined;
      }
      joined := joined + piece;
    }
  }

  /** Row r of eight strings holds, for each string j, the two digits of
      byte 8r + j of `out`, or nothing once 8r + j is past its end. */
  predicate RowDigits(strings: seq<seq<char>>, out: seq<Byte>, r: nat) {
    |strings| == 8 &&
    forall j | 0 <= j < 8 ::
      PySlice(strings[j], 2 * r, 2 * r + 2) == if 8 * r + j < |out| then String2Hex([out[8 * r + j]]) else []
  }

  /** The lane strings hold, in row r, the digits of woven bytes 8r to
      8r + 7. */
  lemma LaneDigits(strings: seq<seq<char>>, lanes: seq<seq<Byte>>, n: nat, r: nat)
    requires LanesFit(lanes, n) && strings == HexStrings(lanes)
    ensures RowDigits(strings, Weave(lanes, n), r)
  {
    forall j | 0 <= j < 8
      ensures PySlice(strings[j], 2 * r, 2 * r + 2)
        == if 8 * r + j < n then String2Hex([Weave(lanes, n)[8 * r + j]]) else []
    {
      if 8 * r + j < n {
        WeaveAt(lanes, n, r, j);
        HexPair(lanes[j], r);
      } else {
        LaneEnds(n, r, j);
        HexPast(strings[j], lanes[j], r);
      }
    }
  }

  /** The hexadecimal forms of two adjacent slices join into that of the
      slice they make up. */
  lemma HexOfSlices(s: seq<Byte>, a: nat, b: nat, hex: seq<char>, piece: seq<char>)
    requires a <= b <= |s|
    requires hex == String2Hex(s[..a]) && piece == String2Hex(s[a..b])
    ensures hex + piece == String2Hex(s[..b])
  {
    assert s[..a] + s[a..b] == s[..b];
    String2HexAppend(s[..a], s[a..b]);
  }

  /** Extending a slice by one byte extends its hexadecimal form by that
      byte's two digits. */
  lemma HexSnoc(s: seq<Byte>, a: nat, b: nat, hex: seq<char>, piece: seq<char>)
    requires a <= b < |s|
    requires hex == String2Hex(s[a..b]) && piece == String2Hex([s[b]])
    ensures hex + piece == String2Hex(s[a..b + 1])
  {
    assert s[a..b] + [s[b]] == s[a..b + 1];
    String2HexAppend(s[a..b], [s[b]]);
  }

  /** The two digits at 2r of a lane's hexadecimal string encode lane byte r. */
  lemma HexPair(lane: seq<Byte>, r: nat)
    requires r < |lane|
    ensures PySlice(String2Hex(lane), 2 * r, 2 * r + 2) == String2Hex([lane[r]])
  {
    String2HexChunk(lane, r);
    String2HexChunk([lane[r]], 0);
    assert String2Hex([lane[r]])[0..2] == String2Hex([lane[r]]);
  }

  /** A lane with no byte r contributes nothing to row r. */
  lemma HexPast(hex: seq<char>, lane: seq<Byte>, r: nat)
    requires hex == String2Hex(lane) && |lane| <= r
    ensures PySlice(hex, 2 * r, 2 * r + 2) == []
  {
  }

  /** Woven byte 8r + j is byte r of lane j. */
  lemma WeaveAt(lanes: seq<seq<Byte>>, n: nat, r: nat, j: nat)
    requires LanesFit(lanes, n) && j < 8 && 8 * r + j < n
    ensures r < |lanes[j]| && Weave(lanes, n)[8 * r + j] == lanes[j][r]
  {
    DivMod8(r, j);
  }

  lemma DivMod8(r: nat, j: nat)
    requires j < 8
    ensures (8 * r + j) % 8 == j && (8 * r + j) / 8 == r
  {
  }

  /** Every row of the loop starts inside the output: lane 0 has byte r,
      so the output has byte 8r. */
  lemma RowStart(n: nat, r: nat)
    requires r < (n + 7) / 8
    ensures 8 * r < n
  {
  }

  /** Once the loop has passed every byte of lane 0 it has covered the
      whole output. */
  lemma RowsCover(n: nat, rows: nat)
    requires (n + 7) / 8 <= rows
    ensures n <= 8 * rows
  {
  }

  /** A lane has no byte in row r once position 8r + j is past the end. */
  lemma LaneEnds(n: nat, r: nat, j: nat)
    requires j < 8 && n <= 8 * r + j
    ensures (n + 7 - j) / 8 <= r
  {
  }

  /** Lane j of the woven bytes is lane j: weaving loses and invents nothing. */
  lemma WeaveLane(lanes: seq<seq<Byte>>, n: nat, j: nat)
    requires LanesFit(lanes, n) && j < 8
    ensures Lane(Weave(lanes, n), j) == lanes[j]
  {
    var out := Weave(lanes, n);
    forall k | 0 <= k < |lanes[j]|
      ensures Lane(out, j)[k] == lanes[j][k]
    {
      WeaveAt(lanes, n, k, j);
    }
  }

  /** Lane j of the output is the swap cipher of lane j of the text under
      key j: the lanes are enciphered independently. */
  lemma EightByteLane(text: seq<Byte>, keys: seq<Byte>, mode: Mode, j: nat)
    requires |keys| == 8 && j < 8
    ensures Lane(EightByte(text, keys, mode), j) == SwapCipher(Lane(text, j), keys[j], mode)
  {
    WeaveLane(LaneCiphers(text, keys, mode), |text|, j);
  }

  /** A text of at most eight bytes has one byte in each of its lanes, so
      byte q is enciphered on its own by swap_bit_and_encrypt under key q. */
  lemma EightByteShort(text: seq<Byte>, keys: seq<Byte>, mode: Mode, q: nat)
    requires |keys| == 8 && |text| <= 8 && q < |text|
    ensures EightByte(text, keys, mode)[q] == SwapBitAndEncrypt(text[q], keys[q], mode)
  {
    WeaveAt(LaneCiphers(text, keys, mode), |text|, 0, q);
    LaneHead(text, keys, mode, q);
  }

  /** In a text of at most eight bytes, lane q holds byte q alone, so its
      cipher starts with that byte enciphered under key q. */
  lemma LaneHead(text: seq<Byte>, keys: seq<Byte>, mode: Mode, q: nat)
    requires |keys| == 8 && |text| <= 8 && q < |text|
    ensures |LaneCiphers(text, keys, mode)[q]| > 0
    ensures LaneCiphers(text, keys, mode)[q][0] == SwapBitAndEncrypt(text[q], keys[q], mode)
  {
    var lane := Lane(text, q);
    assert lane[0] == text[q];
  }

  /** Decryption with the same eight keys undoes encryption, whatever the
      length of the text. */
  lemma EightByteDecryptsEncrypt(text: seq<Byte>, keys: seq<Byte>)
    requires |keys| == 8
    ensures EightByte(EightByte(text, keys, Encrypt), keys, Decrypt) == text
  {
    var cipher := EightByte(text, keys, Encrypt);
    forall q | 0 <= q < |text|
      ensures EightByte(cipher, keys, Decrypt)[q] == text[q]
    {
      var j := q % 8;
      EightByteLane(text, keys, Encrypt, j);
      SwapDecryptsEncrypt(Lane(text, j), keys[j]);
    }
  }

  /** Encryption with the same eight keys undoes decryption. */
  lemma EightByteEncryptsDecrypt(ciphertext: seq<Byte>, keys: seq<Byte>)
    requires |keys| == 8
    ensures EightByte(EightByte(ciphertext, keys, Decrypt), keys, Encrypt) == ciphertext
  {
    var plain := EightByte(ciphertext, keys, Decrypt);
    forall q | 0 <= q < |ciphertext|
      ensures EightByte(plain, keys, Encrypt)[q] == ciphertext[q]
    {
      var j := q % 8;
      EightByteLane(ciphertext, keys, Decrypt, j);
      SwapEncryptsDecrypt(Lane(ciphertext, j), keys[j]);
    }
  }
}
