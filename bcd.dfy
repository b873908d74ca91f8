/** utils/bcd.go: binary-coded decimal, two decimal digits per byte, high nibble first. */
module Bcd {
  import opened Bytes

  predicate IsDigit(c: char)
  {
    '0' <= c <= '9'
  }

  predicate IsDecimal(s: string)
  {
    forall i :: 0 <= i < |s| ==> IsDigit(s[i])
  }

  /** The decimal character of a digit value. */
  function DigitChar(n: bv8): (c: char)
    requires n < 10
    ensures IsDigit(c)
  {
    if n == 0 then '0' else if n == 1 then '1' else if n == 2 then '2'
    else if n == 3 then '3' else if n == 4 then '4' else if n == 5 then '5'
    else if n == 6 then '6' else if n == 7 then '7' else if n == 8 then '8' else '9'
  }

  /** The nibble hex.DecodeString gives a decimal character. */
  function DigitNibble(c: char): (n: bv8)
    requires IsDigit(c)
    ensures n < 10
  {
    if c == '0' then 0 else if c == '1' then 1 else if c == '2' then 2
    else if c == '3' then 3 else if c == '4' then 4 else if c == '5' then 5
    else if c == '6' then 6 else if c == '7' then 7 else if c == '8' then 8 else 9
  }

  lemma DigitCharNibble(c: char)
    requires IsDigit(c)
    ensures DigitChar(DigitNibble(c)) == c
  {
  }

  lemma DigitNibbleChar(n: bv8)
    requires n < 10
    ensures DigitNibble(DigitChar(n)) == n
  {
  }

  function HighNibble(b: byte): bv8
  {
    (b & 0xf0) >> 4
  }

  function LowNibble(b: byte): bv8
  {
    b & 0x0f
  }

  /** strconv.Itoa of a nibble value: one character up to 9, two ("10" to "15") above. */
  function NibbleText(n: bv8): (s: string)
    requires n < 16
  {
    if n < 10 then [DigitChar(n)] else ['1', DigitChar(n - 10)]
  }

  /** What DecodeBCD appends for one byte: its high nibble's text, then its low nibble's. */
  function ByteText(b: byte): string
  {
    NibbleText(HighNibble(b)) + NibbleText(LowNibble(b))
  }

  /** The text DecodeBCD returns: every byte's text, in order.  Even a nibble above 9 yields
      decimal characters only ("10" to "15"), so the result is always a decimal string. */
  function BcdText(data: seq<byte>): (s: string)
    ensures IsDecimal(s)
  {
    if data == [] then "" else BcdText(data[..|data| - 1]) + ByteText(data[|data| - 1])
  }

  /** DecodeBCD: a loop appending the text of both nibbles of every byte. */
  method DecodeBCD(data: seq<byte>) returns (result: string)
    ensures result == BcdText(data)
  {
    result := "";
    for i := 0 to |data|
      invariant result == BcdText(data[..i])
    {
      var part0 := (data[i] & 0xf0) >> 4;
      var part1 := data[i] & 0x0f;
      result := result + NibbleText(part0);
      result := result + NibbleText(part1);
      assert data[..i + 1][..i] == data[..i];
      assert BcdText(data[..i + 1]) == BcdText(data[..i]) + ByteText(data[i]);
    }
    assert data[..|data|] == data;
  }

  /** Every nibble of every byte is a decimal digit. */
  predicate DecimalNibbles(data: seq<byte>)
  {
    forall i :: 0 <= i < |data| ==> HighNibble(data[i]) < 10 && LowNibble(data[i]) < 10
  }

  /** The number of nibbles above 9 in data. */
  function WideNibbles(data: seq<byte>): nat
  {
    if data == [] then 0
    else
      var last := data[|data| - 1];
      WideNibbles(data[..|data| - 1]) + (if HighNibble(last) >= 10 then 1 else 0) + (if LowNibble(last) >= 10 then 1 else 0)
  }

  /** EncodeBCD, i.e. hex.DecodeString on a decimal string: two digits per byte, high nibble
      first.  hex.DecodeString returns the bytes decoded before it reports an odd length, and
      EncodeBCD drops the error, so an odd final digit is lost. */
  function EncodeBCD(s: string): (bs: seq<byte>)
    requires IsDecimal(s)
    ensures |bs| == |s| / 2
  {
    seq(|s| / 2, k requires 0 <= k < |s| / 2 => PackDigits(s[2 * k], s[2 * k + 1]))
  }

  /** The byte hex.DecodeString makes of two decimal characters. */
  function PackDigits(c: char, d: char): byte
    requires IsDigit(c) && IsDigit(d)
  {
    (DigitNibble(c) << 4) | DigitNibble(d)
  }

  /** Every nibble is rendered by one character, except a nibble above 9, which takes two. */
  lemma {:induction false} BcdTextLength(data: seq<byte>)
    ensures |BcdText(data)| == 2 * |data| + WideNibbles(data)
  {
    if data != [] {
      BcdTextLength(data[..|data| - 1]);
    }
  }

  /** With decimal nibbles only, the text is exactly two digits per byte, in byte order. */
  lemma {:induction false} BcdTextOfDecimal(data: seq<byte>)
    requires DecimalNibbles(data)
    ensures |BcdText(data)| == 2 * |data|
    ensures forall k :: 0 <= k < |data| ==>
      BcdText(data)[2 * k] == DigitChar(HighNibble(data[k])) &&
      BcdText(data)[2 * k + 1] == DigitChar(LowNibble(data[k]))
  {
    if data != [] {
      var init := data[..|data| - 1];
      BcdTextOfDecimal(init);
      assert BcdText(data) == BcdText(init) + ByteText(data[|data| - 1]);
    }
  }

  /** The packed byte of two digits has the first digit as high nibble and the second as low. */
  lemma PackedNibbles(c: char, d: char)
    requires IsDigit(c) && IsDigit(d)
    ensures HighNibble(PackDigits(c, d)) == DigitNibble(c)
    ensures LowNibble(PackDigits(c, d)) == DigitNibble(d)
  {
  }

  /** DecodeBCD(EncodeBCD(s)) == s for an even-length decimal string. */
  lemma DecodeEncodeBcd(s: string)
    requires IsDecimal(s) && |s| % 2 == 0
    ensures BcdText(EncodeBCD(s)) == s
  {
    var bs := EncodeBCD(s);
    forall k | 0 <= k < |bs|
      ensures HighNibble(bs[k]) == DigitNibble(s[2 * k]) && LowNibble(bs[k]) == DigitNibble(s[2 * k + 1])
    {
      PackedNibbles(s[2 * k], s[2 * k + 1]);
    }
    BcdTextOfDecimal(bs);
    var t := BcdText(bs);
    forall j | 0 <= j < |s|
      ensures t[j] == s[j]
    {
      var k := j / 2;
      if j % 2 == 0 {
        assert j == 2 * k;
        DigitCharNibble(s[2 * k]);
      } else {
        assert j == 2 * k + 1;
        DigitCharNibble(s[2 * k + 1]);
      }
    }
  }

  /** EncodeBCD(DecodeBCD(b)) == b when every nibble of b is a decimal digit. */
  lemma EncodeDecodeBcd(data: seq<byte>)
    requires DecimalNibbles(data)
    ensures EncodeBCD(BcdText(data)) == data
  {
    BcdTextOfDecimal(data);
    var t := BcdText(data);
    var bs := EncodeBCD(t);
    forall k | 0 <= k < |data|
      ensures bs[k] == data[k]
    {
      EncodeBcdAt(t, k);
      RepackByte(data[k]);
    }
  }

  lemma EncodeBcdAt(s: string, k: nat)
    requires IsDecimal(s) && 2 * k + 1 < |s|
    ensures EncodeBCD(s)[k] == PackDigits(s[2 * k], s[2 * k + 1])
  {
  }

  /** A byte of two decimal nibbles, written as two digits and packed again, is itself. */
  lemma RepackByte(b: byte)
    requires HighNibble(b) < 10 && LowNibble(b) < 10
    ensures PackDigits(DigitChar(HighNibble(b)), DigitChar(LowNibble(b))) == b
  {
    DigitNibbleChar(HighNibble(b));
    DigitNibbleChar(LowNibble(b));
  }

  /** The doc-comment example of EncodeBCD, "12345": the odd final digit is dropped. */
  lemma EncodeBcdOddExample()
    ensures EncodeBCD("12345") == [0x12, 0x34]
  {
    var e := EncodeBCD("12345");
    assert e[0] == 0x12 && e[1] == 0x34;
  }

  /** The time bytes of the DecodeBCD doc comment, packed from their text. */
  lemma EncodeBcdTimeExample()
    ensures EncodeBCD("161017102756") == [0x16, 0x10, 0x17, 0x10, 0x27, 0x56]
  {
    var e := EncodeBCD("161017102756");
    assert e[0] == 0x16 && e[1] == 0x10 && e[2] == 0x17 && e[3] == 0x10 && e[4] == 0x27 && e[5] == 0x56;
  }

  /** The doc-comment example of DecodeBCD: the time bytes 0x161017102756 read "161017102756". */
  lemma DecodeBcdDocExample()
    ensures BcdText([0x16, 0x10, 0x17, 0x10, 0x27, 0x56]) == "161017102756"
  {
    EncodeBcdTimeExample();
    DecodeEncodeBcd("161017102756");
  }
}
