/** The frame layer of codec/codec.go: byte stuffing, the XOR checksum and the delimiters.
    A frame is 0x7e, the escaped bytes of header ++ body ++ checksum, and 0x7e. */
module Frame {
  import opened Bytes
  import opened Protocol

  /** What escape writes for one byte. */
  function EscapeByte(b: byte): seq<byte>
  {
    if b == Flag then [EscapeMark, 0x02]
    else if b == EscapeMark then [EscapeMark, 0x01]
    else [b]
  }

  /** The number of bytes of s that escaping doubles (0x7e and 0x7d). */
  function ReservedCount(s: seq<byte>): nat
  {
    if s == [] then 0 else (if s[0] == Flag || s[0] == EscapeMark then 1 else 0) + ReservedCount(s[1..])
  }

  /** The byte-stuffed form of s, byte by byte in order.  It never contains the flag 0x7e,
      and it is longer than s by one byte per 0x7e or 0x7d of s. */
  function Escaped(s: seq<byte>): (r: seq<byte>)
    ensures Flag !in r
    ensures |r| == |s| + ReservedCount(s)
  {
    if s == [] then [] else EscapeByte(s[0]) + Escaped(s[1..])
  }

  /** Escaping distributes over concatenation. */
  lemma {:induction false} EscapedConcat(a: seq<byte>, b: seq<byte>)
    ensures Escaped(a + b) == Escaped(a) + Escaped(b)
  {
    if a != [] {
      assert (a + b)[1..] == a[1..] + b;
      EscapedConcat(a[1..], b);
    } else {
      assert a + b == b;
    }
  }

  /** escape: a loop appending each byte, or its two-byte escape, to result. */
  method Escape(data: seq<byte>) returns (result: seq<byte>)
    ensures result == Escaped(data)
  {
    result := [];
    for i := 0 to |data|
      invariant result == Escaped(data[..i])
    {
      if data[i] == 0x7e {
        result := result + [0x7d, 0x02];
      } else if data[i] == 0x7d {
        result := result + [0x7d, 0x01];
      } else {
        result := result + [data[i]];
      }
      assert data[..i + 1] == data[..i] + [data[i]];
      EscapedConcat(data[..i], [data[i]]);
      assert Escaped([data[i]]) == EscapeByte(data[i]) by { assert [data[i]][1..] == []; }
    }
    assert data[..|data|] == data;
  }

  function Cons(b: byte, rest: Option<seq<byte>>): Option<seq<byte>>
  {
    if rest.Some? then Some([b] + rest.value) else None
  }

  function Prepend(p: seq<byte>, rest: Option<seq<byte>>): Option<seq<byte>>
  {
    if rest.Some? then Some(p + rest.value) else None
  }

  /** unescape, scanning left to right: 0x7d 0x02 becomes 0x7e, 0x7d 0x01 becomes 0x7d, a 0x7d
      followed by anything else is copied as it is.  None is the source's read of data[i+1]
      past the end, which happens exactly when the scan reaches a 0x7d in the last position. */
  function Unescaped(s: seq<byte>): Option<seq<byte>>
    decreases |s|
  {
    if s == [] then Some([])
    else if s[0] == EscapeMark && |s| == 1 then None
    else if s[0] == EscapeMark && s[1] == 0x02 then Cons(Flag, Unescaped(s[2..]))
    else if s[0] == EscapeMark && s[1] == 0x01 then Cons(EscapeMark, Unescaped(s[2..]))
    else Cons(s[0], Unescaped(s[1..]))
  }

  lemma PrependCons(p: seq<byte>, b: byte, rest: Option<seq<byte>>)
    ensures Prepend(p, Cons(b, rest)) == Prepend(p + [b], rest)
  {
    if rest.Some? {
      assert p + ([b] + rest.value) == (p + [b]) + rest.value;
    }
  }

  /** unescape: the index loop with its look-ahead and the extra i++ after an escape pair. */
  method Unescape(data: seq<byte>) returns (result: Option<seq<byte>>)
    ensures result == Unescaped(data)
  {
    var out: seq<byte> := [];
    var i := 0;
    assert data[0..] == data;
    assert Unescaped(data).Some? ==> [] + Unescaped(data).value == Unescaped(data).value;
    while i < |data|
      invariant 0 <= i <= |data|
      invariant Unescaped(data) == Prepend(out, Unescaped(data[i..]))
      decreases |data| - i
    {
      var rest := data[i..];
      if data[i] == 0x7d && i + 1 == |data| {
        // the source reads data[i+1] past the end here
        return None;
      }
      if data[i] == 0x7d && data[i + 1] == 0x02 {
        assert rest[2..] == data[i + 2..];
        PrependCons(out, 0x7e, Unescaped(data[i + 2..]));
        out := out + [0x7e];
        i := i + 2;
      } else if data[i] == 0x7d && data[i + 1] == 0x01 {
        assert rest[2..] == data[i + 2..];
        PrependCons(out, 0x7d, Unescaped(data[i + 2..]));
        out := out + [0x7d];
        i := i + 2;
      } else {
        assert rest[1..] == data[i + 1..];
        PrependCons(out, data[i], Unescaped(data[i + 1..]));
        out := out + [data[i]];
        i := i + 1;
      }
    }
    assert out + [] == out;
    return Some(out);
  }

  /** unescape(escape(x)) == x for every byte sequence x. */
  lemma {:induction false} UnescapeEscape(s: seq<byte>)
    ensures Unescaped(Escaped(s)) == Some(s)
  {
    if s != [] {
      UnescapeEscape(s[1..]);
      var e := EscapeByte(s[0]);
      var t := Escaped(s[1..]);
      assert Escaped(s) == e + t;
      if s[0] == Flag || s[0] == EscapeMark {
        assert (e + t)[2..] == t;
      } else {
        assert (e + t)[1..] == t;
      }
      assert s == [s[0]] + s[1..];
    }
  }

  /** A 0x7d followed by a byte other than 0x01 and 0x02 passes through unchanged, and the
      scan resumes at the following byte. */
  lemma UnescapePassThrough(b: byte, rest: seq<byte>)
    requires b != 0x01 && b != 0x02
    ensures Unescaped([EscapeMark, b] + rest) == Cons(EscapeMark, Unescaped([b] + rest))
  {
    assert ([EscapeMark, b] + rest)[1..] == [b] + rest;
  }

  /** A buffer ending in 0x7d is always rejected: no escape pair can absorb its last byte,
      so the scan reaches it and looks past the end. */
  lemma {:induction false} UnescapeTrailingMark(s: seq<byte>)
    ensures Unescaped(s + [EscapeMark]) == None
  {
    var t := s + [EscapeMark];
    if s == [] {
    } else if s[0] == EscapeMark && |s| >= 2 && (s[1] == 0x02 || s[1] == 0x01) {
      assert t[2..] == s[2..] + [EscapeMark];
      UnescapeTrailingMark(s[2..]);
    } else if s[0] == EscapeMark && |s| == 1 {
      assert t == [EscapeMark, EscapeMark];
      assert t[1..] == [EscapeMark];
    } else {
      assert t[1..] == s[1..] + [EscapeMark];
      UnescapeTrailingMark(s[1..]);
    }
  }

  /** trimIdentifiers: drops one leading 0x7e, then one trailing 0x7e.  The source reads the
      first byte, and then the last byte of what is left, so both must exist. */
  function TrimIdentifiers(data: seq<byte>): seq<byte>
    requires |data| > 0 && (data[0] == Flag ==> |data| > 1)
  {
    var afterFirst := if data[0] == Flag then data[1..] else data;
    if afterFirst[|afterFirst| - 1] == Flag then afterFirst[..|afterFirst| - 1] else afterFirst
  }

  /** The delimiters of a frame are exactly what trimIdentifiers removes. */
  lemma TrimFramed(inner: seq<byte>)
    ensures TrimIdentifiers([Flag] + inner + [Flag]) == inner
  {
    var f := [Flag] + inner + [Flag];
    assert f[1..] == inner + [Flag];
    assert (inner + [Flag])[..|inner|] == inner;
  }

  /** Bytes without delimiters at either end pass through trimIdentifiers unchanged. */
  lemma TrimUnframed(data: seq<byte>)
    requires |data| > 0 && data[0] != Flag && data[|data| - 1] != Flag
    ensures TrimIdentifiers(data) == data
  {
  }
}

/** The XOR checksum of codec/codec.go: computed over the unescaped header ++ body and
    verified against the byte that follows them. */
module Checksum {
  import opened Bytes

  /** The XOR of all bytes of s (zero for the empty sequence). */
  function XorSum(s: seq<byte>): byte
  {
    if s == [] then 0 else XorSum(s[..|s| - 1]) ^ s[|s| - 1]
  }

  /** checksum: realsum starts at the first byte (which the source reads unconditionally)
      and folds in the others with XOR. */
  method Checksum(headerBodyBytes: seq<byte>) returns (realsum: byte)
    requires |headerBodyBytes| > 0
    ensures realsum == XorSum(headerBodyBytes)
  {
    realsum := headerBodyBytes[0];
    assert headerBodyBytes[..1][..0] == [];
    for i := 1 to |headerBodyBytes|
      invariant realsum == XorSum(headerBodyBytes[..i])
    {
      realsum := realsum ^ headerBodyBytes[i];
      assert headerBodyBytes[..i + 1][..i] == headerBodyBytes[..i];
    }
    assert headerBodyBytes[..|headerBodyBytes|] == headerBodyBytes;
  }

  /** checksumVerified: the last byte is the received checksum; the message verifies when it
      equals the XOR of all bytes before it.  At least two bytes are needed, since checksum
      reads the first byte of what precedes the last. */
  function ChecksumVerified(unescapedMsg: seq<byte>): (r: (byte, bool))
    requires |unescapedMsg| >= 2
  {
    var checksum := unescapedMsg[|unescapedMsg| - 1];
    (checksum, XorSum(unescapedMsg[..|unescapedMsg| - 1]) == checksum)
  }

  /** Appending checksum(x) to x makes checksumVerified return that byte and true. */
  lemma AppendedChecksumVerifies(x: seq<byte>)
    requires |x| >= 1
    ensures ChecksumVerified(x + [XorSum(x)]) == (XorSum(x), true)
  {
    assert (x + [XorSum(x)])[..|x|] == x;
  }

  /** The checksum of a concatenation is the XOR of the parts' checksums. */
  lemma {:induction false} XorSumConcat(a: seq<byte>, b: seq<byte>)
    ensures XorSum(a + b) == XorSum(a) ^ XorSum(b)
  {
    if b == [] {
      assert a + b == a;
    } else {
      var n := |b| - 1;
      assert (a + b)[..|a + b| - 1] == a + b[..n];
      XorSumConcat(a, b[..n]);
      XorAssoc(XorSum(a), XorSum(b[..n]), b[n]);
    }
  }

  lemma XorAssoc(x: byte, y: byte, z: byte)
    ensures (x ^ y) ^ z == x ^ (y ^ z)
  {
  }

  lemma XorSwap(x: byte, m: byte, e: byte)
    ensures (x ^ m) ^ e == (x ^ e) ^ m
  {
  }

  /** Masking the middle byte of a + [v] + c masks the checksum. */
  lemma {:induction false} XorSumMaskMiddle(a: seq<byte>, v: byte, c: seq<byte>, mask: byte)
    ensures XorSum(a + [v ^ mask] + c) == XorSum(a + [v] + c) ^ mask
  {
    if c == [] {
      assert a + [v] + c == a + [v] && (a + [v])[..|a|] == a;
      assert a + [v ^ mask] + c == a + [v ^ mask] && (a + [v ^ mask])[..|a|] == a;
      XorAssoc(XorSum(a), v, mask);
    } else {
      var n := |c| - 1;
      assert (a + [v] + c)[..|a| + 1 + n] == a + [v] + c[..n];
      assert (a + [v ^ mask] + c)[..|a| + 1 + n] == a + [v ^ mask] + c[..n];
      XorSumMaskMiddle(a, v, c[..n], mask);
      XorSwap(XorSum(a + [v] + c[..n]), mask, c[n]);
    }
  }

  /** checksumVerified on a payload followed by one received checksum byte. */
  lemma VerifiedSplit(payload: seq<byte>, received: byte)
    requires |payload| >= 1
    ensures ChecksumVerified(payload + [received]) == (received, XorSum(payload) == received)
  {
    assert (payload + [received])[..|payload|] == payload;
  }

  /** Corrupting any one payload byte of a verified message by a nonzero XOR mask (a single
      flipped bit, for one) makes the checksum fail. */
  lemma ChecksumDetectsPayloadCorruption(a: seq<byte>, v: byte, c: seq<byte>, received: byte, mask: byte)
    requires ChecksumVerified(a + [v] + c + [received]).1
    requires mask != 0
    ensures !ChecksumVerified(a + [v ^ mask] + c + [received]).1
  {
    VerifiedSplit(a + [v] + c, received);
    VerifiedSplit(a + [v ^ mask] + c, received);
    XorSumMaskMiddle(a, v, c, mask);
  }

  /** Corrupting the checksum byte itself by a nonzero mask is detected as well. */
  lemma ChecksumDetectsChecksumCorruption(payload: seq<byte>, received: byte, mask: byte)
    requires |payload| >= 1 && ChecksumVerified(payload + [received]).1
    requires mask != 0
    ensures !ChecksumVerified(payload + [received ^ mask]).1
  {
    VerifiedSplit(payload, received);
    VerifiedSplit(payload, received ^ mask);
  }

  /** The known weakness of an XOR checksum: the same mask applied to two different payload
      bytes cancels out and is not detected. */
  lemma ChecksumMissesPairedCorruption(a: seq<byte>, v: byte, b: seq<byte>, w: byte, c: seq<byte>,
                                       received: byte, mask: byte)
    requires ChecksumVerified(a + [v] + b + [w] + c + [received]).1
    ensures ChecksumVerified(a + [v ^ mask] + b + [w ^ mask] + c + [received]).1
  {
    var rest := b + [w] + c;
    assert a + [v] + b + [w] + c == a + [v] + rest;
    assert a + [v ^ mask] + b + [w] + c == a + [v ^ mask] + rest;
    var left' := a + [v ^ mask] + b;
    assert a + [v ^ mask] + b + [w ^ mask] + c == left' + [w ^ mask] + c;
    VerifiedSplit(a + [v] + rest, received);
    VerifiedSplit(left' + [w ^ mask] + c, received);
    XorSumMaskMiddle(a, v, rest, mask);
    XorSumMaskMiddle(left', w, c, mask);
  }
}
