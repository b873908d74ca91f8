/** The decimal conversions the header and basic-info codecs rely on: fmt.Sprintf("%d"),
    strconv.ParseUint(s, 10, 64) and strings.TrimPrefix(s, "0"). */
module Decimal {
  import opened Bytes
  import opened Bcd
  import opened Protocol

  function DigitValue(c: char): (v: nat)
    requires IsDigit(c)
    ensures v < 10
  {
    c as int - '0' as int
  }

  /** The decimal character of a value 0..9. */
  function DecimalDigit(v: nat): (c: char)
    requires v < 10
    ensures IsDigit(c) && DigitValue(c) == v
  {
    ('0' as int + v) as char
  }

  /** The number a decimal string denotes; leading zeros do not change it. */
  function DecimalValue(s: string): nat
    requires IsDecimal(s)
  {
    if s == [] then 0 else DecimalValue(s[..|s| - 1]) * 10 + DigitValue(s[|s| - 1])
  }

  function Pow10(k: nat): (p: nat)
    ensures p >= 1
  {
    if k == 0 then 1 else 10 * Pow10(k - 1)
  }

  /** fmt.Sprintf("%d", n): the shortest decimal text of n ("0" for zero). */
  function DecimalText(n: nat): (s: string)
    ensures IsDecimal(s) && |s| >= 1
  {
    if n < 10 then [DecimalDigit(n)] else DecimalText(n / 10) + [DecimalDigit(n % 10)]
  }

  /** A run of k '0' characters. */
  function Zeros(k: nat): (s: string)
    ensures |s| == k && IsDecimal(s)
  {
    if k == 0 then "" else "0" + Zeros(k - 1)
  }

  /** strings.TrimPrefix(s, "0"): at most one leading '0' is removed. */
  function TrimPrefixZero(s: string): string
  {
    if |s| > 0 && s[0] == '0' then s[1..] else s
  }

  /** strconv.ParseUint(s, 10, 64): a syntax error on an empty or non-decimal string, a range
      error from 2^64 on, the value otherwise. */
  function ParseUint(s: string): Option<uint64>
  {
    if s == [] || !IsDecimal(s) then None
    else if DecimalValue(s) < Uint64Limit then Some(DecimalValue(s))
    else None
  }

  /** The value of a concatenation: the left part is shifted by the width of the right. */
  lemma {:induction false} DecimalValueConcat(a: string, b: string)
    requires IsDecimal(a) && IsDecimal(b)
    ensures IsDecimal(a + b)
    ensures DecimalValue(a + b) == DecimalValue(a) * Pow10(|b|) + DecimalValue(b)
  {
    var ab := a + b;
    assert IsDecimal(ab) by {
      forall i | 0 <= i < |ab| ensures IsDigit(ab[i]) {
        if i < |a| { assert ab[i] == a[i]; } else { assert ab[i] == b[i - |a|]; }
      }
    }
    if b != [] {
      var b' := b[..|b| - 1];
      assert ab[..|ab| - 1] == a + b';
      DecimalValueConcat(a, b');
      assert DecimalValue(ab) == DecimalValue(a + b') * 10 + DigitValue(b[|b| - 1]);
      assert DecimalValue(b) == DecimalValue(b') * 10 + DigitValue(b[|b| - 1]);
      assert Pow10(|b|) == 10 * Pow10(|b'|);
      ShiftStep(DecimalValue(a), Pow10(|b'|), DecimalValue(b'), DigitValue(b[|b| - 1]));
    } else {
      assert ab == a;
    }
  }

  /** The arithmetic step of DecimalValueConcat: appending one digit to both sides. */
  lemma ShiftStep(x: nat, p: nat, y: nat, d: nat)
    ensures (x * p + y) * 10 + d == x * (10 * p) + (y * 10 + d)
  {
    calc {
      (x * p + y) * 10 + d;
      x * p * 10 + y * 10 + d;
      x * (10 * p) + (y * 10 + d);
    }
  }

  /** Zeros denote zero. */
  lemma {:induction false} ZerosValue(k: nat)
    ensures DecimalValue(Zeros(k)) == 0
  {
    if k > 0 {
      ZerosValue(k - 1);
      DecimalValueConcat("0", Zeros(k - 1));
    }
  }

  /** Left-padding with '0' keeps the value. */
  lemma ZeroPaddingValue(k: nat, s: string)
    requires IsDecimal(s)
    ensures IsDecimal(Zeros(k) + s) && DecimalValue(Zeros(k) + s) == DecimalValue(s)
  {
    DecimalValueConcat(Zeros(k), s);
    ZerosValue(k);
  }

  /** Removing one leading '0' keeps the value. */
  lemma TrimPrefixZeroValue(s: string)
    requires IsDecimal(s)
    ensures IsDecimal(TrimPrefixZero(s)) && DecimalValue(TrimPrefixZero(s)) == DecimalValue(s)
  {
    if |s| > 0 && s[0] == '0' {
      assert s == [s[0]] + s[1..];
      DecimalValueConcat([s[0]], s[1..]);
      assert [s[0]][..0] == [];
    }
  }

  /** Parsing what fmt.Sprintf("%d") printed gives the number back. */
  lemma {:induction false} DecimalTextValue(n: nat)
    ensures DecimalValue(DecimalText(n)) == n
  {
    if n >= 10 {
      DecimalTextValue(n / 10);
      var t := DecimalText(n);
      assert t[..|t| - 1] == DecimalText(n / 10);
    }
  }

  /** A number below 10^k prints with at most k digits. */
  lemma {:induction false} DecimalTextLength(n: nat, k: nat)
    requires 1 <= k && n < Pow10(k)
    ensures |DecimalText(n)| <= k
  {
    if n >= 10 {
      assert Pow10(1) == 10;
      assert n / 10 < Pow10(k - 1);
      DecimalTextLength(n / 10, k - 1);
    }
  }
}
