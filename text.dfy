/** Option, for results that may be absent (a failed fetch or a failed chat call). */
module Wrappers {
  datatype Option<+T> = None | Some(value: T)
}

/**
 * The two measures of a Rust `String` that the analyzers mix: `len()` counts
 * UTF-8 bytes, `chars().take(n)` counts characters. Both are kept explicit here.
 */
module Text {

  function Min(a: nat, b: nat): nat { if a <= b then a else b }

  /** Number of bytes in the UTF-8 encoding of `c`. */
  function Utf8Width(c: char): (w: nat)
    ensures 1 <= w <= 4
    ensures w == 1 <==> IsAsciiChar(c)
  {
    if (c as int) < 0x80 then 1
    else if (c as int) < 0x800 then 2
    else if (c as int) < 0x1_0000 then 3
    else 4
  }

  predicate IsAsciiChar(c: char) { (c as int) < 0x80 }

  predicate IsAscii(s: string) { forall i :: 0 <= i < |s| ==> IsAsciiChar(s[i]) }

  /** `String::len`: the length of `s` in UTF-8 bytes. */
  function ByteLen(s: string): (n: nat)
    ensures |s| <= n <= 4 * |s|
  {
    if s == [] then 0 else Utf8Width(s[0]) + ByteLen(s[1..])
  }

  lemma {:induction false} ByteLenConcat(a: string, b: string)
    ensures ByteLen(a + b) == ByteLen(a) + ByteLen(b)
  {
    if a != [] {
      assert (a + b)[1..] == a[1..] + b;
      ByteLenConcat(a[1..], b);
    } else {
      assert a + b == b;
    }
  }

  /** `n` copies of the character `c`. */
  function Repeat(c: char, n: nat): (s: string)
    ensures |s| == n && forall i :: 0 <= i < n ==> s[i] == c
  {
    seq(n, _ => c)
  }

  /** A run of `n` copies of `c` takes `n` times the width of `c`. */
  lemma {:induction false} RepeatByteLen(c: char, n: nat)
    ensures ByteLen(Repeat(c, n)) == n * Utf8Width(c)
  {
    if n > 0 {
      assert Repeat(c, n)[1..] == Repeat(c, n - 1);
      RepeatByteLen(c, n - 1);
    }
  }

  /** On ASCII text the byte length and the character count agree. */
  lemma {:induction false} AsciiByteLen(s: string)
    requires IsAscii(s)
    ensures ByteLen(s) == |s|
  {
    if s != [] {
      assert IsAscii(s[1..]) by {
        forall i | 0 <= i < |s[1..]| ensures IsAsciiChar(s[1..][i]) {
          assert s[1..][i] == s[i + 1];
        }
      }
      AsciiByteLen(s[1..]);
    }
  }

  /** `s.chars().take(n).collect::<String>()`: the first `n` characters of `s`. */
  function TakeChars(s: string, n: nat): (r: string)
    ensures r <= s
    ensures |r| == Min(n, |s|)
  {
    if n < |s| then s[..n] else s
  }

  /**
   * The longest run of whole leading characters of `s` whose UTF-8 encoding
   * fits in `n` bytes: a cut that respects a byte budget.
   */
  function TakeBytes(s: string, n: nat): (r: string)
    ensures r <= s
    ensures ByteLen(r) <= n
    ensures r == s || ByteLen(r) + Utf8Width(s[|r|]) > n
  {
    if s == [] || Utf8Width(s[0]) > n then []
    else
      var rest := TakeBytes(s[1..], n - Utf8Width(s[0]));
      assert ([s[0]] + rest)[1..] == rest;
      assert s == [s[0]] + s[1..];
      [s[0]] + rest
  }

  /** On ASCII text the byte cut and the character cut agree. */
  lemma AsciiTakeBytes(s: string, n: nat)
    requires IsAscii(s)
    ensures TakeBytes(s, n) == TakeChars(s, n)
  {
    var r := TakeBytes(s, n);
    assert IsAscii(r) by {
      forall i | 0 <= i < |r| ensures IsAsciiChar(r[i]) {
        assert r[i] == s[i];
      }
    }
    AsciiByteLen(r);
    if r != s {
      assert IsAsciiChar(s[|r|]);
    }
    assert r == s[..|r|];
  }

  // ---------------------------------------------------------------------
  // Decimal rendering of an unsigned integer, as `format!("{}", n)` does.

  predicate IsDigit(c: char) { '0' <= c <= '9' }

  predicate IsDigits(s: string) { forall i :: 0 <= i < |s| ==> IsDigit(s[i]) }

  function DigitChar(d: nat): (c: char)
    requires d < 10
    ensures IsDigit(c) && (c as int) - ('0' as int) == d
  {
    ('0' as int + d) as char
  }

  /** Decimal digits of `n`, without leading zeros. */
  function NatToString(n: nat): (s: string)
    ensures |s| >= 1 && IsDigits(s)
    ensures |s| > 1 ==> s[0] != '0'
    decreases n
  {
    if n < 10 then [DigitChar(n)] else NatToString(n / 10) + [DigitChar(n % 10)]
  }

  /** The value of a string of decimal digits; the inverse of `NatToString`. */
  function DigitsValue(s: string): nat
    requires IsDigits(s)
  {
    if s == [] then 0
    else 10 * DigitsValue(s[..|s| - 1]) + ((s[|s| - 1] as int) - ('0' as int))
  }

  lemma {:induction false} NatToStringRoundTrip(n: nat)
    ensures DigitsValue(NatToString(n)) == n
    decreases n
  {
    if n >= 10 {
      var s := NatToString(n);
      assert s[..|s| - 1] == NatToString(n / 10);
      NatToStringRoundTrip(n / 10);
    }
  }

  /** Different numbers render differently, so ids built from them are distinct. */
  lemma NatToStringInjective(a: nat, b: nat)
    ensures NatToString(a) == NatToString(b) ==> a == b
  {
    NatToStringRoundTrip(a);
    NatToStringRoundTrip(b);
  }
}
