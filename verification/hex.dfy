/**
 Formatting of a 32-bit digest.

 A digest is written as `("00000000" + h.toString(16)).slice(-8)`: the
 lowercase base-16 numeral of the unsigned accumulator, left-padded with
 zeros to exactly eight characters. `Hex8` produces the eight digits one by
 one; `Hex8Format` shows it is that pad-and-slice formula, that it is
 lowercase hexadecimal, and that parsing it back gives the accumulator.
 */
module Hex {

  const Zeros8: string := "00000000"
  const Two32: nat := 0x1_0000_0000

  predicate IsLowerHexDigit(c: char) {
    ('0' <= c <= '9') || ('a' <= c <= 'f')
  }

  predicate IsLowerHex(s: string) {
    forall i :: 0 <= i < |s| ==> IsLowerHexDigit(s[i])
  }

  /** The numeral character of a digit value below 16. */
  function Digit(d: nat): (c: char)
    requires d < 16
    ensures IsLowerHexDigit(c)
    ensures DigitValue(c) == d
  {
    if d < 10 then ('0' as int + d) as char else ('a' as int + d - 10) as char
  }

  /** The value of a lowercase hexadecimal digit. */
  function DigitValue(c: char): nat {
    if '0' <= c <= '9' then c as int - '0' as int
    else if 'a' <= c <= 'f' then c as int - 'a' as int + 10
    else 0
  }

  /** `n.toString(16)` for a non-negative integer: no leading zeros, "0" for zero. */
  function ToHex(n: nat): (s: string)
    ensures 1 <= |s|
    ensures |s| > 1 ==> s[0] != '0'
  {
    if n < 16 then [Digit(n)] else ToHex(n / 16) + [Digit(n % 16)]
  }

  /** `parseInt(s, 16)` for a string of lowercase hexadecimal digits. */
  function ParseHex(s: string): nat {
    if |s| == 0 then 0 else 16 * ParseHex(s[..|s| - 1]) + DigitValue(s[|s| - 1])
  }

  /** `("00000000" + s).slice(-8)`. */
  function Pad8(s: string): string {
    (Zeros8 + s)[|s|..]
  }

  /** The `k` low-order base-16 digits of `n`, most significant first. */
  function HexDigits(n: nat, k: nat): (s: string)
    ensures |s| == k
  {
    if k == 0 then [] else HexDigits(n / 16, k - 1) + [Digit(n % 16)]
  }

  /** The eight-character digest of an accumulator value. */
  function Hex8(h: nat): (s: string)
    requires h < Two32
    ensures |s| == 8
  {
    HexDigits(h, 8)
  }

  function Pow16(k: nat): (p: nat)
    ensures p >= 1
  {
    if k == 0 then 1 else 16 * Pow16(k - 1)
  }

  function Zeros(m: nat): (z: string)
    ensures |z| == m
    ensures forall i :: 0 <= i < m ==> z[i] == '0'
  {
    seq(m, _ => '0')
  }

  // ---------------------------------------------------------------------------
  // The digest is the source's pad-and-slice formula, and parses back.

  /** A digest is eight lowercase hexadecimal digits, equal to
      `("00000000" + h.toString(16)).slice(-8)`, whose value is `h`. */
  lemma Hex8Format(h: nat)
    requires h < Two32
    ensures Hex8(h) == Pad8(ToHex(h))
    ensures IsLowerHex(Hex8(h))
    ensures ParseHex(Hex8(h)) == h
  {
    Hex8IsPadded(h);
    DigitsAreHex(h, 8);
    var t := ToHex(h);
    ParseToHex(h);
    ParseLeadingZeros(Zeros(8 - |t|), t);
  }

  lemma Hex8IsPadded(h: nat)
    requires h < Two32
    ensures |ToHex(h)| <= 8
    ensures Hex8(h) == Zeros(8 - |ToHex(h)|) + ToHex(h)
    ensures Hex8(h) == Pad8(ToHex(h))
  {
    assert Pow16(8) == Two32;
    DigitsOfToHex(h, 8);
    var t := ToHex(h);
    assert (Zeros8 + t)[|t|..] == Zeros(8 - |t|) + t;
  }

  /** Parsing undoes `toString(16)`. */
  lemma {:induction false} ParseToHex(n: nat)
    ensures ParseHex(ToHex(n)) == n
  {
    if n >= 16 {
      ParseToHex(n / 16);
      var s := ToHex(n);
      assert s[..|s| - 1] == ToHex(n / 16);
    }
  }

  /** Leading zeros do not change the parsed value. */
  lemma {:induction false} ParseLeadingZeros(z: string, s: string)
    requires forall i :: 0 <= i < |z| ==> z[i] == '0'
    ensures ParseHex(z + s) == ParseHex(s)
  {
    if |s| == 0 {
      assert z + s == z;
      ParseZeros(z);
    } else {
      assert (z + s)[..|z + s| - 1] == z + s[..|s| - 1];
      ParseLeadingZeros(z, s[..|s| - 1]);
    }
  }

  lemma {:induction false} ParseZeros(z: string)
    requires forall i :: 0 <= i < |z| ==> z[i] == '0'
    ensures ParseHex(z) == 0
  {
    if |z| > 0 {
      ParseZeros(z[..|z| - 1]);
    }
  }

  lemma {:induction false} DigitsAreHex(n: nat, k: nat)
    ensures IsLowerHex(HexDigits(n, k))
  {
    if k > 0 {
      DigitsAreHex(n / 16, k - 1);
    }
  }

  /** A numeral below `16^k` has at most `k` digits. */
  lemma {:induction false} ToHexLength(n: nat, k: nat)
    requires 1 <= k
    requires n < Pow16(k)
    ensures |ToHex(n)| <= k
  {
    if n >= 16 {
      assert Pow16(1) == 16;
      ToHexLength(n / 16, k - 1);
    }
  }

  /** Zero written with `k` digits is `k` zeros. */
  lemma {:induction false} DigitsOfZero(k: nat)
    ensures HexDigits(0, k) == Zeros(k)
  {
    if k > 0 {
      DigitsOfZero(k - 1);
    }
  }

  /** Writing `n` with `k` digits is `toString(16)` preceded by the missing zeros. */
  lemma {:induction false} DigitsOfToHex(n: nat, k: nat)
    requires 1 <= k
    requires n < Pow16(k)
    ensures |ToHex(n)| <= k
    ensures HexDigits(n, k) == Zeros(k - |ToHex(n)|) + ToHex(n)
  {
    ToHexLength(n, k);
    if n < 16 {
      DigitsOfZero(k - 1);
    } else {
      assert Pow16(1) == 16;
      DigitsOfToHex(n / 16, k - 1);
      assert Zeros(k - 1 - |ToHex(n / 16)|) == Zeros(k - |ToHex(n)|);
    }
  }

  /** Distinct accumulators give distinct digests, so deduplicating by digest
      is deduplicating by accumulator value. */
  lemma Hex8Injective(a: nat, b: nat)
    requires a < Two32 && b < Two32
    ensures Hex8(a) == Hex8(b) <==> a == b
  {
    Hex8Format(a);
    Hex8Format(b);
  }

  /** The digest of the FNV offset basis, i.e. of an empty input. */
  lemma Hex8OffsetBasis()
    ensures Hex8(0x811c9dc5) == "811c9dc5"
  {
    assert ToHex(0x811c9dc5) == "811c9dc5" by {
      assert ToHex(8) == "8";
      assert ToHex(0x81) == ToHex(8) + [Digit(1)];
      assert ToHex(0x811) == ToHex(0x81) + [Digit(1)];
      assert ToHex(0x811c) == ToHex(0x811) + [Digit(12)];
      assert ToHex(0x811c9) == ToHex(0x811c) + [Digit(9)];
      assert ToHex(0x811c9d) == ToHex(0x811c9) + [Digit(13)];
      assert ToHex(0x811c9dc) == ToHex(0x811c9d) + [Digit(12)];
      assert ToHex(0x811c9dc5) == ToHex(0x811c9dc) + [Digit(5)];
    }
    Hex8IsPadded(0x811c9dc5);
    assert Zeros(0) == "";
  }
}
