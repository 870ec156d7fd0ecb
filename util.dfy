/**
 * Address and formatting helpers (zelda64-rs/src/util.rs): 16-byte alignment,
 * signed hexadecimal text and the 32-bit to native range conversion.
 */
module Util {
  import opened Common

  /**
   * `align16`: rounds up to a multiple of 16 by adding 15 and clearing the low
   * four bits. The u32 addition overflows, a panic, above 0xFFFF_FFF0.
   */
  function Align16(v: u32): (r: u32)
    requires v <= 0xFFFF_FFF0
    ensures r % 16 == 0
    ensures v <= r < v + 16
  {
    var w := v + 0xF;
    w - w % 16
  }

  /** No multiple of 16 lies between v and align16(v): it is the least one not below v. */
  lemma Align16Least(v: u32, m: int)
    requires v <= 0xFFFF_FFF0
    requires m % 16 == 0 && v <= m
    ensures Align16(v) <= m
  {
  }

  /** Aligning twice is aligning once. */
  lemma Align16Idempotent(v: u32)
    requires v <= 0xFFFF_FFF0
    ensures Align16(v) <= 0xFFFF_FFF0
    ensures Align16(Align16(v)) == Align16(v)
  {
    Align16Least(Align16(v), Align16(v));
  }

  /** align16 leaves exactly the multiples of 16 where they are. */
  lemma Align16Fixed(v: u32)
    requires v <= 0xFFFF_FFF0
    ensures Align16(v) == v <==> v % 16 == 0
  {
    if v % 16 == 0 {
      Align16Least(v, v);
    }
  }

  /** The `{:X}` digit for d: 0-9 then upper-case A-F. */
  function HexDigit(d: nat): (c: char)
    requires d < 16
  {
    if d < 10 then (('0' as int) + d) as char else (('A' as int) + d - 10) as char
  }

  predicate IsHexDigit(c: char) {
    '0' <= c <= '9' || 'A' <= c <= 'F'
  }

  /** The value of a `{:X}` digit. */
  function DigitValue(c: char): (d: nat)
    requires IsHexDigit(c)
    ensures d < 16
  {
    if c <= '9' then (c as int) - ('0' as int) else (c as int) - ('A' as int) + 10
  }

  /** `format!("{:X}", n)` for n >= 0: upper-case hexadecimal without leading zeros. */
  function Hex(n: nat): (s: string)
    ensures |s| >= 1
    ensures forall i :: 0 <= i < |s| ==> IsHexDigit(s[i])
    ensures s[0] == '0' ==> n == 0
    decreases n
  {
    if n < 16 then [HexDigit(n)] else Hex(n / 16) + [HexDigit(n % 16)]
  }

  /** Reads a string of hexadecimal digits back as a number. */
  function HexValue(s: string): nat
    requires forall i :: 0 <= i < |s| ==> IsHexDigit(s[i])
  {
    if s == [] then 0 else HexValue(s[..|s| - 1]) * 16 + DigitValue(s[|s| - 1])
  }

  /** The digits printed for n denote n. */
  lemma {:induction false} HexValueOfHex(n: nat)
    ensures HexValue(Hex(n)) == n
    decreases n
  {
    var s := Hex(n);
    if n >= 16 {
      HexValueOfHex(n / 16);
      assert s[..|s| - 1] == Hex(n / 16);
      assert DigitValue(HexDigit(n % 16)) == n % 16;
    } else {
      assert DigitValue(HexDigit(n)) == n;
    }
  }

  /** `to_signed_hex`: a minus sign before the digits of -n for negative n. */
  function ToSignedHex(n: isize): (s: string)
    requires n != -0x8000_0000_0000_0000
  {
    if n < 0 then "-" + Hex(-n) else Hex(n)
  }

  /** Parses the text `to_signed_hex` prints. */
  function SignedHexValue(s: string): int
    requires |s| >= 1
    requires forall i :: 0 < i < |s| ==> IsHexDigit(s[i])
    requires s[0] == '-' || IsHexDigit(s[0])
  {
    if s[0] == '-' then -(HexValue(s[1..]) as int) else HexValue(s)
  }

  /**
   * `to_signed_hex` starts with '-' exactly for negative numbers, prints digits
   * only after it, and the text denotes n.
   */
  lemma SignedHexRoundTrip(n: isize)
    requires n != -0x8000_0000_0000_0000
    ensures var s := ToSignedHex(n);
      && |s| >= 1
      && (s[0] == '-' <==> n < 0)
      && (forall i :: 0 < i < |s| ==> IsHexDigit(s[i]))
      && SignedHexValue(s) == n
  {
    var s := ToSignedHex(n);
    if n < 0 {
      HexValueOfHex(-n);
      assert s[1..] == Hex(-n);
    } else {
      HexValueOfHex(n);
    }
  }

  /** `ConvertRangeExt::to_usize`: a u32 range as a native range, bounds unchanged. */
  function ToUsize(r: Range): (u: Range)
    requires r.start <= U32_MAX && r.end <= U32_MAX
    ensures u.start == r.start && u.end == r.end && u.Len() == r.Len()
  {
    Range(r.start, r.end)
  }
}
