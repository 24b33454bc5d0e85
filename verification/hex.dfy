/**
 * The `%08X` conversion the report uses for every checksum: exactly eight upper-case
 * hexadecimal digits, most significant first, padded on the left with '0'. Parsing is
 * its partner: the eight digits read back as the same 32-bit value.
 */
module Hex {
  import opened Common

  /** An upper-case hexadecimal digit, as `%X` writes them. */
  predicate IsHexDigit(c: char) {
    ('0' <= c <= '9') || ('A' <= c <= 'F')
  }

  predicate AllHexDigits(s: string) {
    forall i | 0 <= i < |s| :: IsHexDigit(s[i])
  }

  /** The value 0..15 of a digit. */
  function DigitValue(c: char): (d: nat)
    requires IsHexDigit(c)
    ensures d < 16
  {
    if c <= '9' then c as int - '0' as int else c as int - 'A' as int + 10
  }

  /** The digit that writes a value 0..15; reading it gives the value back. */
  function DigitChar(d: nat): (c: char)
    requires d < 16
    ensures IsHexDigit(c)
    ensures DigitValue(c) == d
  {
    if d < 10 then ('0' as int + d) as char else ('A' as int + d - 10) as char
  }

  /** Every digit is the writing of its own value. */
  lemma DigitRoundTrip(c: char)
    requires IsHexDigit(c)
    ensures DigitChar(DigitValue(c)) == c
  {
  }

  function Pow16(n: nat): (p: nat)
    ensures p >= 1
  {
    if n == 0 then 1 else 16 * Pow16(n - 1)
  }

  /** The low `width` hexadecimal digits of `x`, most significant first. */
  function Render(x: nat, width: nat): (s: string)
    ensures |s| == width
    ensures AllHexDigits(s)
    decreases width
  {
    if width == 0 then "" else Render(x / 16, width - 1) + [DigitChar(x % 16)]
  }

  /** The number a string of digits writes, most significant digit first. */
  function Value(s: string): (v: nat)
    requires AllHexDigits(s)
    ensures v < Pow16(|s|)
    decreases |s|
  {
    if |s| == 0 then 0 else Value(s[..|s| - 1]) * 16 + DigitValue(s[|s| - 1])
  }

  /** A number that fits `width` digits reads back from its rendering. */
  lemma {:induction false} ValueOfRender(x: nat, width: nat)
    requires x < Pow16(width)
    ensures Value(Render(x, width)) == x
    decreases width
  {
    if width > 0 {
      var s := Render(x, width);
      assert s[..|s| - 1] == Render(x / 16, width - 1);
      ValueOfRender(x / 16, width - 1);
    }
  }

  /** A string of digits is the rendering of its own value at its own width. */
  lemma {:induction false} RenderOfValue(s: string)
    requires AllHexDigits(s)
    ensures Render(Value(s), |s|) == s
    decreases |s|
  {
    if |s| > 0 {
      var init := s[..|s| - 1];
      var v := Value(s);
      assert v / 16 == Value(init) && v % 16 == DigitValue(s[|s| - 1]);
      RenderOfValue(init);
      DigitRoundTrip(s[|s| - 1]);
      assert s == init + [s[|s| - 1]];
    }
  }

  /**
   * Zero padding: when `x` fits `k` digits, all digits of its rendering in front of
   * the last `k` are '0'.
   */
  lemma {:induction false} RenderPadsWithZeros(x: nat, width: nat, k: nat)
    requires k <= width && x < Pow16(k)
    ensures forall i | 0 <= i < width - k :: Render(x, width)[i] == '0'
    decreases width
  {
    if k < width {
      var k' := if k == 0 then 0 else k - 1;
      assert x / 16 < Pow16(k');
      RenderPadsWithZeros(x / 16, width - 1, k');
      if k == 0 {
        assert x % 16 == 0;
      }
    }
  }

  lemma Pow16Eight()
    ensures Pow16(8) == 0x1_0000_0000
  {
  }

  /** `%08X`: a checksum as exactly eight upper-case digits, zero-padded. */
  function Hex8(x: uint32): (s: string)
    ensures |s| == 8
    ensures AllHexDigits(s)
  {
    Render(x, 8)
  }

  /** Reads eight upper-case digits back as a 32-bit value; anything else does not parse. */
  function ParseHex8(s: string): (r: Option<uint32>)
    ensures r.Some? <==> |s| == 8 && AllHexDigits(s)
  {
    if |s| == 8 && AllHexDigits(s) then
      Pow16Eight();
      Some(Value(s))
    else
      None
  }

  /** Rendering then parsing gives the checksum back. */
  lemma ParseOfHex8(x: uint32)
    ensures ParseHex8(Hex8(x)) == Some(x)
  {
    Pow16Eight();
    ValueOfRender(x, 8);
  }

  /** Parsing then rendering gives the text back: `%08X` is the only writing of a value. */
  lemma Hex8OfParse(s: string)
    requires ParseHex8(s).Some?
    ensures Hex8(ParseHex8(s).value) == s
  {
    RenderOfValue(s);
  }

  /** A checksum below 16^k is written with at least 8 - k leading '0' digits. */
  lemma Hex8LeadingZeros(x: uint32, k: nat)
    requires k <= 8 && x < Pow16(k)
    ensures forall i | 0 <= i < 8 - k :: Hex8(x)[i] == '0'
  {
    RenderPadsWithZeros(x, 8, k);
  }
}
