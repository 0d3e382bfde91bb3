/** dec_to_even_hex: an integer as zero-padded lower-case hex text. */
module Encoder {
  import opened Hex

  function Abs(d: int): nat {
    if d < 0 then -d else d
  }

  /** Python's hex(d): "0x" and the digits, with "-" in front when d < 0. */
  function PyHex(d: int): (r: string)
    ensures |r| == |HexDigits(Abs(d))| + (if d < 0 then 3 else 2)
  {
    (if d < 0 then "-" else "") + "0x" + HexDigits(Abs(d))
  }

  /** f"{d:0{width}x}": sign-aware zero padding, so for a negative d the
      digits are padded to width - 1 behind the "-". */
  function FormatHex(d: int, width: nat): string {
    if d < 0 then "-" + PadLeft(HexDigits(-d), if width > 0 then width - 1 else 0)
    else PadLeft(HexDigits(d), width)
  }

  /** dec_to_even_hex(decimal, output_bytes). An output_bytes of 0 stands
      for None: both are falsy, so both take the even-length branch. */
  function DecToEvenHex(decimal: int, outputBytes: nat := 0): (r: string)
    ensures |r| >= 2
    ensures decimal < 0 <==> r[0] == '-'
    ensures forall i :: 1 <= i < |r| ==> IsLowerHexDigit(r[i])
    ensures decimal >= 0 ==> IsLowerHexString(r)
  {
    var hexLength := |PyHex(decimal)| - 2;
    var outLength := if outputBytes != 0 then outputBytes * 2 else hexLength + hexLength % 2;
    assert forall i :: 0 <= i < |Zeros(outLength)| ==> IsLowerHexDigit(Zeros(outLength)[i]);
    FormatHex(decimal, outLength)
  }

  lemma LowerIsHex(s: string)
    requires IsLowerHexString(s)
    ensures IsHexString(s)
  {
    forall i | 0 <= i < |s| ensures IsHexDigit(s[i]) { assert IsLowerHexDigit(s[i]); }
  }

  /** For a non-negative value the text is its digits padded to the chosen
      length. */
  lemma DecToEvenHexUnsigned(d: nat, w: nat)
    ensures var m := |HexDigits(d)|;
      DecToEvenHex(d, w) == PadLeft(HexDigits(d), if w != 0 then 2 * w else m + m % 2)
  {
    assert |PyHex(d)| - 2 == |HexDigits(d)|;
  }

  /** With no width the text is the value in the fewest whole bytes that
      hold it: an even number of digits, at least two, that reads back as
      the value; one byte fewer would not hold it. */
  lemma EvenHexNoWidth(d: nat)
    ensures var r := DecToEvenHex(d);
      && IsLowerHexString(r) && IsHexString(r)
      && |r| % 2 == 0
      && |r| == |HexDigits(d)| + |HexDigits(d)| % 2
      && ParseHex(r) == d
      && d < Pow16(|r|)
      && (|r| == 2 || Pow16(|r| - 2) <= d)
  {
    EvenHexPadded(d);
    PaddedDigits(d);
  }

  /** The facts of EvenHexNoWidth, about the padded digits themselves: their
      length, and the value they read back as. */
  lemma PaddedDigits(d: nat)
    ensures var h := HexDigits(d);
      var p := PadLeft(h, |h| + |h| % 2);
      && |p| % 2 == 0
      && |p| == |h| + |h| % 2
      && IsHexString(p) && ParseHex(p) == d
      && d < Pow16(|p|)
      && (|p| == 2 || Pow16(|p| - 2) <= d)
  {
    var h := HexDigits(d);
    PaddedLength(d);
    PaddedValue(d, |h| + |h| % 2);
  }

  lemma PaddedLength(d: nat)
    ensures var h := HexDigits(d);
      var p := PadLeft(h, |h| + |h| % 2);
      && |p| % 2 == 0
      && |p| == |h| + |h| % 2
      && d < Pow16(|p|)
      && (|p| == 2 || Pow16(|p| - 2) <= d)
  {
    var m := |HexDigits(d)|;
    RoundedUpIsEven(m);
    FewestBytes(d, m);
  }

  /** The digits, padded to any width, read back as the value. */
  lemma PaddedValue(d: nat, w: nat)
    ensures IsHexString(PadLeft(HexDigits(d), w)) && ParseHex(PadLeft(HexDigits(d), w)) == d
  {
    LowerIsHex(HexDigits(d));
    ParsePadLeft(HexDigits(d), w);
    ParseHexDigits(d);
  }

  lemma RoundedUpIsEven(m: nat)
    ensures (m + m % 2) % 2 == 0 && m + m % 2 >= m
  {
  }

  lemma EvenHexPadded(d: nat)
    ensures var m := |HexDigits(d)|;
      && DecToEvenHex(d) == PadLeft(HexDigits(d), m + m % 2)
      && IsLowerHexString(DecToEvenHex(d)) && IsHexString(DecToEvenHex(d))
  {
    DecToEvenHexUnsigned(d, 0);
    LowerIsHex(DecToEvenHex(d));
  }

  /** m digits rounded up to whole bytes hold d, and one byte fewer would
      not. */
  lemma FewestBytes(d: nat, m: nat)
    requires m == |HexDigits(d)|
    ensures d < Pow16(m + m % 2)
    ensures m + m % 2 == 2 || Pow16(m + m % 2 - 2) <= d
  {
    var out := m + m % 2;
    assert d < Pow16(m) by { HexDigitsLength(d, m); }
    Pow16Monotone(m, out);
    if out > 2 {
      assert d >= Pow16(m - 1) by { HexDigitsLength(d, m - 1); }
      Pow16Monotone(out - 2, m - 1);
    }
  }

  /** With a width of w bytes the text is at least 2w digits and reads back
      as the value; it is exactly 2w digits, the value's 2w-digit rendering,
      when the value fits in w bytes, and longer otherwise. */
  lemma EvenHexWithWidth(d: nat, w: nat)
    requires w >= 1
    ensures var r := DecToEvenHex(d, w);
      && IsLowerHexString(r) && IsHexString(r)
      && |r| == (if |HexDigits(d)| <= 2 * w then 2 * w else |HexDigits(d)|)
      && ParseHex(r) == d
      && (|r| == 2 * w <==> d < Pow16(2 * w))
      && (d < Pow16(2 * w) ==> r == FixedHex(d, 2 * w))
  {
    var h := HexDigits(d);
    var r := DecToEvenHex(d, w);
    DecToEvenHexUnsigned(d, w);
    assert r == PadLeft(h, 2 * w);
    LowerIsHex(h);
    LowerIsHex(r);
    ParsePadLeft(h, 2 * w);
    ParseHexDigits(d);
    HexDigitsLength(d, 2 * w);
    if d < Pow16(2 * w) {
      PadHexDigits(d, 2 * w);
    }
  }

  /** A negative value gives a "-" sign in front and, with no width, still
      an even number of characters. */
  lemma EvenHexNegative(d: int)
    requires d < 0
    ensures var r := DecToEvenHex(d);
      r[0] == '-' && !IsHexString(r) && |r| % 2 == 0
  {
    var h := HexDigits(-d);
    var m := |h| + 1;
    var out := m + m % 2;
    assert DecToEvenHex(d) == "-" + PadLeft(h, out - 1);
  }

  /** The one-byte case the brightness and animation commands use. */
  lemma EvenHexByte(b: byte)
    ensures DecToEvenHex(b) == ByteHex(b)
  {
    assert Pow16(2) == 256;
    HexDigitsLength(b, 2);
    DecToEvenHexUnsigned(b, 0);
    PadHexDigits(b, 2);
  }

  /** The two-byte case the segment commands use: high byte, then low byte. */
  lemma EvenHexWord(n: nat)
    requires n < 65536
    ensures DecToEvenHex(n, 2) == ByteHex(n / 256) + ByteHex(n % 256)
  {
    assert Pow16(4) == 65536;
    EvenHexWithWidth(n, 2);
    var f := FixedHex(n, 4);
    assert f == FixedHex(n / 16 / 16, 2) + [DigitChar(n / 16 % 16)] + [DigitChar(n % 16)];
    var lo := n % 256;
    WordDigits(n);
    assert ByteHex(lo) == FixedHex(lo / 16, 1) + [DigitChar(lo % 16)];
    assert FixedHex(lo / 16, 1) == FixedHex(lo / 16 / 16, 0) + [DigitChar(lo / 16 % 16)];
  }

  /** The hex digits of n's low byte are n's two lowest digits. */
  lemma WordDigits(n: nat)
    ensures n / 16 / 16 == n / 256
    ensures n % 256 / 16 % 16 == n / 16 % 16 && n % 256 % 16 == n % 16
  {
    var q, r := n / 256, n % 256;
    assert n == 256 * q + r;
    var a, b := r / 16, r % 16;
    assert r == 16 * a + b && a < 16;
    assert n == 16 * (16 * q + a) + b;
    ModUnique(n, 16, 16 * q + a, b);
    assert n / 16 == 16 * q + a;
    ModUnique(n / 16, 16, q, a);
  }

  lemma EncoderExamples()
    ensures DecToEvenHex(0) == "00"
    ensures DecToEvenHex(0xb3) == "b3"
    ensures DecToEvenHex(0x100) == "0100"
    ensures DecToEvenHex(154, 2) == "009a"
  {
  }
}
