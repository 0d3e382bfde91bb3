/** The Python built-ins the controller code leans on for its hex text:
    hex(), the 'x' format specification, int(s, 16) and the binascii
    functions hexlify and unhexlify. Digits are ASCII characters. */
module Hex {
  import opened Wrappers

  type byte = x: int | 0 <= x < 256

  /** The reasons binascii.unhexlify rejects a str argument. */
  datatype HexFault =
    | NonAscii      // "string argument should contain only ASCII characters"
    | OddLength     // "Odd-length string"
    | NonHexDigit   // "Non-hexadecimal digit found"

  predicate IsHexDigit(c: char) {
    '0' <= c <= '9' || 'a' <= c <= 'f' || 'A' <= c <= 'F'
  }

  predicate IsLowerHexDigit(c: char) {
    '0' <= c <= '9' || 'a' <= c <= 'f'
  }

  predicate IsHexString(s: string) {
    forall i :: 0 <= i < |s| ==> IsHexDigit(s[i])
  }

  predicate IsLowerHexString(s: string) {
    forall i :: 0 <= i < |s| ==> IsLowerHexDigit(s[i])
  }

  predicate IsAsciiString(s: string) {
    forall i :: 0 <= i < |s| ==> s[i] as int < 128
  }

  /** The value of one hex digit; both letter cases are accepted. */
  function DigitValue(c: char): (v: nat)
    requires IsHexDigit(c)
    ensures v < 16
  {
    if c <= '9' then c as int - '0' as int
    else if c <= 'F' then c as int - 'A' as int + 10
    else c as int - 'a' as int + 10
  }

  /** The lower-case digit of a value below 16. */
  function DigitChar(v: nat): (c: char)
    requires v < 16
    ensures IsLowerHexDigit(c) && DigitValue(c) == v
  {
    if v < 10 then ('0' as int + v) as char else ('a' as int + v - 10) as char
  }

  lemma DigitCharOfValue(c: char)
    requires IsLowerHexDigit(c)
    ensures DigitChar(DigitValue(c)) == c
  {
  }

  function Pow16(k: nat): (p: nat)
    ensures p >= 1
  {
    if k == 0 then 1 else 16 * Pow16(k - 1)
  }

  /** The value of a string of hex digits, read most significant digit first
      (what int(s, 16) computes for such a string). */
  function ParseHex(s: string): nat
    requires IsHexString(s)
  {
    if s == [] then 0 else 16 * ParseHex(s[..|s| - 1]) + DigitValue(s[|s| - 1])
  }

  /** k hex digits never stand for more than 16^k - 1. */
  lemma {:induction false} ParseHexBound(s: string)
    requires IsHexString(s)
    ensures ParseHex(s) < Pow16(|s|)
    decreases |s|
  {
    if s != [] {
      ParseHexBound(s[..|s| - 1]);
    }
  }

  /** The digits of n with no leading zeros, "0" for zero: hex(n) without its
      "0x" prefix, and f"{n:x}". */
  function HexDigits(n: nat): (r: string)
    ensures |r| >= 1 && IsLowerHexString(r)
    decreases n
  {
    if n < 16 then [DigitChar(n)] else HexDigits(n / 16) + [DigitChar(n % 16)]
  }

  function Zeros(k: nat): (r: string)
    ensures |r| == k && forall i :: 0 <= i < k ==> r[i] == '0'
  {
    if k == 0 then [] else Zeros(k - 1) + ['0']
  }

  /** s left-padded with '0' to at least w characters, as the "0" flag and a
      width in a format specification do. */
  function PadLeft(s: string, w: nat): (r: string)
    ensures |r| == if |s| >= w then |s| else w
  {
    if |s| >= w then s else Zeros(w - |s|) + s
  }

  /** The low k digits of d, most significant first. */
  function FixedHex(d: nat, k: nat): (r: string)
    ensures |r| == k && IsLowerHexString(r)
  {
    if k == 0 then [] else FixedHex(d / 16, k - 1) + [DigitChar(d % 16)]
  }

  /** One byte as two lower-case digits. */
  function ByteHex(b: byte): (r: string)
    ensures |r| == 2 && IsLowerHexString(r)
  {
    FixedHex(b, 2)
  }

  /** binascii.hexlify(b).decode("ascii"). */
  function Hexlify(b: seq<byte>): (r: string)
    ensures |r| == 2 * |b| && IsLowerHexString(r)
  {
    if b == [] then [] else ByteHex(b[0]) + Hexlify(b[1..])
  }

  /** The bytes of an even-length string of hex digits, two digits each. */
  function DecodePairs(s: string): (r: seq<byte>)
    requires |s| % 2 == 0 && IsHexString(s)
    ensures |r| == |s| / 2
  {
    if s == [] then [] else [16 * DigitValue(s[0]) + DigitValue(s[1])] + DecodePairs(s[2..])
  }

  /** binascii.unhexlify of a str: the ASCII check, then the length check,
      then the digit check. */
  function Unhexlify(s: string): (r: Result<seq<byte>, HexFault>)
  {
    if !IsAsciiString(s) then Failure(NonAscii)
    else if |s| % 2 == 1 then Failure(OddLength)
    else if !IsHexString(s) then Failure(NonHexDigit)
    else Success(DecodePairs(s))
  }

  // ---------------------------------------------------------------------
  // Digit strings and their values

  lemma ConcatIsHex(a: string, b: string)
    requires IsHexString(a) && IsHexString(b)
    ensures IsHexString(a + b)
  {
    var ab := a + b;
    forall i | 0 <= i < |ab| ensures IsHexDigit(ab[i]) {
      if i < |a| { assert ab[i] == a[i]; } else { assert ab[i] == b[i - |a|]; }
    }
  }

  lemma {:induction false} ParseHexConcat(a: string, b: string)
    requires IsHexString(a) && IsHexString(b)
    ensures IsHexString(a + b)
    ensures ParseHex(a + b) == ParseHex(a) * Pow16(|b|) + ParseHex(b)
    decreases |b|
  {
    ConcatIsHex(a, b);
    if b == [] {
      assert a + b == a;
    } else {
      var b' := b[..|b| - 1];
      assert IsHexString(b');
      DropLastOfConcat(a, b);
      ParseHexConcat(a, b');
      var pa, pb, p, d := ParseHex(a), ParseHex(b'), Pow16(|b'|), DigitValue(b[|b| - 1]);
      assert ParseHex(a + b) == 16 * ParseHex(a + b') + d;
      assert ParseHex(b) == 16 * pb + d;
      assert Pow16(|b|) == 16 * p;
      MulShift(pa, p, pb);
    }
  }

  lemma DropLastOfConcat<T>(a: seq<T>, b: seq<T>)
    requires b != []
    ensures (a + b)[..|a + b| - 1] == a + b[..|b| - 1]
    ensures (a + b)[|a + b| - 1] == b[|b| - 1]
  {
  }

  lemma MulShift(x: int, p: int, y: int)
    ensures 16 * (x * p + y) == x * (16 * p) + 16 * y
  {
  }

  lemma {:induction false} ParseHexDigits(n: nat)
    ensures ParseHex(HexDigits(n)) == n
    decreases n
  {
    if n >= 16 {
      var h := HexDigits(n / 16) + [DigitChar(n % 16)];
      assert h[..|h| - 1] == HexDigits(n / 16);
      ParseHexDigits(n / 16);
    }
  }

  /** HexDigits uses the fewest digits: at most k of them exactly when n is
      below 16^k. */
  lemma {:induction false} HexDigitsLength(n: nat, k: nat)
    requires k >= 1
    ensures |HexDigits(n)| <= k <==> n < Pow16(k)
    decreases n
  {
    if n >= 16 {
      if k == 1 {
        assert |HexDigits(n)| >= 2 by { assert |HexDigits(n / 16)| >= 1; }
      } else {
        HexDigitsLength(n / 16, k - 1);
      }
    } else {
      assert Pow16(k) >= 16 by { Pow16AtLeast16(k); }
    }
  }

  lemma {:induction false} Pow16AtLeast16(k: nat)
    requires k >= 1
    ensures Pow16(k) >= 16
  {
    if k > 1 { Pow16AtLeast16(k - 1); }
  }

  lemma {:induction false} Pow16Monotone(a: nat, b: nat)
    requires a <= b
    ensures Pow16(a) <= Pow16(b)
    decreases b
  {
    if a < b { Pow16Monotone(a, b - 1); }
  }

  lemma {:induction false} ParseZeros(k: nat)
    ensures IsHexString(Zeros(k)) && ParseHex(Zeros(k)) == 0
  {
    if k > 0 {
      assert Zeros(k)[..k - 1] == Zeros(k - 1);
      ParseZeros(k - 1);
    }
  }

  /** Zero padding does not change the value. */
  lemma ParsePadLeft(s: string, w: nat)
    requires IsHexString(s)
    ensures IsHexString(PadLeft(s, w)) && ParseHex(PadLeft(s, w)) == ParseHex(s)
  {
    if |s| < w {
      ParseZeros(w - |s|);
      ParseHexConcat(Zeros(w - |s|), s);
    }
  }

  /** The k-digit rendering keeps the value modulo 16^k. */
  lemma {:induction false} ParseFixedHex(d: nat, k: nat)
    ensures ParseHex(FixedHex(d, k)) == d % Pow16(k)
  {
    if k > 0 {
      var f := FixedHex(d, k);
      assert f[..k - 1] == FixedHex(d / 16, k - 1);
      ParseFixedHex(d / 16, k - 1);
      DivModPow16(d, k);
    }
  }

  lemma DivModPow16(d: nat, k: nat)
    requires k >= 1
    ensures d % Pow16(k) == 16 * ((d / 16) % Pow16(k - 1)) + d % 16
  {
    var p := Pow16(k - 1);
    var q1, r1 := (d / 16) / p, (d / 16) % p;
    assert d / 16 == p * q1 + r1;
    assert d == (16 * p) * q1 + (16 * r1 + d % 16) by { MulShift(q1, p, r1); }
    assert 16 * r1 + d % 16 < 16 * p;
    ModUnique(d, 16 * p, q1, 16 * r1 + d % 16);
  }

  /** The quotient and remainder are the one q and r with d == m * q + r
      and 0 <= r < m. */
  lemma ModUnique(d: int, m: int, q: int, r: int)
    requires m > 0 && d == m * q + r && 0 <= r < m
    ensures d % m == r && d / m == q
  {
    var q', r' := d / m, d % m;
    assert m * (q - q') == r' - r by { assert m * q' + r' == d; }
    if q > q' {
      MulAtLeast(m, q - q');
    } else if q < q' {
      MulAtLeast(m, q' - q);
    }
  }

  lemma MulAtLeast(m: int, x: int)
    requires m > 0 && x >= 1
    ensures m * x >= m
  {
  }

  /** Padding the shortest rendering of a value that fits in k digits gives
      exactly its k-digit rendering. */
  lemma {:induction false} PadHexDigits(n: nat, k: nat)
    requires k >= 1 && n < Pow16(k)
    ensures PadLeft(HexDigits(n), k) == FixedHex(n, k)
    decreases k
  {
    if n < 16 {
      FixedHexSmall(n, k);
    } else {
      assert Pow16(1) == 16;
      assert k >= 2;
      assert n / 16 < Pow16(k - 1);
      PadHexDigits(n / 16, k - 1);
      PadLeftSnoc(HexDigits(n / 16), DigitChar(n % 16), k);
    }
  }

  lemma {:induction false} FixedHexSmall(n: nat, k: nat)
    requires n < 16 && k >= 1
    ensures FixedHex(n, k) == Zeros(k - 1) + [DigitChar(n)]
  {
    assert FixedHex(n, k) == FixedHex(0, k - 1) + [DigitChar(n)];
    FixedHexZero(k - 1);
  }

  lemma {:induction false} FixedHexZero(k: nat)
    ensures FixedHex(0, k) == Zeros(k)
  {
    if k > 0 { FixedHexZero(k - 1); }
  }

  lemma PadLeftSnoc(s: string, c: char, k: nat)
    requires k >= 1
    ensures PadLeft(s + [c], k) == PadLeft(s, k - 1) + [c]
  {
    if |s| + 1 < k {
      assert Zeros(k - |s| - 1) + (s + [c]) == (Zeros(k - 1 - |s|) + s) + [c];
    }
  }

  lemma ByteHexValue(b: byte)
    ensures ParseHex(ByteHex(b)) == b
  {
    ParseFixedHex(b, 2);
  }

  lemma ByteHexInjective(a: byte, b: byte)
    requires ByteHex(a) == ByteHex(b)
    ensures a == b
  {
    ByteHexValue(a);
    ByteHexValue(b);
  }

  lemma ByteHexDistinct(a: byte, b: byte)
    requires a != b
    ensures ByteHex(a) != ByteHex(b)
  {
    if ByteHex(a) == ByteHex(b) { ByteHexInjective(a, b); }
  }

  // ---------------------------------------------------------------------
  // binascii

  lemma {:induction false} HexlifyConcat(a: seq<byte>, b: seq<byte>)
    ensures Hexlify(a + b) == Hexlify(a) + Hexlify(b)
    decreases |a|
  {
    if a == [] {
      assert a + b == b;
    } else {
      assert (a + b)[1..] == a[1..] + b;
      HexlifyConcat(a[1..], b);
    }
  }

  /** Characters 2k and 2k + 1 of the hex text are the digits of byte k. */
  lemma {:induction false} HexlifyAt(b: seq<byte>, k: nat)
    requires k < |b|
    ensures Hexlify(b)[2 * k..2 * k + 2] == ByteHex(b[k])
    decreases k
  {
    var t := b[1..];
    assert Hexlify(b) == ByteHex(b[0]) + Hexlify(t);
    if k == 0 {
      SliceLeft(Hexlify(b), ByteHex(b[0]), Hexlify(t), 0, 2);
    } else {
      HexlifyAt(t, k - 1);
      SliceRight(Hexlify(b), ByteHex(b[0]), Hexlify(t), 2 * k, 2 * k + 2);
    }
  }

  lemma SliceLeft<T>(s: seq<T>, x: seq<T>, y: seq<T>, a: nat, c: nat)
    requires s == x + y && a <= c <= |x|
    ensures s[a..c] == x[a..c]
  {
  }

  lemma SliceRight<T>(s: seq<T>, x: seq<T>, y: seq<T>, a: nat, c: nat)
    requires s == x + y && |x| <= a <= c <= |s|
    ensures s[a..c] == y[a - |x|..c - |x|]
  {
  }

  /** A slice splits at any point between its ends. */
  lemma SliceSplit<T>(s: seq<T>, a: nat, b: nat, c: nat)
    requires a <= b <= c <= |s|
    ensures s[a..c] == s[a..b] + s[b..c]
  {
  }

  lemma {:induction false} DecodePairsConcat(a: string, b: string)
    requires |a| % 2 == 0 && IsHexString(a) && |b| % 2 == 0 && IsHexString(b)
    ensures IsHexString(a + b) && DecodePairs(a + b) == DecodePairs(a) + DecodePairs(b)
    decreases |a|
  {
    var ab := a + b;
    assert IsHexString(ab) by {
      forall i | 0 <= i < |ab| ensures IsHexDigit(ab[i]) {
        if i < |a| { assert ab[i] == a[i]; } else { assert ab[i] == b[i - |a|]; }
      }
    }
    if a == [] {
      assert ab == b;
    } else {
      assert ab[2..] == a[2..] + b;
      DecodePairsConcat(a[2..], b);
    }
  }

  /** A string is accepted exactly when it has an even number of hex digits
      (hex digits are ASCII). */
  lemma UnhexlifyAccepts(s: string)
    ensures Unhexlify(s).Success? <==> |s| % 2 == 0 && IsHexString(s)
    ensures Unhexlify(s).Success? ==> |Unhexlify(s).value| == |s| / 2
  {
  }

  /** unhexlify undoes hexlify. */
  lemma {:induction false} UnhexlifyHexlify(b: seq<byte>)
    ensures Unhexlify(Hexlify(b)) == Success(b)
    decreases |b|
  {
    var h := Hexlify(b);
    assert IsHexString(h) && IsAsciiString(h) by {
      forall i | 0 <= i < |h| ensures IsHexDigit(h[i]) && h[i] as int < 128 {
        assert IsLowerHexDigit(h[i]);
      }
    }
    DecodePairsHexlify(b);
  }

  lemma {:induction false} DecodePairsHexlify(b: seq<byte>)
    ensures IsHexString(Hexlify(b))
    ensures DecodePairs(Hexlify(b)) == b
    decreases |b|
  {
    var h := Hexlify(b);
    assert IsHexString(h) by {
      forall i | 0 <= i < |h| ensures IsHexDigit(h[i]) { assert IsLowerHexDigit(h[i]); }
    }
    if b != [] {
      var x := ByteHex(b[0]);
      assert h == x + Hexlify(b[1..]);
      assert h[2..] == Hexlify(b[1..]);
      assert h[0] == x[0] && h[1] == x[1];
      assert 16 * DigitValue(x[0]) + DigitValue(x[1]) == b[0] by {
        assert x[..1] == [x[0]];
        assert x[..1][..0] == [];
        ByteHexValue(b[0]);
      }
      DecodePairsHexlify(b[1..]);
    }
  }

  /** hexlify undoes unhexlify on lower-case text. */
  lemma {:induction false} HexlifyUnhexlify(s: string)
    requires IsLowerHexString(s) && Unhexlify(s).Success?
    ensures Hexlify(Unhexlify(s).value) == s
    decreases |s|
  {
    assert IsHexString(s) by {
      forall i | 0 <= i < |s| ensures IsHexDigit(s[i]) { assert IsLowerHexDigit(s[i]); }
    }
    HexlifyDecodePairs(s);
  }

  lemma {:induction false} HexlifyDecodePairs(s: string)
    requires IsLowerHexString(s) && |s| % 2 == 0
    ensures IsHexString(s) && Hexlify(DecodePairs(s)) == s
    decreases |s|
  {
    assert IsHexString(s) by {
      forall i | 0 <= i < |s| ensures IsHexDigit(s[i]) { assert IsLowerHexDigit(s[i]); }
    }
    if s != [] {
      var v := 16 * DigitValue(s[0]) + DigitValue(s[1]);
      var d := DecodePairs(s);
      assert d[0] == v && d[1..] == DecodePairs(s[2..]);
      LowerHexTail(s);
      HexlifyDecodePairs(s[2..]);
      ByteHexOfDigits(s[0], s[1]);
      assert s == [s[0], s[1]] + s[2..];
    }
  }

  lemma LowerHexTail(s: string)
    requires IsLowerHexString(s) && |s| >= 2
    ensures IsLowerHexString(s[2..])
  {
    forall i | 0 <= i < |s| - 2 ensures IsLowerHexDigit(s[2..][i]) { assert s[2..][i] == s[i + 2]; }
  }

  /** Two lower-case digits are the text of the byte they spell. */
  lemma ByteHexOfDigits(c0: char, c1: char)
    requires IsLowerHexDigit(c0) && IsLowerHexDigit(c1)
    ensures 16 * DigitValue(c0) + DigitValue(c1) < 256
    ensures ByteHex(16 * DigitValue(c0) + DigitValue(c1)) == [c0, c1]
  {
    var v := 16 * DigitValue(c0) + DigitValue(c1);
    assert v / 16 == DigitValue(c0) && v % 16 == DigitValue(c1);
    DigitCharOfValue(c0);
    DigitCharOfValue(c1);
    assert FixedHex(v / 16, 1) == FixedHex(v / 256, 0) + [DigitChar(v / 16 % 16)];
  }
}
