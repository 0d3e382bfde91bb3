/** The Python string operations the controller code uses besides hex
    conversion: str.replace(c, ""), slicing, str.upper() and int(s, 16),
    and the exceptions they raise. */
module Text {
  import opened Wrappers
  import opened Hex

  /** The exceptions the builders' range checks and the settings decoder
      raise. The failure of binascii.unhexlify is Hex.HexFault. */
  datatype Error =
    | ValueError(message: string)   // a range check, or int(s, 16) on a bad literal
    | IndexError                    // [..][0] on an empty list

  /** s.replace(c, ""). Its properties are the lemmas RemoveAllSpec and
      RemoveAllConcat. */
  function RemoveAll(s: string, c: char): string {
    if |s| == 0 then []
    else if s[0] == c then RemoveAll(s[1..], c)
    else [s[0]] + RemoveAll(s[1..], c)
  }

  /** Every occurrence of c is removed and the other characters are kept in
      order, so text without c is left as it is. */
  lemma {:induction false} RemoveAllSpec(s: string, c: char)
    ensures |RemoveAll(s, c)| <= |s|
    ensures forall i :: 0 <= i < |RemoveAll(s, c)| ==> RemoveAll(s, c)[i] != c
    ensures (forall i :: 0 <= i < |s| ==> s[i] != c) ==> RemoveAll(s, c) == s
    ensures RemoveAll(s, c) == [] <==> forall i :: 0 <= i < |s| ==> s[i] == c
    decreases |s|
  {
    if s != [] {
      RemoveAllSpec(s[1..], c);
      if s[0] != c {
        assert RemoveAll(s, c)[0] == s[0];
      }
      assert forall i :: 1 <= i < |s| ==> s[1..][i - 1] == s[i];
    }
  }

  lemma {:induction false} RemoveAllConcat(a: string, b: string, c: char)
    ensures RemoveAll(a + b, c) == RemoveAll(a, c) + RemoveAll(b, c)
    decreases |a|
  {
    if a == [] {
      assert a + b == b;
    } else {
      assert (a + b)[1..] == a[1..] + b;
      RemoveAllConcat(a[1..], b, c);
    }
  }

  /** s[i:j] for 0 <= i <= j: bounds past the end are clamped to |s|. */
  function Slice(s: string, i: nat, j: nat): (r: string)
    requires i <= j
    ensures |r| <= j - i
    ensures j <= |s| ==> r == s[i..j]
    ensures |s| <= i ==> r == []
  {
    var hi := if j <= |s| then j else |s|;
    var lo := if i <= hi then i else hi;
    s[lo..hi]
  }

  function UpperChar(c: char): char {
    if 'a' <= c <= 'z' then (c as int - 32) as char else c
  }

  /** s.upper() on ASCII text. */
  function Upper(s: string): (r: string)
    ensures |r| == |s| && forall i :: 0 <= i < |s| ==> r[i] == UpperChar(s[i])
  {
    seq(|s|, i requires 0 <= i < |s| => UpperChar(s[i]))
  }

  predicate IsUpperHexString(s: string) {
    forall i :: 0 <= i < |s| ==> '0' <= s[i] <= '9' || 'A' <= s[i] <= 'F'
  }

  /** Upper-casing lower-case hex text keeps its digits' values. */
  lemma {:induction false} UpperHex(s: string)
    requires IsLowerHexString(s)
    ensures IsUpperHexString(Upper(s)) && IsHexString(s) && IsHexString(Upper(s))
    ensures ParseHex(Upper(s)) == ParseHex(s)
    decreases |s|
  {
    var u := Upper(s);
    assert IsHexString(s) by {
      forall i | 0 <= i < |s| ensures IsHexDigit(s[i]) { assert IsLowerHexDigit(s[i]); }
    }
    assert IsHexString(u) by {
      forall i | 0 <= i < |u| ensures IsHexDigit(u[i]) { assert IsLowerHexDigit(s[i]); }
    }
    if s != [] {
      var s' := s[..|s| - 1];
      assert Upper(s') == u[..|u| - 1];
      UpperHex(s');
      assert DigitValue(u[|u| - 1]) == DigitValue(s[|s| - 1]);
    }
  }

  /** int(s, 16) on text made of hex digits only; the empty string is
      rejected. The message ends in repr(s), which is s between single
      quotes for every hex or empty text, the only ones the decoder passes. */
  function IntBase16(s: string): (r: Result<nat, Error>)
    ensures r.Success? <==> s != [] && IsHexString(s)
    ensures r.Success? ==> r.value == ParseHex(s) && r.value < Pow16(|s|)
    ensures r.Failure? ==> r.error == ValueError("invalid literal for int() with base 16: '" + s + "'")
  {
    if s != [] && IsHexString(s) then ParseHexBound(s); Success(ParseHex(s))
    else Failure(ValueError("invalid literal for int() with base 16: '" + s + "'"))
  }

  /** f"{n}": the decimal digits of n. */
  function DecimalDigits(n: nat): (r: string)
    ensures |r| >= 1
    ensures n < 10 ==> |r| == 1
    ensures 10 <= n < 100 ==> |r| == 2
    ensures 100 <= n < 1000 ==> |r| == 3
    ensures forall i :: 0 <= i < |r| ==> '0' <= r[i] <= '9'
    decreases n
  {
    if n < 10 then [('0' as int + n) as char]
    else DecimalDigits(n / 10) + [('0' as int + n % 10) as char]
  }

  /** f"{n}" for any int. */
  function Decimal(n: int): (r: string)
    ensures |r| >= 1
    ensures n < 0 ==> r[0] == '-' && r[1..] == DecimalDigits(-n)
    ensures n >= 0 ==> r == DecimalDigits(n)
  {
    if n < 0 then "-" + DecimalDigits(-n) else DecimalDigits(n)
  }

  predicate IsDecimalString(s: string) {
    forall i :: 0 <= i < |s| ==> '0' <= s[i] <= '9'
  }

  /** The value of decimal digit text, the reference reading of f"{n}". */
  function ParseDec(s: string): nat
    requires IsDecimalString(s)
  {
    if s == [] then 0 else 10 * ParseDec(s[..|s| - 1]) + (s[|s| - 1] as int - '0' as int)
  }

  /** DecimalDigits(n) is the base-10 rendering of n: it reads back as n, and
      it has no leading zero unless n is 0. */
  lemma {:induction false} DecimalDigitsValue(n: nat)
    ensures IsDecimalString(DecimalDigits(n))
    ensures ParseDec(DecimalDigits(n)) == n
    ensures n >= 1 ==> DecimalDigits(n)[0] != '0'
    decreases n
  {
    var d := DecimalDigits(n);
    if n < 10 {
      assert d[..|d| - 1] == [];
    } else {
      DecimalDigitsValue(n / 10);
      assert d[..|d| - 1] == DecimalDigits(n / 10);
    }
  }

  /** f"{n}" spells n in base 10: the text after an optional "-" reads back
      as the magnitude of n. */
  lemma DecimalValue(n: int)
    ensures n >= 0 ==> IsDecimalString(Decimal(n)) && ParseDec(Decimal(n)) == n
    ensures n < 0 ==> IsDecimalString(Decimal(n)[1..]) && ParseDec(Decimal(n)[1..]) == -n
    ensures n > 0 ==> Decimal(n)[0] != '0'
    ensures n < 0 ==> Decimal(n)[1] != '0'
  {
    if n < 0 { DecimalDigitsValue(-n); } else { DecimalDigitsValue(n); }
  }
}
