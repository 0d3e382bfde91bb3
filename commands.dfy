/** The command builders. Each returns the arguments it hands to
    transmit_data: the command text, whether a reply is awaited and how many
    bytes of it are read. CommandBytes is what transmit_data puts on the
    wire for a text: spaces removed, then unhexlified.

    Each builder's proof cites small lemmas rather than evaluating its
    literal text: the text cut at its spaces (BrightnessTokens and the
    others), each opcode's two hex digits (BrightnessOpcodeHex and the
    others), and frame lemmas that take the head and tail bytes as
    parameters. Each literal fact is thus evaluated once, on its own. */
module Commands {
  import opened Wrappers
  import opened Hex
  import opened Text
  import opened Encoder

  datatype Transmission = Transmission(data: string, expectResponse: bool, responseLength: nat)

  const Head: byte := 0x38
  const Tail: byte := 0x83

  const ReadyOpcode: byte := 0x2f
  const ColorOpcode: byte := 0x22
  const BrightnessOpcode: byte := 0x2a
  const NameOpcode: byte := 0x77
  const RawSettingsOpcode: byte := 0x10
  const AnimationOpcode: byte := 0x2c
  const AutoModeOpcode: byte := 0x06
  const ToggleOpcode: byte := 0xaa
  const WhiteBrightnessOpcode: byte := 0x08
  const SegmentsOpcode: byte := 0x2e
  const LedsPerSegmentOpcode: byte := 0x2d

  /** A well-formed command: head, three payload bytes, opcode, tail. */
  function Frame(p0: byte, p1: byte, p2: byte, opcode: byte): (f: seq<byte>)
    ensures |f| == 6 && f[0] == Head && f[5] == Tail && f[4] == opcode
    ensures f[1..4] == [p0, p1, p2]
  {
    [Head, p0, p1, p2, opcode, Tail]
  }

  /** binascii.unhexlify(data.replace(" ", "")). */
  function CommandBytes(data: string): Result<seq<byte>, HexFault> {
    Unhexlify(RemoveAll(data, ' '))
  }

  /** The text sent is a six-byte command. */
  predicate IsSixBytes(r: Result<seq<byte>, HexFault>) {
    r.Success? && |r.value| == 6
  }

  // ---------------------------------------------------------------------
  // How the command text turns into bytes

  predicate AllSpaces(s: string) {
    forall i :: 0 <= i < |s| ==> s[i] == ' '
  }

  lemma HexlifyOne(b: byte)
    ensures Hexlify([b]) == ByteHex(b)
  {
    assert Hexlify([b]) == ByteHex(b) + Hexlify([]);
  }

  lemma HexKept(s: string)
    requires IsLowerHexString(s)
    ensures RemoveAll(s, ' ') == s
  {
    RemoveAllSpec(s, ' ');
    assert forall i :: 0 <= i < |s| ==> IsLowerHexDigit(s[i]);
  }

  lemma SpacesGone(s: string)
    requires AllSpaces(s)
    ensures RemoveAll(s, ' ') == []
  {
    RemoveAllSpec(s, ' ');
  }

  /** Space removal, one piece of text at a time, left to right. */
  lemma AppendSpaces(a: string, s: string, ra: string)
    requires RemoveAll(a, ' ') == ra && AllSpaces(s)
    ensures RemoveAll(a + s, ' ') == ra
  {
    RemoveAllConcat(a, s, ' ');
    SpacesGone(s);
  }

  lemma AppendHex(a: string, w: string, ra: string)
    requires RemoveAll(a, ' ') == ra && IsLowerHexString(w)
    ensures RemoveAll(a + w, ' ') == ra + w
  {
    RemoveAllConcat(a, w, ' ');
    HexKept(w);
  }

  lemma Regroup<T>(a: seq<T>, b: seq<T>, c: seq<T>, d: seq<T>, e: seq<T>)
    ensures a + b + c + d + e == a + b + (c + (d + e))
  {
  }

  /** Every command text has the shape
      "38<spaces><x><spaces><pad><spaces><opcode> 83"; without its spaces it
      is the head's hex, x without spaces, and the hex of the pad, the opcode
      and the tail byte. */
  lemma CommandText(data: string, head: byte, s1: string, x: string, s2: string, padBytes: seq<byte>, s3: string, opcode: byte, tail: byte)
    requires AllSpaces(s1) && AllSpaces(s2) && AllSpaces(s3)
    requires data == Hexlify([head]) + s1 + x + s2 + Hexlify(padBytes) + s3 + ByteHex(opcode) + " " + Hexlify([tail])
    ensures RemoveAll(data, ' ') == Hexlify([head]) + RemoveAll(x, ' ') + Hexlify(padBytes + [opcode, tail])
  {
    var h, p, o, t := Hexlify([head]), Hexlify(padBytes), ByteHex(opcode), Hexlify([tail]);
    var rx := RemoveAll(x, ' ');
    HexKept(h);
    AppendSpaces(h, s1, h);
    RemoveAllConcat(h + s1, x, ' ');
    AppendSpaces(h + s1 + x, s2, h + rx);
    AppendHex(h + s1 + x + s2, p, h + rx);
    AppendSpaces(h + s1 + x + s2 + p, s3, h + rx + p);
    AppendHex(h + s1 + x + s2 + p + s3, o, h + rx + p);
    AppendSpaces(h + s1 + x + s2 + p + s3 + o, " ", h + rx + p + o);
    AppendHex(h + s1 + x + s2 + p + s3 + o + " ", t, h + rx + p + o);
    HexlifyConcat(padBytes, [opcode, tail]);
    HexlifyConcat([opcode], [tail]);
    HexlifyOne(opcode);
    assert [opcode] + [tail] == [opcode, tail];
    Regroup(h, rx, p, o, t);
  }

  /** A text whose spaceless form is the head's hex, a part x' and the tail's
      hex is accepted exactly when x' is, and then carries x''s bytes between
      the head's and the tail's. */
  lemma SpliceBytes(data: string, x': string, head: seq<byte>, tail: seq<byte>)
    requires RemoveAll(data, ' ') == Hexlify(head) + x' + Hexlify(tail)
    ensures CommandBytes(data).Success? <==> Unhexlify(x').Success?
    ensures Unhexlify(x').Success? ==> CommandBytes(data).value == head + Unhexlify(x').value + tail
  {
    if Unhexlify(x').Success? {
      SpliceAccepted(x', head, tail);
    } else {
      SpliceRejected(x', head, tail);
    }
  }

  lemma SpliceAccepted(x': string, head: seq<byte>, tail: seq<byte>)
    requires Unhexlify(x').Success?
    ensures Unhexlify(Hexlify(head) + x' + Hexlify(tail)) == Success(head + Unhexlify(x').value + tail)
  {
    var h, t := Hexlify(head), Hexlify(tail);
    var c := h + x' + t;
    DecodePairsHexlify(head);
    DecodePairsHexlify(tail);
    DecodePairsConcat(h, x');
    DecodePairsConcat(h + x', t);
    assert IsAsciiString(c) by {
      forall i | 0 <= i < |c| ensures c[i] as int < 128 { assert IsHexDigit(c[i]); }
    }
  }

  lemma SpliceRejected(x': string, head: seq<byte>, tail: seq<byte>)
    requires Unhexlify(x').Failure?
    ensures Unhexlify(Hexlify(head) + x' + Hexlify(tail)).Failure?
  {
    var h, t := Hexlify(head), Hexlify(tail);
    var c := h + x' + t;
    if !IsAsciiString(x') {
      var k :| 0 <= k < |x'| && x'[k] as int >= 128;
      assert c[|h| + k] == x'[k];
    } else if |x'| % 2 == 1 {
      assert |c| % 2 == 1;
    } else {
      var k :| 0 <= k < |x'| && !IsHexDigit(x'[k]);
      assert c[|h| + k] == x'[k];
    }
  }

  /** A command text carrying an arbitrary part x: it goes through exactly
      when x, spaces removed, unhexlifies, and then x's bytes sit between the
      head and the pad. */
  lemma PayloadFrame(data: string, head: byte, s1: string, x: string, s2: string, padBytes: seq<byte>, s3: string, opcode: byte, tail: byte)
    requires AllSpaces(s1) && AllSpaces(s2) && AllSpaces(s3)
    requires data == Hexlify([head]) + s1 + x + s2 + Hexlify(padBytes) + s3 + ByteHex(opcode) + " " + Hexlify([tail])
    ensures CommandBytes(data).Success? <==> Unhexlify(RemoveAll(x, ' ')).Success?
    ensures CommandBytes(data).Success? ==>
      CommandBytes(data).value == [head] + Unhexlify(RemoveAll(x, ' ')).value + (padBytes + [opcode, tail])
  {
    CommandText(data, head, s1, x, s2, padBytes, s3, opcode, tail);
    SpliceBytes(data, RemoveAll(x, ' '), [head], padBytes + [opcode, tail]);
  }

  /** The hex of the fixed pieces of a command text. */
  lemma HexPieces()
    ensures Hexlify([Head]) == "38" && Hexlify([Tail]) == "83"
    ensures Hexlify([0, 0]) == "0000" && Hexlify([0]) == "00" && ByteHex(0) == "00"
  {
    HeadHex();
    TailHex();
    ZeroHex();
    ZeroPairHex();
  }

  lemma HeadHex()
    ensures Hexlify([Head]) == "38"
  {
    HexlifyOne(Head);
  }

  lemma TailHex()
    ensures Hexlify([Tail]) == "83"
  {
    HexlifyOne(Tail);
  }

  lemma ZeroHex()
    ensures Hexlify([0]) == "00" && ByteHex(0) == "00"
  {
    HexlifyOne(0);
  }

  lemma ZeroPairHex()
    ensures Hexlify([0, 0]) == "0000"
  {
    ZeroHex();
    HexlifyConcat([0], [0]);
    assert [0, 0] == [0] + [0];
  }

  lemma UnhexlifyByte(b: byte)
    ensures Unhexlify(ByteHex(b)) == Success([b])
  {
    UnhexlifyHexlify([b]);
    HexlifyOne(b);
  }

  /** A one-byte x in a command text gives a six-byte frame. */
  lemma OneByteFrame(data: string, head: byte, s1: string, b: byte, s2: string, padBytes: seq<byte>, s3: string, opcode: byte, tail: byte)
    requires AllSpaces(s1) && AllSpaces(s2) && AllSpaces(s3)
    requires data == Hexlify([head]) + s1 + ByteHex(b) + s2 + Hexlify(padBytes) + s3 + ByteHex(opcode) + " " + Hexlify([tail])
    ensures CommandBytes(data) == Success([head, b] + padBytes + [opcode, tail])
  {
    PayloadFrame(data, head, s1, ByteHex(b), s2, padBytes, s3, opcode, tail);
    HexKept(ByteHex(b));
    UnhexlifyByte(b);
    assert [head] + [b] + (padBytes + [opcode, tail]) == [head, b] + padBytes + [opcode, tail];
  }

  /** A command with no payload: "38 000000 <opcode> 83". */
  lemma FixedFrame(data: string, code: string, opcode: byte)
    requires code == ByteHex(opcode) && data == "38" + " " + "000000" + " " + code + " " + "83"
    ensures CommandBytes(data) == Success(Frame(0, 0, 0, opcode))
  {
    HexPieces();
    assert "000000" == ByteHex(0) + Hexlify([0, 0]);
    assert data == Hexlify([Head]) + " " + ByteHex(0) + Hexlify([0, 0]) + " " + ByteHex(opcode) + " " + Hexlify([Tail]);
    var h, z := Hexlify([Head]), ByteHex(0);
    assert h + " " + z + "" == h + " " + z;
    OneByteFrame(data, Head, " ", 0, "", [0, 0], " ", opcode, Tail);
    assert [Head, 0] + [0, 0] + [opcode, Tail] == Frame(0, 0, 0, opcode);
  }

  /** dec_to_even_hex of a byte value in a "38<s1><x><s2>0000 <opcode> 83"
      text. */
  lemma ByteFrame(data: string, s1: string, b: byte, s2: string, code: string, opcode: byte)
    requires AllSpaces(s1) && AllSpaces(s2)
    requires code == ByteHex(opcode) && data == "38" + s1 + DecToEvenHex(b) + s2 + "0000" + " " + code + " " + "83"
    ensures CommandBytes(data) == Success(Frame(b, 0, 0, opcode))
  {
    EvenHexByte(b);
    HexPieces();
    assert data == Hexlify([Head]) + s1 + ByteHex(b) + s2 + Hexlify([0, 0]) + " " + ByteHex(opcode) + " " + Hexlify([Tail]);
    OneByteFrame(data, Head, s1, b, s2, [0, 0], " ", opcode, Tail);
    assert [Head, b] + [0, 0] + [opcode, Tail] == Frame(b, 0, 0, opcode);
  }

  /** "38 <x> <opcode> 83": x is spliced in unchecked. */
  lemma SplicedFrame(data: string, x: string, code: string, opcode: byte)
    requires code == ByteHex(opcode) && data == "38" + " " + x + " " + code + " " + "83"
    ensures var digits := RemoveAll(x, ' ');
      (CommandBytes(data).Success? <==> |digits| % 2 == 0 && IsHexString(digits)) &&
      (CommandBytes(data).Success? ==>
        CommandBytes(data).value == [Head] + DecodePairs(digits) + [opcode, Tail]) &&
      (IsSixBytes(CommandBytes(data)) <==> |digits| == 6 && IsHexString(digits))
  {
    HexPieces();
    assert data == Hexlify([Head]) + " " + x + "" + Hexlify([]) + " " + ByteHex(opcode) + " " + Hexlify([Tail]);
    PayloadFrame(data, Head, " ", x, "", [], " ", opcode, Tail);
    UnhexlifyAccepts(RemoveAll(x, ' '));
  }

  /** "38 <x> 0000 <opcode> 83": x is spliced in unchecked before two zero
      bytes. */
  lemma PaddedSplice(data: string, x: string, code: string, opcode: byte)
    requires code == ByteHex(opcode) && data == "38" + " " + x + " " + "0000" + " " + code + " " + "83"
    ensures var digits := RemoveAll(x, ' ');
      (CommandBytes(data).Success? <==> |digits| % 2 == 0 && IsHexString(digits)) &&
      (CommandBytes(data).Success? ==>
        CommandBytes(data).value == [Head] + DecodePairs(digits) + [0, 0, opcode, Tail]) &&
      (IsSixBytes(CommandBytes(data)) <==> |digits| == 2 && IsHexString(digits))
  {
    HexPieces();
    assert data == Hexlify([Head]) + " " + x + " " + Hexlify([0, 0]) + " " + ByteHex(opcode) + " " + Hexlify([Tail]);
    PayloadFrame(data, Head, " ", x, " ", [0, 0], " ", opcode, Tail);
    UnhexlifyAccepts(RemoveAll(x, ' '));
    assert [0, 0] + [opcode, Tail] == [0, 0, opcode, Tail];
  }

  /** change_mixed_colors_animation's text for a 1-based index: from 1 up
      it always goes through, in as many bytes as index - 1 needs, and below
      1 it never does. */
  lemma MixedIndexFrame(data: string, index: int, code: string, opcode: byte)
    requires code == ByteHex(opcode) && data == "38" + " " + DecToEvenHex(index - 1) + " " + "0000" + " " + code + " " + "83"
    ensures CommandBytes(data).Success? <==> index >= 1
    ensures 1 <= index <= 256 ==> CommandBytes(data) == Success(Frame(index - 1, 0, 0, opcode))
    ensures IsSixBytes(CommandBytes(data)) <==> 1 <= index <= 256
  {
    var d := index - 1;
    var x := DecToEvenHex(d);
    PaddedSplice(data, x, code, opcode);
    if d < 0 {
      EvenHexNegative(d);
      RemoveAllSpec(x, ' ');
      assert RemoveAll(x, ' ') == x;
    } else {
      EvenHexNoWidth(d);
      HexKept(x);
      Pow16Value4();
      if d < 256 {
        EvenHexByte(d);
        HexlifyOne(d);
        DecodePairsHexlify([d]);
        assert [Head] + [d as byte] + [0, 0, opcode, Tail] == Frame(d, 0, 0, opcode);
      }
    }
  }

  lemma ShortText(data: string, x: string)
    requires data == "38" + " " + x + " "
    ensures CommandBytes(data).Success? <==> Unhexlify(RemoveAll(x, ' ')).Success?
    ensures CommandBytes(data).Success? ==> CommandBytes(data).value == [Head] + Unhexlify(RemoveAll(x, ' ')).value
  {
    var h := Hexlify([Head]);
    HeadHex();
    var rx := RemoveAll(x, ' ');
    HexKept(h);
    AppendSpaces(h, " ", h);
    RemoveAllConcat(h + " ", x, ' ');
    AppendSpaces(h + " " + x, " ", h + rx);
    assert RemoveAll(data, ' ') == Hexlify([Head]) + rx + Hexlify([]);
    SpliceBytes(data, RemoveAll(x, ' '), [Head], []);
  }

  lemma Pow16Value4()
    ensures Pow16(2) == 256 && Pow16(4) == 65536
  {
  }

  lemma DecimalHasNoSpace(n: int)
    requires n >= 0
    ensures RemoveAll(Decimal(n), ' ') == Decimal(n) && IsHexString(Decimal(n))
  {
    var d := Decimal(n);
    RemoveAllSpec(d, ' ');
    assert forall i :: 0 <= i < |d| ==> '0' <= d[i] <= '9';
  }

  /** Two decimal digits read as hex: the digits' values, in base 16. */
  lemma TwoDecimalDigits(n: nat)
    requires 10 <= n < 100
    ensures Unhexlify(DecimalDigits(n)) == Success([(n / 10) * 16 + n % 10])
  {
    var d := DecimalDigits(n);
    assert d == DecimalDigits(n / 10) + [('0' as int + n % 10) as char];
    assert d == [('0' as int + n / 10) as char, ('0' as int + n % 10) as char];
    assert IsHexString(d) && IsAsciiString(d);
    assert d[2..] == [];
    assert DigitValue(d[0]) == n / 10 && DigitValue(d[1]) == n % 10;
    assert DecodePairs(d) == [16 * DigitValue(d[0]) + DigitValue(d[1])] + DecodePairs(d[2..]);
    assert Unhexlify(d) == Success(DecodePairs(d));
    assert DecodePairs(d) == [(n / 10) * 16 + n % 10];
  }

  /** dec_to_even_hex(n, 2) in a "38 <x> 00 <opcode> 83" text. */
  lemma WordFrame(data: string, n: int, code: string, opcode: byte)
    requires code == ByteHex(opcode) && data == "38" + " " + DecToEvenHex(n, 2) + " " + "00" + " " + code + " " + "83"
    ensures 0 <= n < 65536 ==> CommandBytes(data) == Success(Frame(n / 256, n % 256, 0, opcode))
    ensures IsSixBytes(CommandBytes(data)) <==> 0 <= n < 65536
    ensures n < 0 ==> CommandBytes(data).Failure?
  {
    var x := DecToEvenHex(n, 2);
    HexPieces();
    assert data == Hexlify([Head]) + " " + x + " " + Hexlify([0]) + " " + ByteHex(opcode) + " " + Hexlify([Tail]);
    PayloadFrame(data, Head, " ", x, " ", [0], " ", opcode, Tail);
    UnhexlifyAccepts(RemoveAll(x, ' '));
    if n < 0 {
      WordNegative(n, x);
    } else if n < 65536 {
      var hi: byte, lo: byte := n / 256, n % 256;
      WordInRange(n, x, hi, lo);
      assert [Head] + [hi, lo] + ([0] + [opcode, Tail]) == Frame(hi, lo, 0, opcode);
    } else {
      WordTooLarge(n, x);
    }
  }

  lemma WordNegative(n: int, x: string)
    requires n < 0 && x == DecToEvenHex(n, 2)
    ensures !IsHexString(RemoveAll(x, ' '))
  {
    RemoveAllSpec(x, ' ');
    assert RemoveAll(x, ' ') == x;
    assert x[0] == '-';
  }

  lemma WordInRange(n: int, x: string, hi: byte, lo: byte)
    requires 0 <= n < 65536 && x == DecToEvenHex(n, 2) && hi == n / 256 && lo == n % 256
    ensures RemoveAll(x, ' ') == x && Unhexlify(x) == Success([hi, lo])
  {
    HexKept(x);
    EvenHexWord(n);
    UnhexlifyHexlify([hi, lo]);
    HexlifyConcat([hi], [lo]);
    HexlifyOne(hi);
    HexlifyOne(lo);
    assert [hi] + [lo] == [hi, lo];
  }

  lemma WordTooLarge(n: int, x: string)
    requires n >= 65536 && x == DecToEvenHex(n, 2)
    ensures RemoveAll(x, ' ') == x && IsHexString(x) && |x| > 4
  {
    LowerIsHex(x);
    HexKept(x);
    EvenHexWithWidth(n, 2);
    Pow16Value4();
  }

  // Each builder's text cut at its spaces, and each opcode's hex.
  lemma BrightnessTokens(h: string)
    ensures "38 " + h + " 0000 2a 83" == "38" + " " + h + " " + "0000" + " " + "2a" + " " + "83"
  {
  }

  lemma WhiteTokens(h: string)
    ensures "38  " + h + "0000 08 83" == "38" + "  " + h + "" + "0000" + " " + "08" + " " + "83"
  {
  }

  lemma AnimationTokens(h: string)
    ensures "38 " + h + " 0000 2c 83" == "38" + " " + h + " " + "0000" + " " + "2c" + " " + "83"
  {
  }

  lemma ColorTokens(h: string)
    ensures "38 " + h + " 22 83" == "38" + " " + h + " " + "22" + " " + "83"
  {
  }

  lemma SegmentsTokens(h: string)
    ensures "38 " + h + " 00 2e 83" == "38" + " " + h + " " + "00" + " " + "2e" + " " + "83"
  {
  }

  lemma LedsPerSegmentTokens(h: string)
    ensures "38 " + h + " 00 2d 83" == "38" + " " + h + " " + "00" + " " + "2d" + " " + "83"
  {
  }

  lemma BrightnessOpcodeHex()
    ensures ByteHex(BrightnessOpcode) == "2a"
  {
  }

  lemma WhiteBrightnessOpcodeHex()
    ensures ByteHex(WhiteBrightnessOpcode) == "08"
  {
  }

  lemma AnimationOpcodeHex()
    ensures ByteHex(AnimationOpcode) == "2c"
  {
  }

  lemma ColorOpcodeHex()
    ensures ByteHex(ColorOpcode) == "22"
  {
  }

  lemma SegmentsOpcodeHex()
    ensures ByteHex(SegmentsOpcode) == "2e"
  {
  }

  lemma LedsPerSegmentOpcodeHex()
    ensures ByteHex(LedsPerSegmentOpcode) == "2d"
  {
  }

  // ---------------------------------------------------------------------
  // The builders

  /** is_device_ready: the readiness probe, answered with one byte. */
  function IsDeviceReady(): (t: Transmission)
    ensures t.expectResponse && t.responseLength == 1
    ensures CommandBytes(t.data) == Success(Frame(0, 0, 0, ReadyOpcode))
  {
    var data := "38 000000 2f 83";
    FixedFrame(data, "2f", ReadyOpcode);
    Transmission(data, true, 1)
  }

  /** change_brightness: rejects a value outside 0..255 before anything is
      sent; otherwise the value is the first payload byte. */
  function ChangeBrightness(brightness: int): (r: Result<Transmission, Error>)
    ensures r.Failure? <==> !(0 <= brightness <= 255)
    ensures r.Failure? ==> r.error == ValueError("brightness must be between 0 and 255")
    ensures r.Success? ==> !r.value.expectResponse
    ensures r.Success? ==> CommandBytes(r.value.data) == Success(Frame(brightness, 0, 0, BrightnessOpcode))
  {
    if !(0 <= brightness <= 255) then Failure(ValueError("brightness must be between 0 and 255"))
    else
      var data := "38 " + DecToEvenHex(brightness) + " 0000 2a 83";
      BrightnessTokens(DecToEvenHex(brightness));
      BrightnessOpcodeHex();
      ByteFrame(data, " ", brightness, " ", "2a", BrightnessOpcode);
      Success(Transmission(data, false, 0))
  }

  /** change_color: '#' signs are dropped and the rest is spliced in as is;
      it goes through when what is left, spaces removed, is an even number of
      hex digits, and is a six-byte command exactly when it is six digits. */
  function ChangeColor(color: string): (t: Transmission)
    ensures !t.expectResponse
    ensures var digits := RemoveAll(RemoveAll(color, '#'), ' ');
      (CommandBytes(t.data).Success? <==> |digits| % 2 == 0 && IsHexString(digits)) &&
      (CommandBytes(t.data).Success? ==>
        CommandBytes(t.data).value == [Head] + DecodePairs(digits) + [ColorOpcode, Tail]) &&
      (IsSixBytes(CommandBytes(t.data)) <==> |digits| == 6 && IsHexString(digits))
  {
    var c := RemoveAll(color, '#');
    var data := "38 " + c + " 22 83";
    ColorTokens(c);
    ColorOpcodeHex();
    SplicedFrame(data, c, "22", ColorOpcode);
    Transmission(data, false, 0)
  }

  /** change_speed: rejects a value outside 0..255; otherwise it sends "38 "
      and the speed in decimal, with no opcode and no tail. The text is never
      a six-byte command: it unhexlifies only for a two-digit speed, which
      then arrives as the byte whose hex digits are the decimal ones. */
  function ChangeSpeed(speed: int): (r: Result<Transmission, Error>)
    ensures r.Failure? <==> !(0 <= speed <= 255)
    ensures r.Failure? ==> r.error == ValueError("speed must be between 0 and 255")
    ensures r.Success? ==> !r.value.expectResponse && !IsSixBytes(CommandBytes(r.value.data))
    ensures r.Success? ==> (CommandBytes(r.value.data).Success? <==> 10 <= speed <= 99)
    ensures r.Success? && 10 <= speed <= 99 ==>
      CommandBytes(r.value.data).value == [Head, (speed / 10) * 16 + speed % 10]
  {
    if !(0 <= speed <= 255) then Failure(ValueError("speed must be between 0 and 255"))
    else
      var x := Decimal(speed);
      var data := "38 " + x + " ";
      ShortText(data, x);
      DecimalHasNoSpace(speed);
      UnhexlifyAccepts(x);
      if 10 <= speed <= 99 then
        TwoDecimalDigits(speed);
        Success(Transmission(data, false, 0))
      else
        Success(Transmission(data, false, 0))
  }

  /** get_name: the answer is read as 18 bytes. */
  function GetName(): (t: Transmission)
    ensures t.expectResponse && t.responseLength == 18
    ensures CommandBytes(t.data) == Success(Frame(0, 0, 0, NameOpcode))
  {
    var data := "38 000000 77 83";
    FixedFrame(data, "77", NameOpcode);
    Transmission(data, true, 18)
  }

  /** get_device_raw_settings' query: the status reply is 17 bytes long. */
  function GetDeviceRawSettings(): (t: Transmission)
    ensures t.expectResponse && t.responseLength == 17
    ensures CommandBytes(t.data) == Success(Frame(0, 0, 0, RawSettingsOpcode))
  {
    var data := "38 000000 10 83";
    FixedFrame(data, "10", RawSettingsOpcode);
    Transmission(data, true, 17)
  }

  /** change_mono_color_animation: the caller's code is spliced in as is, so
      the command is six bytes exactly when the code, spaces removed, is two
      hex digits. */
  function ChangeMonoColorAnimation(index: string): (t: Transmission)
    ensures !t.expectResponse
    ensures var code := RemoveAll(index, ' ');
      (CommandBytes(t.data).Success? <==> |code| % 2 == 0 && IsHexString(code)) &&
      (CommandBytes(t.data).Success? ==>
        CommandBytes(t.data).value == [Head] + DecodePairs(code) + [0, 0, AnimationOpcode, Tail]) &&
      (IsSixBytes(CommandBytes(t.data)) <==> |code| == 2 && IsHexString(code))
  {
    var data := "38 " + index + " 0000 2c 83";
    AnimationTokens(index);
    AnimationOpcodeHex();
    PaddedSplice(data, index, "2c", AnimationOpcode);
    Transmission(data, false, 0)
  }

  /** change_mixed_colors_animation: the 1-based index becomes the byte
      index - 1. Nothing checks the range: any index from 1 up goes through
      (past 256 in more than one byte), and one below 1 is refused by
      unhexlify. */
  function ChangeMixedColorsAnimation(index: int): (t: Transmission)
    ensures !t.expectResponse
    ensures CommandBytes(t.data).Success? <==> index >= 1
    ensures 1 <= index <= 256 ==> CommandBytes(t.data) == Success(Frame(index - 1, 0, 0, AnimationOpcode))
    ensures IsSixBytes(CommandBytes(t.data)) <==> 1 <= index <= 256
  {
    var data := "38 " + DecToEvenHex(index - 1) + " 0000 2c 83";
    AnimationTokens(DecToEvenHex(index - 1));
    AnimationOpcodeHex();
    MixedIndexFrame(data, index, "2c", AnimationOpcode);
    Transmission(data, false, 0)
  }

  /** enable_multicolor_animation_auto_mode. */
  function EnableMulticolorAnimationAutoMode(): (t: Transmission)
    ensures !t.expectResponse
    ensures CommandBytes(t.data) == Success(Frame(0, 0, 0, AutoModeOpcode))
  {
    var data := "38 000000 06 83";
    FixedFrame(data, "06", AutoModeOpcode);
    Transmission(data, false, 0)
  }

  /** toggle_off_on: the protocol has only a power toggle. */
  function ToggleOffOn(): (t: Transmission)
    ensures !t.expectResponse
    ensures CommandBytes(t.data) == Success(Frame(0, 0, 0, ToggleOpcode))
  {
    var data := "38 000000 aa 83";
    FixedFrame(data, "aa", ToggleOpcode);
    Transmission(data, false, 0)
  }

  /** change_white_channel_brightness: the same range check as
      change_brightness; the text puts two spaces before the value and none
      after it, which the space removal absorbs. */
  function ChangeWhiteChannelBrightness(brightness: int := 80): (r: Result<Transmission, Error>)
    ensures r.Failure? <==> !(0 <= brightness <= 255)
    ensures r.Failure? ==> r.error == ValueError("brightness must be between 0 and 255")
    ensures r.Success? ==> !r.value.expectResponse
    ensures r.Success? ==> CommandBytes(r.value.data) == Success(Frame(brightness, 0, 0, WhiteBrightnessOpcode))
  {
    if !(0 <= brightness <= 255) then Failure(ValueError("brightness must be between 0 and 255"))
    else
      var data := "38  " + DecToEvenHex(brightness) + "0000 08 83";
      WhiteTokens(DecToEvenHex(brightness));
      WhiteBrightnessOpcodeHex();
      ByteFrame(data, "  ", brightness, "", "08", WhiteBrightnessOpcode);
      Success(Transmission(data, false, 0))
  }

  /** set_number_of_segments: the count as two big-endian bytes. No range is
      checked; a count outside 0..65535 does not make a six-byte command. */
  function SetNumberOfSegments(segments: int := 1): (t: Transmission)
    ensures !t.expectResponse
    ensures 0 <= segments < 65536 ==> CommandBytes(t.data) == Success(Frame(segments / 256, segments % 256, 0, SegmentsOpcode))
    ensures IsSixBytes(CommandBytes(t.data)) <==> 0 <= segments < 65536
    ensures segments < 0 ==> CommandBytes(t.data).Failure?
  {
    var data := "38 " + DecToEvenHex(segments, 2) + " 00 2e 83";
    SegmentsTokens(DecToEvenHex(segments, 2));
    SegmentsOpcodeHex();
    WordFrame(data, segments, "2e", SegmentsOpcode);
    Transmission(data, false, 0)
  }

  /** set_number_of_leds_per_segment: as set_number_of_segments, with its own
      opcode. */
  function SetNumberOfLedsPerSegment(leds: int := 154): (t: Transmission)
    ensures !t.expectResponse
    ensures 0 <= leds < 65536 ==> CommandBytes(t.data) == Success(Frame(leds / 256, leds % 256, 0, LedsPerSegmentOpcode))
    ensures IsSixBytes(CommandBytes(t.data)) <==> 0 <= leds < 65536
    ensures leds < 0 ==> CommandBytes(t.data).Failure?
  {
    var data := "38 " + DecToEvenHex(leds, 2) + " 00 2d 83";
    LedsPerSegmentTokens(DecToEvenHex(leds, 2));
    LedsPerSegmentOpcodeHex();
    WordFrame(data, leds, "2d", LedsPerSegmentOpcode);
    Transmission(data, false, 0)
  }

  /** The opcodes of the five commands without a payload: is_device_ready,
      get_name, get_device_raw_settings, the auto mode and the toggle. Each
      builder's contract says it sends Frame(0, 0, 0, opcode). */
  const FixedOpcodes: seq<byte> := [ReadyOpcode, NameOpcode, RawSettingsOpcode, AutoModeOpcode, ToggleOpcode]

  /** No two commands without a payload send the same frame. */
  lemma FixedFramesDistinct()
    ensures forall i, j :: 0 <= i < j < |FixedOpcodes| ==> Frame(0, 0, 0, FixedOpcodes[i]) != Frame(0, 0, 0, FixedOpcodes[j])
  {
    forall i, j | 0 <= i < j < |FixedOpcodes| ensures Frame(0, 0, 0, FixedOpcodes[i]) != Frame(0, 0, 0, FixedOpcodes[j]) {
      assert Frame(0, 0, 0, FixedOpcodes[i])[4] == FixedOpcodes[i];
    }
  }
}
