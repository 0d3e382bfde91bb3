/** The three protocol code tables and their reverse lookups.

    The facts about single table entries (ChipCode0 to ChipCode26,
    ColorCode0 to ColorCode5, AnimationCode0 to AnimationCode7) are one
    lemma each, so that a proof about the tables evaluates only the entries
    it names and never the whole table literal. */
module Tables {
  import opened Wrappers
  import opened Hex
  import opened Text

  /** A Python dict from names to two-digit codes, in insertion order. */
  type Table = seq<(string, string)>

  const MonoAnimations: Table := [
    ("meteor", "cd"),
    ("breathing", "ce"),
    ("wave", "d1"),
    ("catch up", "d4"),
    ("static", "d3"),
    ("stack", "cf"),
    ("flash", "d2"),
    ("flow", "d0")
  ]

  const ChipTypes: Table := [
    ("SM16703", "00"),
    ("TM1804", "01"),
    ("UCS1903", "02"),
    ("WS2811", "03"),
    ("WS2801", "04"),
    ("SK6812", "05"),
    ("LPD6803", "06"),
    ("LPD8806", "07"),
    ("APA102", "08"),
    ("APA105", "09"),
    ("DMX512", "0a"),
    ("TM1914", "0b"),
    ("TM1913", "0c"),
    ("P9813", "0d"),
    ("INK1003", "0e"),
    ("P943S", "0f"),
    ("P9411", "10"),
    ("P9413", "11"),
    ("TX1812", "12"),
    ("TX1813", "13"),
    ("GS8206", "14"),
    ("GS8208", "15"),
    ("SK9822", "16"),
    ("TM1814", "17"),
    ("SK6812_RGBW", "18"),
    ("P9414", "19"),
    ("P9412", "1a")
  ]

  const ColorOrders: Table := [
    ("RGB", "00"),
    ("RBG", "01"),
    ("GRB", "02"),
    ("GBR", "03"),
    ("BRG", "04"),
    ("BGR", "05")
  ]

  /** No two entries share a code, so a code names at most one entry. */
  ghost predicate DistinctCodes(t: Table) {
    forall i, j :: 0 <= i < j < |t| ==> t[i].1 != t[j].1
  }

  /** [k for k, v in t.items() if v == x]: the names whose code is x, in
      table order. */
  function NamesWithCode(t: Table, x: string): (r: seq<string>)
    ensures forall k :: k in r <==> (k, x) in t
    ensures |r| <= |t|
  {
    if t == [] then []
    else if t[0].1 == x then [t[0].0] + NamesWithCode(t[1..], x)
    else NamesWithCode(t[1..], x)
  }

  /** In a table with distinct codes the list holds exactly the name of the
      entry whose code is x, and nothing when no entry has that code. */
  lemma {:induction false} NamesWithCodeDistinct(t: Table, x: string)
    requires DistinctCodes(t)
    ensures |NamesWithCode(t, x)| <= 1
    ensures forall i :: 0 <= i < |t| && t[i].1 == x ==> NamesWithCode(t, x) == [t[i].0]
    ensures NamesWithCode(t, x) == [] <==> forall i :: 0 <= i < |t| ==> t[i].1 != x
    decreases |t|
  {
    if t != [] {
      assert DistinctCodes(t[1..]) by {
        forall i, j | 0 <= i < j < |t| - 1 ensures t[1..][i].1 != t[1..][j].1 {
          assert t[1..][i] == t[i + 1] && t[1..][j] == t[j + 1];
        }
      }
      NamesWithCodeDistinct(t[1..], x);
      forall i | 0 <= i < |t| - 1 ensures t[1..][i] == t[i + 1] { }
      if t[0].1 == x {
        assert forall i :: 1 <= i < |t| ==> t[i].1 != x;
      }
    }
  }

  /** get_animation: the animation's name, or the code itself when no
      animation has it. */
  function GetAnimation(x: string): (r: string)
    ensures forall i :: 0 <= i < |MonoAnimations| && MonoAnimations[i].1 == x ==> r == MonoAnimations[i].0
    ensures (forall i :: 0 <= i < |MonoAnimations| ==> MonoAnimations[i].1 != x) ==> r == x
  {
    TablesInjective();
    NamesWithCodeDistinct(MonoAnimations, x);
    var names := NamesWithCode(MonoAnimations, x);
    if names == [] then x else names[0]
  }

  /** get_chip_type: the chip's name; IndexError when no chip has the code. */
  function GetChipType(x: string): (r: Result<string, Error>)
    ensures r.Success? <==> exists i :: 0 <= i < |ChipTypes| && ChipTypes[i].1 == x
    ensures forall i :: 0 <= i < |ChipTypes| && ChipTypes[i].1 == x ==> r == Success(ChipTypes[i].0)
    ensures r.Failure? ==> r.error == IndexError
  {
    TablesInjective();
    NamesWithCodeDistinct(ChipTypes, x);
    var names := NamesWithCode(ChipTypes, x);
    if names == [] then Failure(IndexError) else Success(names[0])
  }

  /** get_color_order: the order's name; IndexError when no order has the
      code. */
  function GetColorOrder(x: string): (r: Result<string, Error>)
    ensures r.Success? <==> exists i :: 0 <= i < |ColorOrders| && ColorOrders[i].1 == x
    ensures forall i :: 0 <= i < |ColorOrders| && ColorOrders[i].1 == x ==> r == Success(ColorOrders[i].0)
    ensures r.Failure? ==> r.error == IndexError
  {
    TablesInjective();
    NamesWithCodeDistinct(ColorOrders, x);
    var names := NamesWithCode(ColorOrders, x);
    if names == [] then Failure(IndexError) else Success(names[0])
  }

  /** The chip and color-order codes are the entries' positions written as
      one byte. */
  lemma CodesArePositions()
    ensures forall i :: 0 <= i < |ChipTypes| ==> ChipTypes[i].1 == ByteHex(i)
    ensures forall i :: 0 <= i < |ColorOrders| ==> ColorOrders[i].1 == ByteHex(i)
  {
    ChipCode0(); ChipCode1(); ChipCode2(); ChipCode3(); ChipCode4(); ChipCode5();
    ChipCode6(); ChipCode7(); ChipCode8(); ChipCode9(); ChipCode10(); ChipCode11();
    ChipCode12(); ChipCode13(); ChipCode14(); ChipCode15(); ChipCode16(); ChipCode17();
    ChipCode18(); ChipCode19(); ChipCode20(); ChipCode21(); ChipCode22(); ChipCode23();
    ChipCode24(); ChipCode25(); ChipCode26();
    ColorCode0(); ColorCode1(); ColorCode2(); ColorCode3(); ColorCode4(); ColorCode5();
  }

  /** Each animation code is the text of one of the bytes 0xcd..0xd4. */
  lemma AnimationCodesAreBytes()
    ensures MonoAnimations[0].1 == ByteHex(0xcd) && MonoAnimations[1].1 == ByteHex(0xce)
    ensures MonoAnimations[2].1 == ByteHex(0xd1) && MonoAnimations[3].1 == ByteHex(0xd4)
    ensures MonoAnimations[4].1 == ByteHex(0xd3) && MonoAnimations[5].1 == ByteHex(0xcf)
    ensures MonoAnimations[6].1 == ByteHex(0xd2) && MonoAnimations[7].1 == ByteHex(0xd0)
  {
    AnimationCode0(); AnimationCode1(); AnimationCode2(); AnimationCode3();
    AnimationCode4(); AnimationCode5(); AnimationCode6(); AnimationCode7();
  }

  // One table entry's code each.
  lemma ChipCode0() ensures ChipTypes[0].1 == ByteHex(0) {}
  lemma ChipCode1() ensures ChipTypes[1].1 == ByteHex(1) {}
  lemma ChipCode2() ensures ChipTypes[2].1 == ByteHex(2) {}
  lemma ChipCode3() ensures ChipTypes[3].1 == ByteHex(3) {}
  lemma ChipCode4() ensures ChipTypes[4].1 == ByteHex(4) {}
  lemma ChipCode5() ensures ChipTypes[5].1 == ByteHex(5) {}
  lemma ChipCode6() ensures ChipTypes[6].1 == ByteHex(6) {}
  lemma ChipCode7() ensures ChipTypes[7].1 == ByteHex(7) {}
  lemma ChipCode8() ensures ChipTypes[8].1 == ByteHex(8) {}
  lemma ChipCode9() ensures ChipTypes[9].1 == ByteHex(9) {}
  lemma ChipCode10() ensures ChipTypes[10].1 == ByteHex(10) {}
  lemma ChipCode11() ensures ChipTypes[11].1 == ByteHex(11) {}
  lemma ChipCode12() ensures ChipTypes[12].1 == ByteHex(12) {}
  lemma ChipCode13() ensures ChipTypes[13].1 == ByteHex(13) {}
  lemma ChipCode14() ensures ChipTypes[14].1 == ByteHex(14) {}
  lemma ChipCode15() ensures ChipTypes[15].1 == ByteHex(15) {}
  lemma ChipCode16() ensures ChipTypes[16].1 == ByteHex(16) {}
  lemma ChipCode17() ensures ChipTypes[17].1 == ByteHex(17) {}
  lemma ChipCode18() ensures ChipTypes[18].1 == ByteHex(18) {}
  lemma ChipCode19() ensures ChipTypes[19].1 == ByteHex(19) {}
  lemma ChipCode20() ensures ChipTypes[20].1 == ByteHex(20) {}
  lemma ChipCode21() ensures ChipTypes[21].1 == ByteHex(21) {}
  lemma ChipCode22() ensures ChipTypes[22].1 == ByteHex(22) {}
  lemma ChipCode23() ensures ChipTypes[23].1 == ByteHex(23) {}
  lemma ChipCode24() ensures ChipTypes[24].1 == ByteHex(24) {}
  lemma ChipCode25() ensures ChipTypes[25].1 == ByteHex(25) {}
  lemma ChipCode26() ensures ChipTypes[26].1 == ByteHex(26) {}
  lemma ColorCode0() ensures ColorOrders[0].1 == ByteHex(0) {}
  lemma ColorCode1() ensures ColorOrders[1].1 == ByteHex(1) {}
  lemma ColorCode2() ensures ColorOrders[2].1 == ByteHex(2) {}
  lemma ColorCode3() ensures ColorOrders[3].1 == ByteHex(3) {}
  lemma ColorCode4() ensures ColorOrders[4].1 == ByteHex(4) {}
  lemma ColorCode5() ensures ColorOrders[5].1 == ByteHex(5) {}
  lemma AnimationCode0() ensures MonoAnimations[0].1 == ByteHex(0xcd) {}
  lemma AnimationCode1() ensures MonoAnimations[1].1 == ByteHex(0xce) {}
  lemma AnimationCode2() ensures MonoAnimations[2].1 == ByteHex(0xd1) {}
  lemma AnimationCode3() ensures MonoAnimations[3].1 == ByteHex(0xd4) {}
  lemma AnimationCode4() ensures MonoAnimations[4].1 == ByteHex(0xd3) {}
  lemma AnimationCode5() ensures MonoAnimations[5].1 == ByteHex(0xcf) {}
  lemma AnimationCode6() ensures MonoAnimations[6].1 == ByteHex(0xd2) {}
  lemma AnimationCode7() ensures MonoAnimations[7].1 == ByteHex(0xd0) {}

  /** Every table is injective: no code is used twice. */
  lemma TablesInjective()
    ensures DistinctCodes(MonoAnimations)
    ensures DistinctCodes(ChipTypes)
    ensures DistinctCodes(ColorOrders)
  {
    CodesArePositions();
    forall i, j | 0 <= i < j < |ChipTypes| ensures ChipTypes[i].1 != ChipTypes[j].1 {
      ByteHexDistinct(i, j);
    }
    forall i, j | 0 <= i < j < |ColorOrders| ensures ColorOrders[i].1 != ColorOrders[j].1 {
      ByteHexDistinct(i, j);
    }
  }

  /** A status byte names a chip exactly when it is below 27, the number of
      chips; any other byte raises. */
  lemma ChipTypeOfByte(b: byte)
    ensures GetChipType(ByteHex(b)) == if b < |ChipTypes| then Success(ChipTypes[b].0) else Failure(IndexError)
  {
    CodesArePositions();
    if b >= |ChipTypes| {
      forall i | 0 <= i < |ChipTypes| ensures ChipTypes[i].1 != ByteHex(b) { ByteHexDistinct(i, b); }
    }
  }

  /** A status byte names a color order exactly when it is below 6. */
  lemma ColorOrderOfByte(b: byte)
    ensures GetColorOrder(ByteHex(b)) == if b < |ColorOrders| then Success(ColorOrders[b].0) else Failure(IndexError)
  {
    CodesArePositions();
    if b >= |ColorOrders| {
      forall i | 0 <= i < |ColorOrders| ensures ColorOrders[i].1 != ByteHex(b) { ByteHexDistinct(i, b); }
    }
  }

  /** A status byte is a known animation exactly when it lies in
      0xcd..0xd4; any other byte comes back as its own two-digit text. */
  lemma AnimationOfByte(b: byte)
    ensures (exists i :: 0 <= i < |MonoAnimations| && MonoAnimations[i].1 == ByteHex(b)) <==> 0xcd <= b <= 0xd4
    ensures !(0xcd <= b <= 0xd4) ==> GetAnimation(ByteHex(b)) == ByteHex(b)
  {
    if 0xcd <= b <= 0xd4 {
      KnownAnimationByte(b);
    } else {
      UnknownAnimationByte(b);
    }
  }

  /** The bytes of the animation codes, in table order. */
  const AnimationBytes: seq<byte> := [0xcd, 0xce, 0xd1, 0xd4, 0xd3, 0xcf, 0xd2, 0xd0]

  lemma AnimationBytePositions()
    ensures |AnimationBytes| == |MonoAnimations|
    ensures forall i :: 0 <= i < |MonoAnimations| ==> MonoAnimations[i].1 == ByteHex(AnimationBytes[i])
  {
    AnimationCodesAreBytes();
  }

  lemma KnownAnimationByte(b: byte)
    requires 0xcd <= b <= 0xd4
    ensures exists i :: 0 <= i < |MonoAnimations| && MonoAnimations[i].1 == ByteHex(b)
  {
    AnimationBytePositions();
    var i := if b == 0xcd then 0 else if b == 0xce then 1 else if b == 0xcf then 5 else if b == 0xd0 then 7
      else if b == 0xd1 then 2 else if b == 0xd2 then 6 else if b == 0xd3 then 4 else 3;
    assert AnimationBytes[i] == b;
    assert MonoAnimations[i].1 == ByteHex(b);
  }

  lemma UnknownAnimationByte(b: byte)
    requires !(0xcd <= b <= 0xd4)
    ensures forall i :: 0 <= i < |MonoAnimations| ==> MonoAnimations[i].1 != ByteHex(b)
  {
    AnimationBytePositions();
    forall i | 0 <= i < |MonoAnimations| ensures MonoAnimations[i].1 != ByteHex(b) {
      ByteHexDistinct(AnimationBytes[i], b);
    }
  }
}
