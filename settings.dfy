/** get_device_settings: the status reply, hexlified, cut into fields at
    fixed character offsets.

    The worked example (ExampleDecodes and its helpers) takes the reply as a
    parameter r with r == ExampleReply, rather than naming the constant in
    its contract, so that each helper evaluates only the bytes it needs. */
module Settings {
  import opened Wrappers
  import opened Hex
  import opened Text
  import opened Tables
  import opened Encoder
  import opened Commands

  /** The dictionary get_device_settings returns, one field per key. */
  datatype DeviceSettings = DeviceSettings(
    turnedOn: nat,
    currentAnimation: string,
    animationSpeed: nat,
    currentBrightness: nat,
    colorOrder: string,
    ledsPerSegment: nat,
    segments: nat,
    currentColor: string,
    chipType: string,
    recordedPatterns: nat,
    whiteChannelBrightness: nat)

  /** get_device_raw_settings: the reply as lower-case hex text, which
      unhexlifies back to the reply. */
  function RawSettings(response: seq<byte>): (r: string)
    ensures |r| == 2 * |response| && IsLowerHexString(r)
    ensures Unhexlify(r) == Success(response)
  {
    UnhexlifyHexlify(response);
    Hexlify(response)
  }

  /** get_device_settings on whatever reply arrived. The lookups and
      conversions run in the source's order, so the first one that raises
      decides the error: the chip type, then the color order, then int()
      on the power field, then on the dictionary's fields in order. */
  function GetDeviceSettings(response: seq<byte>): Result<DeviceSettings, Error> {
    var raw := RawSettings(response);
    var currentAnimation := GetAnimation(Slice(raw, 4, 6));
    var chipType :- GetChipType(Slice(raw, 26, 28));
    var colorOrder :- GetColorOrder(Slice(raw, 10, 12));
    var turnedOn :- IntBase16(Slice(raw, 2, 4));
    var currentColor := Upper(Slice(raw, 20, 26));
    SettingsDict(raw, turnedOn, currentAnimation, colorOrder, currentColor, chipType)
  }

  /** The dictionary literal of get_device_settings: the fields not
      computed beforehand are converted by int(., 16) in key order. */
  function SettingsDict(raw: string, turnedOn: nat, currentAnimation: string, colorOrder: string,
                        currentColor: string, chipType: string): Result<DeviceSettings, Error>
  {
    var animationSpeed :- IntBase16(Slice(raw, 6, 8));
    var currentBrightness :- IntBase16(Slice(raw, 8, 10));
    var ledsPerSegment :- IntBase16(Slice(raw, 12, 16));
    var segments :- IntBase16(Slice(raw, 16, 20));
    var recordedPatterns :- IntBase16(Slice(raw, 28, 30));
    var whiteChannelBrightness :- IntBase16(Slice(raw, 30, 32));
    Success(DeviceSettings(turnedOn, currentAnimation, animationSpeed, currentBrightness, colorOrder,
      ledsPerSegment, segments, currentColor, chipType, recordedPatterns, whiteChannelBrightness))
  }

  /** The reply's byte layout, read byte by byte: the reference the decoder
      is proved against. Bytes 0 and 16 carry nothing. */
  function Layout(r: seq<byte>): DeviceSettings
    requires |r| >= 16 && r[5] < |ColorOrders| && r[13] < |ChipTypes|
  {
    DeviceSettings(
      turnedOn := r[1],
      currentAnimation := GetAnimation(ByteHex(r[2])),
      animationSpeed := r[3],
      currentBrightness := r[4],
      colorOrder := ColorOrders[r[5]].0,
      ledsPerSegment := 256 * (r[6] as nat) + r[7] as nat,
      segments := 256 * (r[8] as nat) + r[9] as nat,
      currentColor := Upper(Hexlify(r[10..13])),
      chipType := ChipTypes[r[13]].0,
      recordedPatterns := r[14],
      whiteChannelBrightness := r[15])
  }

  // ---------------------------------------------------------------------
  // Fields of the hexlified reply

  /** Characters 2k and 2k + 1 of the hex text are byte k. */
  lemma ByteField(b: seq<byte>, k: nat)
    requires k < |b|
    ensures Slice(Hexlify(b), 2 * k, 2 * k + 2) == ByteHex(b[k])
  {
    HexlifyAt(b, k);
  }

  /** Characters 2k .. 2k + 3 are bytes k and k + 1. */
  lemma WordField(b: seq<byte>, k: nat)
    requires k + 1 < |b|
    ensures Slice(Hexlify(b), 2 * k, 2 * k + 4) == ByteHex(b[k]) + ByteHex(b[k + 1])
  {
    var h := Hexlify(b);
    HexlifyAt(b, k);
    HexlifyAt(b, k + 1);
    SliceSplit(h, 2 * k, 2 * k + 2, 2 * k + 4);
    assert 2 * (k + 1) == 2 * k + 2;
  }

  /** Characters 20 .. 25 are bytes 10 .. 12. */
  lemma ColorField(b: seq<byte>)
    requires |b| >= 13
    ensures Slice(Hexlify(b), 20, 26) == Hexlify(b[10..13])
  {
    var h := Hexlify(b);
    HexlifyConcat(b[..10], b[10..]);
    HexlifyConcat(b[10..13], b[13..]);
    assert b == b[..10] + b[10..];
    assert b[10..] == b[10..13] + b[13..];
    SliceRight(h, Hexlify(b[..10]), Hexlify(b[10..]), 20, 26);
    SliceLeft(Hexlify(b[10..]), Hexlify(b[10..13]), Hexlify(b[13..]), 0, 6);
    assert Hexlify(b[10..13])[0..6] == Hexlify(b[10..13]);
  }

  /** A field past the end of the text is empty: Python clamps the slice. */
  lemma FieldPastEnd(s: string, i: nat, j: nat)
    requires i <= j && |s| <= i
    ensures Slice(s, i, j) == []
  {
  }

  /** int(., 16) of one byte's text is the byte. */
  lemma IntOfByte(x: byte)
    ensures IntBase16(ByteHex(x)) == Success(x)
  {
    LowerIsHex(ByteHex(x));
    ByteHexValue(x);
  }

  /** int(., 16) of two bytes' text is their big-endian value. */
  lemma IntOfWord(x: byte, y: byte)
    ensures IntBase16(ByteHex(x) + ByteHex(y)) == Success(256 * x + y)
  {
    LowerIsHex(ByteHex(x));
    LowerIsHex(ByteHex(y));
    ParseHexConcat(ByteHex(x), ByteHex(y));
    ByteHexValue(x);
    ByteHexValue(y);
    Pow16Value4();
  }

  /** No table has an empty code, so the lookups of an empty field raise. */
  lemma EmptyCodeUnknown()
    ensures GetChipType([]) == Failure(IndexError)
    ensures GetColorOrder([]) == Failure(IndexError)
  {
    CodesArePositions();
  }

  // ---------------------------------------------------------------------
  // What get_device_settings computes

  /** The dictionary of a reply of at least 16 bytes holds the reply's
      integer fields, whatever was computed before it. */
  lemma DictFields(r: seq<byte>, turnedOn: nat, currentAnimation: string, colorOrder: string,
                   currentColor: string, chipType: string)
    requires |r| >= 16
    ensures SettingsDict(RawSettings(r), turnedOn, currentAnimation, colorOrder, currentColor, chipType) ==
      Success(DeviceSettings(turnedOn, currentAnimation, r[3], r[4], colorOrder,
        256 * (r[6] as nat) + r[7] as nat, 256 * (r[8] as nat) + r[9] as nat, currentColor, chipType, r[14], r[15]))
  {
    var raw := RawSettings(r);
    ByteField(r, 3); IntOfByte(r[3]);
    ByteField(r, 4); IntOfByte(r[4]);
    WordField(r, 6); IntOfWord(r[6], r[7]);
    WordField(r, 8); IntOfWord(r[8], r[9]);
    ByteField(r, 14); IntOfByte(r[14]);
    ByteField(r, 15); IntOfByte(r[15]);
  }

  /** The text fields of a reply of at least 16 bytes: the lookups see the
      bytes' own codes and the color its three bytes. */
  lemma TextFields(r: seq<byte>)
    requires |r| >= 16
    ensures var raw := RawSettings(r);
      && Slice(raw, 4, 6) == ByteHex(r[2])
      && GetChipType(Slice(raw, 26, 28)) == (if r[13] < |ChipTypes| then Success(ChipTypes[r[13]].0) else Failure(IndexError))
      && GetColorOrder(Slice(raw, 10, 12)) == (if r[5] < |ColorOrders| then Success(ColorOrders[r[5]].0) else Failure(IndexError))
      && Slice(raw, 20, 26) == Hexlify(r[10..13])
  {
    ByteField(r, 2);
    ByteField(r, 13);
    ChipTypeOfByte(r[13]);
    ByteField(r, 5);
    ColorOrderOfByte(r[5]);
    ColorField(r);
  }

  /** A full reply decodes exactly when its chip byte names a chip and its
      color-order byte names an order, and then to its byte layout; otherwise
      the lookup raises. Byte 0 and anything from byte 16 on are not read. */
  lemma DecodeReply(r: seq<byte>)
    requires |r| >= 16
    ensures GetDeviceSettings(r).Success? <==> r[13] < |ChipTypes| && r[5] < |ColorOrders|
    ensures r[13] < |ChipTypes| && r[5] < |ColorOrders| ==> GetDeviceSettings(r) == Success(Layout(r))
    ensures !(r[13] < |ChipTypes| && r[5] < |ColorOrders|) ==> GetDeviceSettings(r) == Failure(IndexError)
  {
    var raw := RawSettings(r);
    TextFields(r);
    ByteField(r, 1);
    IntOfByte(r[1]);
    var currentAnimation := GetAnimation(Slice(raw, 4, 6));
    var currentColor := Upper(Slice(raw, 20, 26));
    if r[13] < |ChipTypes| && r[5] < |ColorOrders| {
      DictFields(r, r[1], currentAnimation, ColorOrders[r[5]].0, currentColor, ChipTypes[r[13]].0);
    }
  }

  /** A reply of fewer than 16 bytes never decodes; below 14 bytes the chip
      field is already empty and its lookup raises. */
  lemma ShortReply(r: seq<byte>)
    requires |r| < 16
    ensures GetDeviceSettings(r).Failure?
    ensures |r| < 14 ==> GetDeviceSettings(r) == Failure(IndexError)
  {
    if |r| < 14 {
      NoChipField(r);
    } else {
      ShortDict(RawSettings(r));
    }
  }

  lemma NoChipField(r: seq<byte>)
    requires |r| < 14
    ensures GetDeviceSettings(r) == Failure(IndexError)
  {
    FieldPastEnd(RawSettings(r), 26, 28);
    EmptyCodeUnknown();
  }

  /** Text too short for the white-brightness field makes its int() raise,
      whatever the dictionary's other fields hold. */
  lemma ShortDict(raw: string)
    requires |raw| <= 30
    ensures forall turnedOn, currentAnimation, colorOrder, currentColor, chipType ::
      SettingsDict(raw, turnedOn, currentAnimation, colorOrder, currentColor, chipType).Failure?
  {
    FieldPastEnd(raw, 30, 32);
    assert IntBase16(Slice(raw, 30, 32)).Failure?;
  }

  /** The decoder depends on bytes 1 .. 15 of the reply and nothing else. */
  lemma FramingIgnored(a: seq<byte>, b: seq<byte>)
    requires |a| >= 16 && |b| >= 16 && a[1..16] == b[1..16]
    ensures GetDeviceSettings(a) == GetDeviceSettings(b)
  {
    assert a[5] == b[5] && a[13] == b[13] by { SameBytes(a, b); }
    DecodeReply(a);
    DecodeReply(b);
    if a[13] < |ChipTypes| && a[5] < |ColorOrders| {
      SameLayout(a, b);
    }
  }

  lemma SameBytes(a: seq<byte>, b: seq<byte>)
    requires |a| >= 16 && |b| >= 16 && a[1..16] == b[1..16]
    ensures forall k :: 1 <= k < 16 ==> a[k] == b[k]
    ensures a[10..13] == b[10..13]
  {
    forall k | 1 <= k < 16 ensures a[k] == b[k] {
      assert a[k] == a[1..16][k - 1] && b[k] == b[1..16][k - 1];
    }
    assert a[10..13] == a[1..16][9..12] && b[10..13] == b[1..16][9..12];
  }

  lemma SameLayout(a: seq<byte>, b: seq<byte>)
    requires |a| >= 16 && |b| >= 16 && a[1..16] == b[1..16]
    requires a[5] < |ColorOrders| && a[13] < |ChipTypes|
    ensures b[5] < |ColorOrders| && b[13] < |ChipTypes|
    ensures Layout(a) == Layout(b)
  {
    SameBytes(a, b);
  }

  // ---------------------------------------------------------------------
  // A worked reply

  const ExampleColor: seq<byte> := [0xff, 0x00, 0x00]

  const ExampleReply: seq<byte> :=
    [0x38, 0x01, 0xcd, 0x10, 0x20, 0x02, 0x00, 0x9a, 0x00, 0x01] + ExampleColor + [0x03, 0x00, 0x00, 0x83]

  lemma RedHex()
    ensures Upper(Hexlify([0xff, 0x00, 0x00])) == "FF0000"
  {
    HexlifyConcat([0xff], [0x00, 0x00]);
    assert [0xff, 0x00, 0x00] == [0xff] + [0x00, 0x00];
    HexlifyOne(0xff);
    ZeroPairHex();
    assert ByteHex(0xff) == "ff";
    assert Hexlify([0xff, 0x00, 0x00]) == "ff0000";
  }

  lemma MeteorName()
    ensures GetAnimation(ByteHex(0xcd)) == "meteor"
  {
    AnimationCode0();
  }

  /** The reply for a strip that is on, running "meteor" at speed 16 and
      brightness 32 in red, 154 GRB WS2811 LEDs in one segment. */
  lemma ExampleDecodes(r: seq<byte>)
    requires r == ExampleReply
    ensures GetDeviceSettings(r) ==
      Success(DeviceSettings(1, "meteor", 16, 32, "GRB", 154, 1, "FF0000", "WS2811", 0, 0))
  {
    ExampleBytes(r);
    DecodeReply(r);
    ExampleLayout(r);
  }

  lemma ExampleBytes(r: seq<byte>)
    requires r == ExampleReply
    ensures |r| == 17 && r[5] == 2 && r[13] == 3
  {
  }

  lemma ExampleFields(r: seq<byte>)
    requires r == ExampleReply
    ensures |r| == 17
    ensures r[1] == 0x01 && r[2] == 0xcd && r[3] == 0x10 && r[4] == 0x20 && r[5] == 0x02
    ensures r[6] == 0x00 && r[7] == 0x9a && r[8] == 0x00 && r[9] == 0x01
    ensures r[13] == 0x03 && r[14] == 0x00 && r[15] == 0x00
  {
  }

  lemma ExampleNames()
    ensures ColorOrders[2].0 == "GRB" && ChipTypes[3].0 == "WS2811"
  {
  }

  lemma ExampleLayout(r: seq<byte>)
    requires r == ExampleReply
    ensures |r| >= 16 && r[5] < |ColorOrders| && r[13] < |ChipTypes|
    ensures Layout(r) == DeviceSettings(1, "meteor", 16, 32, "GRB", 154, 1, "FF0000", "WS2811", 0, 0)
  {
    ExampleFields(r);
    ExampleColorBytes(r);
    RedHex();
    MeteorName();
    ExampleNames();
  }

  lemma ExampleColorBytes(r: seq<byte>)
    requires r == ExampleReply
    ensures r[10..13] == [0xff, 0x00, 0x00]
  {
    var front: seq<byte> := [0x38, 0x01, 0xcd, 0x10, 0x20, 0x02, 0x00, 0x9a, 0x00, 0x01];
    SliceLeft(r, front + ExampleColor, [0x03, 0x00, 0x00, 0x83], 10, 13);
    SliceRight(front + ExampleColor, front, ExampleColor, 10, 13);
    assert ExampleColor[0..3] == ExampleColor;
  }

  // ---------------------------------------------------------------------
  // Settings read back, sent again

  /** The brightness read from a reply, sent back, is its own status byte. */
  lemma BrightnessReadBack(r: seq<byte>)
    requires |r| >= 16 && r[13] < |ChipTypes| && r[5] < |ColorOrders|
    ensures GetDeviceSettings(r).Success? && var s := GetDeviceSettings(r).value;
      ChangeBrightness(s.currentBrightness).Success? &&
      CommandBytes(ChangeBrightness(s.currentBrightness).value.data) == Success(Frame(r[4], 0, 0, BrightnessOpcode))
  {
    DecodeReply(r);
  }

  /** The white brightness read back is its own status byte. */
  lemma WhiteReadBack(r: seq<byte>)
    requires |r| >= 16 && r[13] < |ChipTypes| && r[5] < |ColorOrders|
    ensures GetDeviceSettings(r).Success? && var s := GetDeviceSettings(r).value;
      ChangeWhiteChannelBrightness(s.whiteChannelBrightness).Success? &&
      CommandBytes(ChangeWhiteChannelBrightness(s.whiteChannelBrightness).value.data) ==
        Success(Frame(r[15], 0, 0, WhiteBrightnessOpcode))
  {
    DecodeReply(r);
  }

  lemma WordBytes(hi: byte, lo: byte)
    ensures (256 * hi + lo) / 256 == hi && (256 * hi + lo) % 256 == lo
  {
    ModUnique(256 * hi + lo, 256, hi, lo);
  }

  /** The two counts read back give the same two bytes they were read from. */
  lemma CountsReadBack(r: seq<byte>)
    requires |r| >= 16 && r[13] < |ChipTypes| && r[5] < |ColorOrders|
    ensures GetDeviceSettings(r).Success? && var s := GetDeviceSettings(r).value;
      && CommandBytes(SetNumberOfLedsPerSegment(s.ledsPerSegment).data) == Success(Frame(r[6], r[7], 0, LedsPerSegmentOpcode))
      && CommandBytes(SetNumberOfSegments(s.segments).data) == Success(Frame(r[8], r[9], 0, SegmentsOpcode))
  {
    DecodeReply(r);
    WordBytes(r[6], r[7]);
    WordBytes(r[8], r[9]);
  }

  /** Upper-casing does not change the bytes hex text stands for. */
  lemma {:induction false} DecodePairsUpper(s: string)
    requires IsLowerHexString(s) && |s| % 2 == 0
    ensures IsHexString(s) && IsHexString(Upper(s))
    ensures DecodePairs(Upper(s)) == DecodePairs(s)
    decreases |s|
  {
    UpperHex(s);
    if s != [] {
      UpperFirstPair(s);
      DecodePairsUpper(s[2..]);
    }
  }

  lemma UpperFirstPair(s: string)
    requires IsLowerHexString(s) && |s| >= 2
    ensures IsLowerHexString(s[2..]) && IsHexString(Upper(s))
    ensures Upper(s)[2..] == Upper(s[2..])
    ensures DigitValue(Upper(s)[0]) == DigitValue(s[0]) && DigitValue(Upper(s)[1]) == DigitValue(s[1])
  {
    UpperHex(s);
    LowerHexTail(s);
  }

  lemma UpperHasNoMarks(s: string)
    requires IsLowerHexString(s)
    ensures RemoveAll(RemoveAll(Upper(s), '#'), ' ') == Upper(s)
  {
    var u := Upper(s);
    UpperHex(s);
    RemoveAllSpec(u, '#');
    RemoveAllSpec(u, ' ');
  }

  /** The color read back, passed to change_color, gives the three color
      bytes it was read from. */
  lemma ColorReadBack(r: seq<byte>)
    requires |r| >= 16 && r[13] < |ChipTypes| && r[5] < |ColorOrders|
    ensures GetDeviceSettings(r).Success? && var s := GetDeviceSettings(r).value;
      CommandBytes(ChangeColor(s.currentColor).data) == Success(Frame(r[10], r[11], r[12], ColorOpcode))
  {
    DecodeReply(r);
    ColorCommand(r[10..13]);
  }

  /** Three bytes written as upper-case hex, passed to change_color, are
      sent as those bytes. */
  lemma ColorCommand(c: seq<byte>)
    requires |c| == 3
    ensures CommandBytes(ChangeColor(Upper(Hexlify(c))).data) == Success(Frame(c[0], c[1], c[2], ColorOpcode))
  {
    var h := Hexlify(c);
    UpperHasNoMarks(h);
    DecodePairsUpper(h);
    DecodePairsHexlify(c);
    PayloadIsFrame(c, ColorOpcode);
  }

  lemma PayloadIsFrame(c: seq<byte>, opcode: byte)
    requires |c| == 3
    ensures [Head] + c + [opcode, Tail] == Frame(c[0], c[1], c[2], opcode)
  {
  }

  /** Each table animation's code, passed to change_mono_color_animation,
      gives the animation's byte. */
  lemma MonoAnimationCommand(i: nat)
    requires i < |MonoAnimations|
    ensures CommandBytes(ChangeMonoColorAnimation(MonoAnimations[i].1).data) ==
      Success(Frame(AnimationBytes[i], 0, 0, AnimationOpcode))
  {
    AnimationBytePositions();
    var b := AnimationBytes[i];
    HexKept(ByteHex(b));
    LowerIsHex(ByteHex(b));
    DecodePairsHexlify([b]);
    HexlifyOne(b);
    assert [Head] + [b] + [0, 0, AnimationOpcode, Tail] == Frame(b, 0, 0, AnimationOpcode);
  }
}
