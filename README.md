# SP108E controller codec in Dafny

This project models the protocol core of `sp108e.py`, a small Python client for the
SP108E LED-strip controller. The controller takes fixed-shape binary commands over TCP:
a head byte `0x38`, three payload bytes, an opcode and a tail byte `0x83`. It answers
status queries with a 17-byte reply.

The Python code builds every command as hex text such as `"38 1f 0000 2a 83"`.
`transmit_data` removes the spaces and unhexlifies the rest into bytes. The status
reply is hexlified again and cut at fixed character offsets into a settings
dictionary, through three code tables (mono animations, chip types, color orders).

The model is pure: datatypes, functions and lemmas, as in the source.

- `Hex`: the Python built-ins the code relies on.
  - `hex()`, the `x` format, and the value of hex digit text.
  - `binascii.hexlify`, and `unhexlify` with its three failure reasons checked in
    CPython's order: non-ASCII, odd length, non-hex digit.
- `Text`: `str.replace(c, "")`, clamped slicing, ASCII `upper()`, `int(s, 16)` and
  `f"{n}"`. It also defines the Python exceptions raised by the range checks and
  the decoder: `ValueError` and `IndexError`. A failed unhexlify is `Hex.HexFault`.
- `Encoder`: `dec_to_even_hex`, on any `int`.
- `Tables`: the three tables and the `get_*` reverse lookups.
- `Commands`:
  - every command builder, returning the arguments it hands to `transmit_data`;
  - `CommandBytes`, which is what `transmit_data` puts on the wire;
  - lemmas about which texts become which bytes.
- `Settings`: `get_device_raw_settings`' hexlify step and `get_device_settings`. It
  relates them to an independent byte-layout reading of the reply and to the
  builders that send the read values back.

Each builder is total. Where the source raises, the builder returns a `Result`. Where
the source splices a caller's text in unchecked (`change_color`,
`change_mono_color_animation`), the contract says exactly when the text becomes a
valid command, and which bytes it sends.

## Model

| member | source | states |
|---|---|---|
| Hex.Hexlify | sp108e.py:132 | `binascii.hexlify`: two lower-case hex digits per byte; Hex.UnhexlifyHexlify and Hex.HexlifyUnhexlify prove it inverse to Hex.Unhexlify |
| Hex.Unhexlify | sp108e.py:92 | `binascii.unhexlify`, failing on non-ASCII text, then on odd length, then on a non-hex digit; its contract is Hex.UnhexlifyAccepts and the two round trips |
| Hex.UnhexlifyAccepts | sp108e.py:92 | unhexlify accepts a string exactly when it has an even number of hex digits, and then yields half as many bytes |
| Hex.UnhexlifyHexlify | sp108e.py:132 | unhexlify inverts hexlify on every byte sequence |
| Hex.HexlifyUnhexlify | sp108e.py:92 | hexlify inverts unhexlify on lower-case hex text it accepts |
| Hex.ParseHexDigits | sp108e.py:78 | the digits of `hex(n)` after the `0x` read back as n |
| Hex.HexDigitsLength | sp108e.py:78 | `hex(n)` has at most k digits exactly when n < 16^k |
| Hex.ParseHexBound | sp108e.py:142 | k hex digits stand for a value below 16^k, so a two-character field is at most 255 |
| Hex.ByteHexInjective | sp108e.py:132 | two bytes with the same two-digit text are equal |
| Text.RemoveAll | sp108e.py:91 | `str.replace(c, "")`; its contract is Text.RemoveAllSpec and Text.RemoveAllConcat |
| Text.RemoveAllSpec | sp108e.py:91 | `replace(c, "")` leaves no c, is never longer, keeps text without c unchanged, and is empty exactly when all characters were c |
| Text.RemoveAllConcat | sp108e.py:91 | removing a character from a concatenation removes it from each part |
| Text.Slice | sp108e.py:139-156 | `s[i:j]`: at most j - i characters; the plain slice when j is within s; empty when i is at or past the end |
| Text.Upper | sp108e.py:143 | `str.upper()`: same length, each character upper-cased; Text.UpperHex states it on hex text |
| Text.Decimal | sp108e.py:116 | `f"{n}"`: at least one character; for a negative n a "-" followed by the digits of -n |
| Text.DecimalDigitsValue | sp108e.py:116 | the digits of a natural n are decimal digits that read back as n in base 10, with no leading zero unless n is 0 |
| Text.DecimalValue | sp108e.py:116 | `f"{n}"` spells n in base 10: the text after an optional "-" reads back as the magnitude of n, with no leading zero for n other than 0 |
| Text.UpperHex | sp108e.py:143 | upper-casing lower-case hex text gives upper-case hex digits with the same value |
| Text.IntBase16 | sp108e.py:142 | `int(s, 16)` succeeds exactly on non-empty hex digit text, with the digits' value, which is below 16^len(s); otherwise it raises ValueError with the message "invalid literal for int() with base 16: " followed by s in single quotes |
| Encoder.PyHex | sp108e.py:78 | `hex(d)`: "0x" after a "-" for a negative d, then the digits of abs(d); it is two characters longer than the digits, three when negative |
| Encoder.FormatHex | sp108e.py:82 | `f"{d:0{n}x}"`: zero padding to n characters after the sign; its contract is Encoder.DecToEvenHex, Encoder.EvenHexWithWidth and Encoder.EvenHexNegative |
| Encoder.DecToEvenHex | sp108e.py:77-82 | the text is at least two characters; it starts with "-" exactly for a negative value; every other character is a lower-case hex digit |
| Encoder.EvenHexNoWidth | sp108e.py:78-79 | with no width the text has even length, the digit count of d rounded up to even; it reads back as d; it is the fewest whole bytes that hold d |
| Encoder.EvenHexWithWidth | sp108e.py:80-82 | with a width of w bytes the text is at least 2w digits; it reads back as d; it is exactly 2w digits, the value's fixed-width rendering, exactly when d < 256^w |
| Encoder.EvenHexNegative | sp108e.py:82 | a negative value gives an even-length text with a leading "-", which is not hex |
| Encoder.EvenHexByte | sp108e.py:77-82 | a byte value with no width is its two-digit hex text |
| Encoder.EvenHexWord | sp108e.py:80-82 | a value below 65536 with width 2 is its high byte's text followed by its low byte's |
| Encoder.EncoderExamples | sp108e.py:77-82 | 0 gives "00", 0xb3 gives "b3", 0x100 gives "0100", and 154 with width 2 gives "009a" |
| Tables.NamesWithCode | sp108e.py:60 | the list comprehension holds exactly the names whose code is x |
| Tables.NamesWithCodeDistinct | sp108e.py:60 | in a table with distinct codes the list is the one matching name, or empty when no entry has the code |
| Tables.TablesInjective | sp108e.py:9-70 | none of the three tables `MonoAnimations`, `ChipTypes` and `ColorOrders` (the dictionaries mono_animations, chip_types and color_orders) uses a code twice |
| Tables.CodesArePositions | sp108e.py:29-70 | each chip and color-order code is the entry's position as one byte of hex |
| Tables.AnimationCodesAreBytes | sp108e.py:9-18 | the animation codes are the bytes cd, ce, d1, d4, d3, cf, d2, d0 in table order |
| Tables.GetAnimation | sp108e.py:21-26 | the name of the entry with code x, or x itself when no entry has it |
| Tables.GetChipType | sp108e.py:60 | succeeds exactly when some chip has code x, with that chip's name; IndexError otherwise |
| Tables.GetColorOrder | sp108e.py:73-74 | succeeds exactly when some color order has code x, with its name; IndexError otherwise |
| Tables.ChipTypeOfByte | sp108e.py:60 | a byte's text names a chip exactly when the byte is below 27, and then the chip at that position |
| Tables.ColorOrderOfByte | sp108e.py:73-74 | a byte's text names a color order exactly when the byte is below 6 |
| Tables.AnimationOfByte | sp108e.py:21-26 | a byte's text is a known animation exactly when the byte lies in 0xcd..0xd4; any other byte comes back as its own text |
| Commands.CommandBytes | sp108e.py:91-92 | the bytes `transmit_data` sends for a text: spaces removed, then unhexlified; Commands.CommandText, Commands.SpliceBytes and each builder state it on the builders' texts |
| Commands.CommandText | sp108e.py:91 | removing the spaces from a command text leaves the head's, the payload's, the opcode's and the tail's hex, joined |
| Commands.SpliceBytes | sp108e.py:91-92 | a text around a spliced part is accepted exactly when the part is, and then carries the part's bytes between head and tail |
| Commands.IsDeviceReady | sp108e.py:97-98 | sends the frame 38 00 00 00 2f 83 and waits for one byte |
| Commands.ChangeColor | sp108e.py:106-110 | with "#" and spaces removed, the color goes through exactly when it is an even number of hex digits, and then sits between head and opcode 0x22; the command is six bytes exactly when the color is six digits |
| Commands.ChangeSpeed | sp108e.py:113-116 | raises ValueError exactly outside 0..255; otherwise it never makes a six-byte command; unhexlify accepts it exactly for the two-digit speeds 10..99, which send 0x38 and the speed's decimal digits read as one hex byte |
| Commands.ChangeBrightness | sp108e.py:119-122 | raises ValueError exactly outside 0..255; otherwise sends the frame 38 b 00 00 2a 83 |
| Commands.GetName | sp108e.py:125-127 | sends the frame 38 00 00 00 77 83 and reads 18 bytes |
| Commands.GetDeviceRawSettings | sp108e.py:130-131 | sends the frame 38 00 00 00 10 83 and reads 17 bytes |
| Commands.ChangeMonoColorAnimation | sp108e.py:161-172 | the code, spaces removed, goes through exactly when it is an even number of hex digits; the command is six bytes exactly when it is two digits |
| Commands.ChangeMixedColorsAnimation | sp108e.py:175-178 | goes through exactly when index >= 1; for 1..256 sends 38 (index-1) 00 00 2c 83; it is six bytes exactly for 1..256 |
| Commands.EnableMulticolorAnimationAutoMode | sp108e.py:181-182 | sends the frame 38 00 00 00 06 83 |
| Commands.ToggleOffOn | sp108e.py:185-186 | sends the frame 38 00 00 00 aa 83 |
| Commands.ChangeWhiteChannelBrightness | sp108e.py:189-192 | raises ValueError exactly outside 0..255; otherwise sends 38 b 00 00 08 83, the doubled and missing spaces notwithstanding |
| Commands.SetNumberOfSegments | sp108e.py:195-196 | for 0..65535 sends 38 hi lo 00 2e 83; it is six bytes exactly in that range; a negative count is refused by unhexlify |
| Commands.SetNumberOfLedsPerSegment | sp108e.py:199-200 | for 0..65535 sends 38 hi lo 00 2d 83; it is six bytes exactly in that range; a negative count is refused by unhexlify |
| Commands.FixedFramesDistinct | sp108e.py:97-186 | the five commands without a payload send pairwise distinct frames |
| Settings.GetDeviceSettings | sp108e.py:135-158 | `get_device_settings` on the reply bytes, with the source's lookups and error order; its contract is Settings.DecodeReply, Settings.ShortReply, Settings.FramingIgnored and Settings.ExampleDecodes |
| Settings.SettingsDict | sp108e.py:145-157 | the dictionary literal, converting the remaining fields with `int(., 16)` in key order; Settings.DecodeReply states its result |
| Settings.RawSettings | sp108e.py:130-132 | the raw settings are 2 characters per reply byte, lower-case hex, and unhexlify back to the reply |
| Settings.DecodeReply | sp108e.py:135-158 | a reply of 16 or more bytes decodes exactly when its chip byte is below 27 and its color-order byte below 6, and then to its byte layout; otherwise IndexError |
| Settings.ShortReply | sp108e.py:135-158 | a reply shorter than 16 bytes never decodes; below 14 bytes the chip lookup raises IndexError |
| Settings.FramingIgnored | sp108e.py:139-156 | the result depends only on bytes 1..15 of the reply |
| Settings.ExampleDecodes | sp108e.py:135-158 | a sample reply decodes to power 1, "meteor", speed 16, brightness 32, "GRB", 154 LEDs, 1 segment, "FF0000", "WS2811", 0 patterns, white 0 |
| Settings.DecodePairsUpper | sp108e.py:143 | upper-casing hex text does not change the bytes it stands for |
| Settings.BrightnessReadBack | sp108e.py:149 | for any reply that decodes, the brightness read from it, passed to change_brightness, sends the reply's own brightness byte |
| Settings.WhiteReadBack | sp108e.py:156 | for any reply that decodes, the white brightness read back, passed to change_white_channel_brightness, sends its own byte |
| Settings.CountsReadBack | sp108e.py:151-152 | for any reply that decodes, the LED and segment counts read back, passed to their setters, send the same two bytes each |
| Settings.ColorReadBack | sp108e.py:143 | for any reply that decodes, the upper-case color read back, passed to change_color, sends the reply's three color bytes |
| Settings.MonoAnimationCommand | sp108e.py:161-172 | each table animation's code, passed to change_mono_color_animation, sends that animation's byte |

## Left out

- Socket I/O (sp108e.py:90, 92-94) is not modelled: the connection, `send` and `recv`. The builders return the text, the reply flag and the reply length instead of sending them. `GetDeviceSettings` takes the reply bytes as a parameter.
- `send_data` (sp108e.py:101-103) is a pass-through to `transmit_data` and is not modelled on its own.
- The GUI (sp108e.py:203-259) and the connection constants (sp108e.py:6-7) are not modelled; they carry no protocol logic.
- ChangeSpeed: not given a six-byte frame. The source sends the speed in decimal with no opcode or tail, and its speed opcode is not in the source. The model states only the range check and what that text turns into.
- Text.IntBase16: its ValueError message writes repr(s) as s between single quotes, which is exact for hex and empty text, the only texts the decoder passes. It accepts only plain hex digits. Python's `int(s, 16)` also allows a sign, surrounding whitespace, underscores and a `0x` prefix, but the decoder only ever passes it slices of lower-case hex text.
- Text.Upper: upper-cases ASCII letters only. That covers all the decoder ever upper-cases.
- Encoder.DecToEvenHex: `output_bytes` is a `nat`, with 0 standing for `None`. Negative widths are not modelled.
- dec_to_even_hex raises nothing for a value too wide for its width. The source produces more digits, and so does the model.
- Commands.ChangeMonoColorAnimation: the index is modelled as text. The source splices it in with an f-string and has no caller in the file; an `int` index would be spliced as its decimal digits.
- Commands.ChangeMixedColorsAnimation: only `int` indexes are modelled; the source has no type annotation. It checks no range (the comment at sp108e.py:176 names 1..180), and neither does the model.
- The model keeps these behaviours of the code as they are:
  - the power field `turned_on` is the integer `int(raw_settings[2:4], 16)`, not a boolean (sp108e.py:142);
  - a reply of 16 bytes already decodes, because nothing past character 32 of the hex text is read (sp108e.py:139-156);
  - a short reply raises IndexError or ValueError, as the slicing and lookups dictate (sp108e.py:139-156);
  - an unknown chip-type or color-order code raises IndexError and does not fall back to the code itself (sp108e.py:60, 73-74); only the animation lookup falls back (sp108e.py:21-26).
