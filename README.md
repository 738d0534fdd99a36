# ZW101 fingerprint sensor: ZFM packet codec

This project models the protocol core of `zw101.py`, a host program that
drives a ZFM-family fingerprint sensor over a serial line. Every sensor
command travels in a frame:

    [EF 01] [FF FF FF FF] [kind] [len_hi len_lo] [payload ...] [chk_hi chk_lo]

Here `kind` is 0x01 for a command and 0x07 for an acknowledgement. `len` is
the payload length plus 2. The checksum is the low 16 bits of the sum of the
kind, length and payload bytes. The model covers these parts:

- the checksum (`calc_checksum`);
- the command-frame encoder (`build_packet`);
- the acknowledgement decoder (`parse_ack`), with its Python slice clamping;
- the parameter packing of the seven sensor commands: get image, generate
  characteristics, register model, store, search, load characteristics and
  match;
- the reply fields that search and match read on success;
- the confirmation-code messages, a table entry or a `hex()` fallback.

It is written as Dafny functions over byte sequences, with lemmas. The source
works the same way: all of it is expressions over `bytes`, and none of it
keeps state.

Modules:

- `Bytes` (Bytes.dfy): the `byte` type (0..255), 16-bit big-endian packing
  with the source's shift-and-mask semantics for Python integers of any sign,
  the byte sum, and Python's clamping slice.
- `Results` (Results.dfy): the exceptions the code raises, as values.
  `MalformedFrame` is the `ValueError` of `parse_ack`. `IndexError` comes
  from indexing past the end of a payload. `ByteOutOfRange` is the
  `ValueError` that `bytes([...])` raises for a value outside 0..255.
- `Packet` (Packet.dfy): checksum, frame encoder, acknowledgement decoder.
- `Commands` (Commands.dfy): one function per `ps_*` command. The serial round
  trip is replaced by a parameter: each function takes the bytes the sensor
  answered. It returns an `Exchange`, which is the frame the command writes
  together with the decoded answer or the exception decoding raised.
- `Messages` (Messages.dfy): `CONFIRM_CODES.get(c, hex(c))`.

Facts about the program that the model keeps as they are:

- The menu flows send every step whatever the previous step's code was.
  There is no abort-on-first-failure sequencing, so the model claims none.
- There is no delete command.
- The confirmation table holds only the eleven Spanish texts of the code.
- The decoder can also fail with `IndexError`. This happens for an
  acknowledgement whose length field is below 3, and for a success reply to
  search or match that is too short for its fields.

## Model

| member | source | states |
|---|---|---|
| `Bytes.HiByte` | zw101.py:125 | `(v >> 8) & 0xFF` for any Python int is the high byte of `v` reduced modulo 65536 |
| `Bytes.LoByte` | zw101.py:125 | `v & 0xFF` for any Python int is the low byte of `v` reduced modulo 65536 |
| `Bytes.Pack16` | zw101.py:133-135 | the two bytes written for a 16-bit field read back, big-endian, as the value modulo 65536 |
| `Bytes.Unpack16` | zw101.py:141-142 | `hi * 256 + lo` is below 65536 and gives back `hi` as its quotient and `lo` as its remainder by 256 |
| `Bytes.Unpack16RoundTrip` | zw101.py:141-142 | packing a value read from two bytes gives back the same two bytes |
| `Bytes.Unpack16Injective` | zw101.py:141-142 | two byte pairs with the same big-endian value are equal |
| `Bytes.Mod65536Split` | zw101.py:125 | masking the shifted value equals splitting the value reduced modulo 65536 |
| `Bytes.Pack16Wraps` | zw101.py:148 | an out-of-range page id is written exactly as its residue modulo 65536 |
| `Bytes.Sum` | zw101.py:62 | `sum(payload)` is between 0 and 255 times the length |
| `Bytes.SumConcat` | zw101.py:62 | the sum of a concatenation is the sum of the parts |
| `Bytes.SumPermutation` | zw101.py:62 | the sum does not depend on the order of the bytes |
| `Bytes.Slice` | zw101.py:97 | Python's `s[start:stop]`: both bounds clamped to the length, empty when the range is empty, element `i` is `s[start + i]` |
| `Packet.LengthBytes` | zw101.py:59-61 | the length field reads back as payload length + 2 modulo 65536 |
| `Packet.Checksum` | zw101.py:58-63 | exactly two bytes, whose big-endian value is the sum of the kind, length and payload bytes as they stand on the wire, modulo 65536 |
| `Packet.FrameOf` | zw101.py:65-73 | frame layout: header, address, kind, length field = payload length + 2 (mod 65536), payload, checksum; total length payload + 11 |
| `Packet.BuildPacket` | zw101.py:65-73 | a command frame is 12 + params bytes long: EF 01, FF FF FF FF, 0x01, big-endian params + 3 (mod 65536), the command byte, the params, `calc_checksum(0x01, [cmd] + params)`; it is a well-formed command frame |
| `Packet.FrameChecksumValid` | zw101.py:71-73 | every encoded frame's last two bytes are the 16-bit sum of its kind, length and payload bytes, whatever the payload length |
| `Packet.BuildPacketUnique` | zw101.py:65-73 | any well-formed command frame (right header, address, kind, length field and checksum) is exactly what `build_packet` makes from its instruction byte and parameters |
| `Packet.WellFormedCommandUnique` | zw101.py:65-73 | two well-formed command frames with the same payload are the same frame |
| `Packet.ChecksumDetermined` | zw101.py:58-63 | frames whose checked bytes agree carry the same valid checksum bytes |
| `Packet.LengthField` | zw101.py:96 | the length field is a 16-bit value |
| `Packet.ParseAck` | zw101.py:89-99 | `MalformedFrame` exactly when the packet is shorter than 12 bytes or byte 6 is not 0x07; `IndexError` exactly when the length field is below 3; success exactly in every other case, with code byte 9 and payload bytes 9 .. 7 + length, clamped to the packet |
| `Packet.ParseAckWellFormed` | zw101.py:96-99 | when the announced payload fits in the packet, the decoder returns exactly that payload and its first byte |
| `Packet.ParseAckRejectsCommandFrames` | zw101.py:94 | every frame `build_packet` produces is refused by `parse_ack` |
| `Packet.AckRoundTrip` | zw101.py:94-99 | an acknowledgement framed with the same layout and checksum around a payload of 1..65533 bytes decodes to its first byte and the whole payload |
| `Packet.ParseAckReadsOnlyKindLengthPayload` | zw101.py:94-98 | two packets of equal length that agree on the kind, the length and the payload slice decode alike: header, address and checksum are never inspected |
| `Packet.ChecksumOrderIndependent` | zw101.py:62 | payloads that are permutations of each other get the same checksum |
| `Commands.ToByte` | zw101.py:111 | `bytes([v])` succeeds exactly for 0 <= v < 256, and raises otherwise |
| `Commands.DecodeCode` | zw101.py:107 | the reply of a code-only command is byte 9 of the answer exactly when `parse_ack` succeeds, and its exception otherwise |
| `Commands.DecodeSearch` | zw101.py:139-145 | on code 0 the match id and score are answer bytes 10-11 and 12-13 big-endian; on any other code both are `None`; a success payload under 5 bytes raises `IndexError` |
| `Commands.DecodeMatch` | zw101.py:160-165 | on code 0 the score is answer bytes 10-11 big-endian; on any other code it is `None`; a success payload under 3 bytes raises `IndexError` |
| `Commands.GetImage` | zw101.py:103-108 | writes the well-formed 12-byte command frame with instruction 0x01; the reply is the confirmation code |
| `Commands.GenChar` | zw101.py:110-115 | fails exactly for a buffer id outside 0..255; otherwise writes the well-formed 13-byte frame with instruction 0x02 and the buffer id as its one parameter; the reply is the confirmation code |
| `Commands.RegModel` | zw101.py:117-122 | writes the well-formed 12-byte command frame with instruction 0x05; the reply is the confirmation code |
| `Commands.PageParams` | zw101.py:125 | store and load parameters are the buffer id followed by the page id modulo 65536, big-endian |
| `Commands.Store` | zw101.py:124-130 | fails exactly for a buffer id outside 0..255; otherwise writes the well-formed 15-byte frame with instruction 0x06, the buffer id and the page id modulo 65536; the reply is the confirmation code |
| `Commands.LoadChar` | zw101.py:147-153 | fails exactly for a buffer id outside 0..255; otherwise writes the well-formed 15-byte frame with instruction 0x07, the buffer id and the page id modulo 65536; the reply is the confirmation code |
| `Commands.Search` | zw101.py:132-145 | fails exactly for a buffer id outside 0..255; otherwise writes the well-formed 17-byte frame with instruction 0x04, the buffer id, start page and page count (each modulo 65536); the reply is decoded as a search reply |
| `Commands.Match` | zw101.py:155-165 | fails exactly when either buffer id is outside 0..255; otherwise writes the well-formed 14-byte frame with instruction 0x03 and both buffer ids; the reply is decoded as a match reply |
| `Commands.PageIdWraps` | zw101.py:148 | store and load with page id `v` and `v mod 65536` write the same frame and decode the same reply |
| `Commands.SearchRangeWraps` | zw101.py:133-135 | search with start page and page count taken modulo 65536 is indistinguishable |
| `Commands.CodeRoundTrip` | zw101.py:107 | an answer framed around a payload decodes to the payload's first byte |
| `Commands.SearchReplyRoundTrip` | zw101.py:139-143 | a success answer carrying a match id and score in 16 bits each decodes back to that id and score |
| `Commands.SearchReplyNoMatch` | zw101.py:144-145 | an answer with a non-zero code decodes to that code with no id and no score, whatever follows |
| `Commands.SearchReplyTooShort` | zw101.py:141-142 | a success answer whose payload is shorter than 5 bytes raises `IndexError` |
| `Commands.MatchReplyRoundTrip` | zw101.py:160-163 | a success answer carrying a 16-bit score decodes back to that score |
| `Commands.MatchReplyNoMatch` | zw101.py:164-165 | an answer with a non-zero code decodes to that code with no score |
| `Messages.HexDigit` | zw101.py:210 | a digit value below 16 is written as a lower-case hex digit that reads back as that value |
| `Messages.HexDigits` | zw101.py:210 | the digits of `hex(n)`: at least one, all lower-case hex digits, no leading zero except for 0 itself |
| `Messages.Hex` | zw101.py:210 | `hex(n)` is `0x` followed by exactly the digits of `HexDigits(n)`: lower case, no leading zero |
| `Messages.HexDigitsRoundTrip` | zw101.py:210 | the digits `hex()` writes read back as the number written |
| `Messages.Message` | zw101.py:210 | a code in the table gets its table text; any other code gets `0x` followed by exactly the canonical hex digits of the code (no leading zero), which read back as the code |
| `Messages.TableTextIsNotHex` | zw101.py:43-56 | no table text starts with `0`, so none can be mistaken for a hex fallback |
| `Messages.TableInjective` | zw101.py:43-56 | the table gives distinct codes distinct texts |
| `Messages.MessageInjective` | zw101.py:210 | distinct codes get distinct messages, so a printed message identifies the code |
| `Messages.UnmappedExample` | zw101.py:210 | 0x7F renders as "0x7f", 0x10 as "0x10" and 0x04 as "0x4" |

## Left out

- `read_packet` (zw101.py:75-87) is left out. It polls the serial port
  against the wall clock for one second and returns whatever bytes arrived.
  The model takes those bytes as a parameter of each command.
- `ser.write`, the pyserial connection, and port listing and selection
  (`list_ports`, `choose_port`) are left out. They are physical I/O and a
  foreign library.
- `main` is left out: the argument parsing, the interactive menu loop, the
  prints, the 1.5-second pause and the interrupt and close handling. Its
  enroll, search and match flows call the modelled commands one after
  another and continue whatever code comes back. The model states no
  sequencing property, because the code has none.
- Buffer ids of Python type `bool` and other non-`int` arguments are not
  modelled. Every argument is an integer.
