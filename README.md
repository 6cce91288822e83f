# pynvs BINR core in Dafny

This project models the core of pynvs, a Python driver for NVS navigation
receivers that talk the binary BINR protocol. A BINR message on the wire is
`DLE ID [data] DLE ETX`, with DLE = 0x10 and ETX = 0x03. The model covers
four parts:

- **Framing** (`framing.dfy`). `process_msg` takes the first message off an
  accumulating receive buffer and hands back the rest of the buffer.
  - `Framing.ProcessMsg` is the method with the source's `while searching`
    loop.
  - It is proved equal to the specification function `Framing.Scan`.
  - Lemmas about `Scan` cover recovery of whole messages, resynchronisation
    after noise, incomplete messages and the edge cases of the restart
    rule.
- **Command encoders** (`commands.dfy`, with `command_frames.dfy`). Each
  encoder's error cases are stated as an if-and-only-if. Each packet is the
  DLE ID payload DLE ETX form of its payload, and `Scan` reads it back
  unless the payload holds a DLE (see `CommandFrames.PvtHighByteDleIsLost`
  and `CommandFrames.EphemerisRequestForSatellite16IsLost`).
  - Arithmetic the source writes with `&`, `/` and `256-(x*-1)` is stated
    as byte arithmetic.
  - The `&` is proved bit by bit (`Commands.BitAnd`, `Commands.RmsMasks`).
- **Receiver-channel status decoding** (`channels.dfy`).
  - The `for` loop is a method (`ReceiverChannels.ReadChannels`) proved
    against the specification function `Channels`.
  - A decode/encode round trip shows what the record count loses.
- **Ephemeris decoding** (`ephemeris.dfy`).
  - The GPS reply is a declarative layout table: 21 floating-point fields
    that tile bytes 2..126 of the reply, then URA and IODE as
    little-endian 16-bit integers.
  - The GLONASS reply is an on-board number and a signed carrier byte.
  - Each exception the decoder can raise is characterised exactly.
  - Both reply kinds round-trip.
- **NMEA sentence check** (`nmea.dfy`). `parse_nmea` checks a sentence's
  `$` start and CR LF end and returns the talker and formatter fields. The
  exceptions it raises are characterised exactly, including the one raised
  inside the GGA parser.

Python's behaviour is written out where it matters:

- `list.index` as an `Option` that is None where Python raises ValueError.
- Slice clamping.
- `line[-2:]`.
- `str.split`.
- The IndexError raised while reading past the end of a buffer.
- `struct.error` raised on short slices.
- Signed `'<b'` and unsigned `'<H'` unpacking.

Exceptions become constructors of a result datatype
(`Framing.ScanError`, `Commands.Encoding.Invalid`, `SvEphemeris.Ephemeris`,
`Nmea.NmeaResult`).

Two places where a quick reading of the code misleads, and what the model
does:

- **The GGA branch of `parse_nmea`.** The dictionary `parse_nmea` returns
  never uses the value the GGA branch computes (pynvs.py:19-23). The branch
  still matters: `parse_gga` indexes `line.split(',')[1]` (pynvs.py:29-30),
  which raises IndexError for a GGA sentence without a comma.
  `Nmea.ParseNmea` models that exception.
- **The channel record count.** The decoder reads records at a stride of 5
  bytes (binr.py:254-261), and the test at test_binr.py:159 carries the
  note "Check if packet contains multiple of 5 bytes". The record count,
  however, divides the length by 6 (binr.py:249). The model reproduces the
  code as written and lists the discrepancy under Findings.

## Model

| member | source | states |
|---|---|---|
| Framing.IndexOf | binr.py:39 | The first position at or after `from` holding the value, with no earlier one; None exactly when no such position exists (list.index raises ValueError) |
| Framing.CloseSearch | binr.py:40-47 | A search that closes stops at a DLE that is followed by ETX, at or after the round's search start; the IndexError arises only when the buffer's last byte is a DLE |
| Framing.Cut | binr.py:48-57 | The message cut between the opening DLE at `s` and the accepted DLE at `k` is found, with the type byte at `s + 1` and a rest of the `|buf| - k - 2` bytes after the DLE ETX pair |
| Framing.FrameBytes | binr.py:59-74 | The wire form of every encoder: DLE and the type byte, the payload, then DLE ETX, four bytes longer than the payload |
| Framing.Scan | binr.py:19-57 | A found message leaves a rest shorter than the buffer by more than two bytes |
| Framing.NoDleIsNoMessage | binr.py:39-57 | A buffer without any DLE gives "no message" |
| Framing.IndexErrorOnlyAtTrailingDle | binr.py:43-50 | The scanner raises the uncaught IndexError only for a buffer whose last byte is a DLE |
| Framing.ScanSplits | binr.py:48-57 | A found message is cut exactly at the first DLE and at the accepted DLE ETX pair: type byte, then data, then the rest after ETX, with nothing but non-DLE noise before it |
| Framing.ProcessMsg | binr.py:19-57 | The method with the search loop returns exactly `Scan(buffer)`, including which exception escapes |
| Framing.SearchStop | binr.py:40-47 | The `while searching` loop ends with the outcome of the recursive closing search from the opening DLE |
| Framing.MessageCut | binr.py:48-54 | `buffer[start:stop+2]` with its type byte at index 1 and `msg[2:-2]` is the message cut out between the opening DLE at `start` and the accepted DLE at `stop` |
| Framing.CloseSearchStep | binr.py:43-47 | One loop round: no candidate gives ValueError, a candidate at the end gives IndexError, a candidate followed by ETX closes, and any other candidate restarts with offset k+1 |
| Framing.ScanAfterOpening | binr.py:48-57 | Once the opening DLE and the search outcome are known, the scanner's result follows from them |
| Framing.FirstDleAt | binr.py:39 | A DLE with no DLE before it is what `buffer.index(0x10)` finds |
| Framing.CloseFromFront | binr.py:42-47 | For a message at the front of the buffer whose every body DLE is followed by a non-ETX byte, the search always ends at the closing DLE |
| Framing.FramedRoundTrip | binr.py:19-57 | A message at the front of the buffer comes back whole, with the rest of the buffer, when every DLE in its body is followed by a non-ETX byte |
| Framing.ResyncRoundTrip | binr.py:38-57 | Noise without a DLE before a message is dropped; a message with no DLE in its type or payload comes back whole, with exactly what follows it |
| Framing.IncompleteIsNoMessage | binr.py:42-50 | A message whose closing pair has not arrived, behind noise without a DLE and with no DLE in its type byte or payload, gives the "no message" ValueError (a payload ending in DLE gives IndexError instead, see `TrailingDleIsIndexError`) |
| Framing.TrailingDleIsIndexError | binr.py:43-44 | Behind noise without a DLE, a message with no DLE in its type byte or payload whose closing DLE arrived without its ETX raises IndexError, not ValueError |
| Framing.TypeByteCloses | binr.py:43-54 | DLE DLE ETX is a message of type DLE with no data |
| Framing.PayloadEndingInDleIsLost | binr.py:43-47 | A payload ending in a lone DLE is never recovered, because the byte after a rejected candidate is never itself a candidate |
| Framing.ScanOneByteMessage | test_binr.py:7-15 | The one-byte message of type 0x21 decodes to data [0x01] |
| Framing.ScanTenByteMessage | test_binr.py:18-28 | The message of type 0x60 comes back with its ten data bytes, the fifth being 0x12, and nothing left over |
| Framing.ScanWithoutOpening | test_binr.py:31-35 | A buffer without an opening DLE before its only DLE ETX pair gives "no message" |
| Framing.ScanBehindNoise | test_binr.py:39-49 | A message behind two noise bytes is found, and the two bytes after it are the rest |
| Framing.ScanWithoutTerminator | test_binr.py:52-54 | A closing DLE followed by 0x00 instead of ETX gives "no message" |
| FramingCorrected.CloseSearchFrom | binr.py:42-47 | Corrected restart: the result is the first DLE ETX pair at or after `from`, and "no message" exactly when there is none |
| FramingCorrected.ScanCorrected | binr.py:19-57 | The corrected scanner fails only with "no message", and a found message leaves a shorter rest |
| FramingCorrected.CorrectedRoundTrip | binr.py:19-57 | Behind any non-DLE noise, a message whose body holds no DLE ETX pair comes back whole with what follows it |
| FramingCorrected.CorrectedIncomplete | binr.py:42-50 | A message still arriving, including one whose closing DLE is the last byte, gives "no message" |
| FramingCorrected.RestartOvershoot | binr.py:43-47 | One leading noise byte makes the scanner as written lose a message it finds without the noise; the corrected scanner finds it in both buffers |
| FramingCorrected.TrailingDleEscapes | binr.py:44-50 | DLE, type, DLE raises IndexError as written and gives "no message" when corrected |
| FramingCorrected.CorrectionAtFront | binr.py:43-47 | With the frame at index 0, a payload ending in DLE is lost as written and found when corrected; a payload holding DLE DLE ETX is skipped over as written and cut short when corrected |
| Commands.BitAnd | binr.py:141 | Python's `&` on non-negative integers is at most either operand |
| Commands.LowMask | binr.py:141 | Masking with 2^k - 1 is the remainder modulo 2^k |
| Commands.EvenMask | binr.py:141 | Masking with an even mask is masking the halved value, doubled |
| Commands.RmsMasks | binr.py:141 | `rms & 0x00FF` is the low byte, and `(rms & 0xFF00)` is 256 times the second byte |
| Commands.Reboot | binr.py:59-75 | The reboot frame of type 0x01 whose last payload byte is 0 when erasing and 1 otherwise; ten bytes, all in 0..255; `erase` defaults to false, as in the source |
| Commands.SetCoordinateSystem | binr.py:77-96 | A packet exactly for systems 0..4, otherwise the ValueError carrying the argument; the packet is the framed payload [0x01, system] |
| Commands.SetNavigationSystem | binr.py:98-119 | A packet exactly for 0, 1, 2, 3, 10, 11 and 12, otherwise the ValueError; the packet is the framed payload [0x02, system] |
| Commands.SetPvtSetting | binr.py:121-143 | A packet exactly when the mask is 0..90, the SNR 0..39 and the RMS non-negative; the errors are checked in the source's order; the packet carries mask, SNR and the two low bytes of the RMS, low byte first |
| Commands.PvtRmsWraps | binr.py:141 | The two RMS bytes read back as a 16-bit value give the RMS modulo 65536 |
| Commands.SetFiltrationFactor | binr.py:145-157 | A packet exactly for factors 0..10, otherwise the ValueError; the last payload element is 32 times the factor |
| Commands.FiltrationFitsBytes | binr.py:155 | The packet is all bytes exactly when the factor is at most 7 |
| Commands.CancelRequests | binr.py:159-163 | The frame of type 0x0E with no payload |
| Commands.SetRefCoordinates | binr.py:165-186 | The 29-byte frame of type 0x0F: sub-command 3, then the three packed doubles at bytes 3, 11 and 19 |
| Commands.EnableSat | binr.py:188-215 | A packet exactly for GPS 1..32 and GLONASS 1..24; the system is checked before the number; the state byte is 1 to enable and 2 to disable, and `state` defaults to enabling |
| Commands.RequestStatusOfReceiverChannels | binr.py:217-223 | The frame of type 0x17 with no payload |
| Commands.EphemerisTarget | binr.py:321-328 | An accepted target is a GPS or GLONASS satellite numbered 0..32, and satellite 0 is accepted exactly for GLONASS |
| Commands.CarrierSuffix | binr.py:333-334 | No element without a carrier; with one, a single element exceeding the carrier by 256 |
| Commands.RequestSvEphemeris | binr.py:311-337 | A packet exactly for GPS 1..32 and GLONASS 0..24, with the errors in the source's order; the packet is the framed system, number and optional carrier element, six or seven long; `carrier` defaults to None |
| Commands.ToSigned8 | binr.py:388 | `'<b'`: the value in -128..127 that is congruent to the byte modulo 256 |
| Commands.CarrierElement | binr.py:333-334 | The carrier element as written: for a negative carrier down to -128 it is a byte that reads back as the carrier; for a non-negative carrier it is at least 256; carrier 3 gives 259, and the GLONASS request for satellite 1 ends in 259 before DLE ETX |
| Commands.CarrierByte | binr.py:333-334 | Corrected carrier byte: it is `256 + c` for negative carriers, as written, and reads back as the carrier for every carrier in -128..127 |
| Commands.RequestSvEphemerisCorrected | binr.py:311-337 | The same acceptance and errors as the source; every element is a byte, and the carrier byte reads back as the carrier |
| CommandFrames.RebootScans | binr.py:72-74 | The scanner reads the reboot packet back as its type and payload |
| CommandFrames.CoordinateSystemScans | binr.py:93-95 | The scanner reads every valid coordinate-system packet back |
| CommandFrames.NavigationSystemScans | binr.py:116-118 | The scanner reads every valid navigation-system packet back |
| CommandFrames.PvtSettingScans | binr.py:140-142 | The scanner reads a PVT packet back when no argument byte is DLE |
| CommandFrames.PvtPacket | binr.py:140-142 | A valid PVT call gives the nine-element packet, element by element |
| CommandFrames.PvtHighByteDleIsLost | binr.py:141 | A PVT packet whose RMS high byte is 0x10, while the mask, the SNR and the RMS low byte are not 0x10, cannot be read back by the scanner |
| CommandFrames.FiltrationFactorScans | binr.py:154-156 | The scanner reads every valid filtration-factor packet back |
| CommandFrames.CancelRequestsScans | binr.py:163 | The scanner reads the cancel packet back |
| CommandFrames.ChannelStatusRequestScans | binr.py:223 | The scanner reads the channel-status request back |
| CommandFrames.EnableSatScans | binr.py:212-214 | The scanner reads every valid enable/disable packet back |
| CommandFrames.RefCoordinatesScan | binr.py:181-185 | The scanner reads a reference-coordinates packet back when every DLE in it is followed by a non-ETX byte |
| CommandFrames.EphemerisRequestScans | binr.py:332-335 | The scanner reads an ephemeris request back when neither the number nor the carrier element is DLE |
| CommandFrames.EphemerisRequestForSatellite16IsLost | binr.py:332-335 | The request for GPS satellite 16 ends in DLE DLE ETX, which the scanner cannot read back |
| CommandFrames.RebootVectors | test_binr.py:56-64 | Both reboot packets, byte for byte, the first from the default argument |
| CommandFrames.CoordinateSystemVectors | test_binr.py:66-77 | The WGS-84 and PZ-90 packets, and the rejection of 5 and -1 |
| CommandFrames.NavigationSystemVectors | test_binr.py:79-85 | The packet for 0 and the rejection of -1 |
| CommandFrames.RmsBytesOf20001 | test_binr.py:89-90 | 20001 has low byte 0x21 and high byte 0x4E |
| CommandFrames.PvtSettingVector | test_binr.py:87-90 | `set_pvt_setting(5, 30, 20001)` byte for byte |
| CommandFrames.PvtSettingRejections | test_binr.py:91-101 | The five rejected PVT calls, each with the argument it names |
| CommandFrames.FiltrationFactorVectors | test_binr.py:103-111 | The packet for factor 2, and the rejection of -1 and 11 |
| CommandFrames.RequestVectors | test_binr.py:113-143 | The cancel packet and the channel-status request, byte for byte |
| CommandFrames.RefCoordinatesVector | test_binr.py:118-125 | The reference-coordinates packet from the three packed doubles, byte for byte |
| CommandFrames.EnableSatVectors | test_binr.py:127-137 | The disable packet for GPS 10, the rejected system 3, the rejected numbers GPS 33 and GLONASS 25, and the enable packet the default state gives |
| CommandFrames.EphemerisRequestVectors | test_binr.py:162-175 | The GPS 2 request, the GLONASS 0 request with carrier -2 (0xFE), and the three rejected requests |
| ReceiverChannels.SlotNumber | binr.py:254-258 | The number is kept or lowered by 256; it is negative exactly for a GLONASS number above 128; GLONASS numbers land in -127..128 |
| ReceiverChannels.ChannelAt | binr.py:254-266 | Record i takes system, SNR, status and pseudorange sign from bytes 5i, 5i+2, 5i+3 and 5i+4; its number is byte 5i+1 modulo 256, negative exactly for a GLONASS byte above 128 |
| ReceiverChannels.Channels | binr.py:253-267 | `count` records, record i read from bytes 5i..5i+4 |
| ReceiverChannels.ReadChannels | binr.py:252-267 | The `for` loop that appends records produces `Channels(data, numChannels)` |
| ReceiverChannels.ProcessStatusOfReceiverChannels | binr.py:225-267 | The decoder as written gives `len(data)/6` records at stride 5 |
| ReceiverChannels.ProcessStatusOfReceiverChannelsCorrected | binr.py:249 | The corrected count, `len(data)/5`, decodes every whole record |
| ReceiverChannels.NumberByte | binr.py:256-258 | The encoding byte of a record's number decodes back to that number |
| ReceiverChannels.ChannelBytes | binr.py:254-261 | A list of records is encoded as five bytes per record |
| ReceiverChannels.ChannelAtBytes | binr.py:254-261 | Record i of the encoding decodes to the i-th record |
| ReceiverChannels.ChannelsRoundTrip | binr.py:253-267 | Decoding the first k records of an encoding gives back those k records |
| ReceiverChannels.StatusLosesRecords | binr.py:249 | The decoder as written gives back only the first 5n/6 of n encoded records, which is fewer than n whenever n > 0 |
| ReceiverChannels.CorrectedStatusRoundTrip | binr.py:249-261 | The corrected count gives back every encoded record |
| ReceiverChannels.TwoRecordsDecodeToOne | binr.py:249 | A ten-byte, two-record reply decodes to one record as written and two when corrected |
| ReceiverChannels.Glonass128IsKept | binr.py:256-258 | GLONASS 128 stays 128, GLONASS 129 becomes -127, and GPS 249 stays 249 |
| ReceiverChannels.ChannelReplyExampleDecodes | test_binr.py:146-157 | The 162-byte reply decodes to 27 records, the first being GLONASS slot -7 with SNR 0, status 0, sign 1, and the sixth being GLONASS |
| ReceiverChannels.ReplyOf162Bytes | binr.py:249-261 | Any 162-byte reply gives 27 records, each read at stride 5 |
| SvEphemeris.LayoutTiles | binr.py:356-376 | The 21 floating-point fields start at byte 2 and each starts where the previous one ends |
| SvEphemeris.U16 | binr.py:377-378 | `'<H'` is a value below 65536 |
| SvEphemeris.FloatFields | binr.py:356-376 | Field k is the slice of the reply between its start and end offsets, four bytes for a single and eight for a double |
| SvEphemeris.FieldsFit | binr.py:356-376 | Every float field lies inside bytes 2..125 of the reply, before the URA |
| SvEphemeris.ProcessSvEphemeris | binr.py:339-389 | IndexError exactly for an empty reply or a one-byte GPS reply; struct.error exactly for a GPS reply of 2..129 bytes or a GLONASS reply under 3 bytes; no record exactly for other systems; otherwise every field read from its offset, URA and IODE little-endian, the GLONASS carrier signed |
| SvEphemeris.GlonassCarrierRange | binr.py:388 | The GLONASS carrier number is in -128..127 |
| SvEphemeris.TrailingBytesIgnored | binr.py:353-389 | Bytes after a complete reply do not change the decoded record |
| SvEphemeris.FloatFieldsOfPrefix | binr.py:356-376 | The float fields depend only on the first 126 bytes |
| SvEphemeris.FieldEndBound | binr.py:356-376 | Every field is non-empty and ends by byte 126, where URA starts |
| SvEphemeris.FloatsTile | binr.py:356-376 | The float fields, joined, are exactly bytes 2..126 of the reply |
| SvEphemeris.TilePrefix | binr.py:356-376 | The first n fields, joined, are exactly the bytes from 2 to the start of field n |
| SvEphemeris.U16Bytes | binr.py:377-378 | Two bytes that `'<H'` reads back as the value |
| SvEphemeris.GpsReply | binr.py:353-378 | A GPS record's reply is 130 bytes long |
| SvEphemeris.WidthsSumTo | binr.py:356-376 | Fields of the layout's widths fill 124 bytes |
| SvEphemeris.GpsRoundTrip | binr.py:353-385 | Decoding the reply built from a GPS record gives back that record |
| SvEphemeris.GlonassReply | binr.py:386-389 | A GLONASS reply is three bytes beginning with the system byte |
| SvEphemeris.GlonassRoundTrip | binr.py:386-389 | Decoding a GLONASS reply gives back its on-board number and signed carrier |
| Nmea.Slice | pynvs.py:16-17 | Python slicing with clamped bounds: its length; the plain slice when the bounds fit; the tail from `i` when only `j` is past the end; empty when `j <= i` or `i` is past the end |
| Nmea.Last | pynvs.py:13 | For a positive n, `s[-n:]` is the last n characters, or all of s when it is shorter |
| Nmea.Split | pynvs.py:29 | `split` gives at least one piece, and exactly one, the whole string, when the separator does not occur; the first piece is the prefix before the first separator |
| Nmea.GgaTimeOfFix | pynvs.py:25-30 | The time-of-fix field is missing (IndexError) exactly when the line has no comma |
| Nmea.ParseNmea | pynvs.py:3-23 | ValueError exactly for a non-empty line without a leading `$` or a trailing CR LF; IndexError exactly for an empty line or a GGA sentence with no comma; otherwise the clamped talker and formatter slices |
| Nmea.FormatSentence | pynvs.py:11-14 | A formatted sentence starts with `$` and ends with CR LF |
| Nmea.ParseFormatted | pynvs.py:3-23 | Every well-bounded sentence gives back its talker and formatter, except a GGA sentence with no comma |
| Nmea.ShortSentences | pynvs.py:16-17 | `$\r\n` passes with the terminator as its talker; `$` is a ValueError and the empty line an IndexError |
| Nmea.StartupSentence | pynvs.py:34 | The start-up GGA sentence gives talker GP and formatter GGA |
| Nmea.GgaWithoutCommaFails | pynvs.py:19-30 | A GGA sentence with no comma raises IndexError |
| Nmea.GgaWithoutCommaExample | pynvs.py:19-30 | `$GPGGA\r\n` raises IndexError |

## Left out

- Floating-point values: `struct.pack('<d', …)` and `struct.unpack('<f'/'<d', …)` are kept as their raw little-endian bytes (`Commands.Packed`, `SvEphemeris.GpsEphemeris.floats`), since Dafny has no IEEE 754 encoding.
- SvEphemeris.ProcessSvEphemeris: a short GPS reply gives one `StructError`, without saying which field's unpack raised it.
- The serial port, reading, recording and plotting scripts, and the module-level serial code of pynvs.py (lines 32-44): these are I/O.
- `print_status_of_receiver_channels` (binr.py:269-309): console output only.
- `parse_gga` beyond its one failure: its result is discarded, so only the IndexError it can raise is modelled.
- DLE stuffing: the channel-status reply at test_binr.py:148 holds two doubled 0x10 bytes, which the source never undoes. No model of the receiver's stuffing rule is part of this project, and the decoders take the data bytes as given.
- Decoders for raw data, position, version and ionosphere messages: they are not defined in binr.py, and ephemeris.py is not part of this model.
- Commands.SetFiltrationFactor: factors 8..10 give a last element of 256..320, which cannot be written as one byte. The model keeps the element as written and states the limit in `Commands.FiltrationFitsBytes`, without correcting it.
- Commands.SetPvtSetting: in Python 3, `(rms & 0xFF00)/256` is a float. The model states it as the integer byte it equals.

## Findings

| source | as written | input that shows it | evidently intended | confidence | as-written member | corrected member |
|---|---|---|---|---|---|---|
| binr.py:43-47 | After a rejected candidate DLE at k, `stop_id_offset = stop_id+1` is an absolute index, but it is added to `start_id+1`, so the next search starts at `start_id+k+2`. Where the search resumes thus depends on where the frame begins. With the frame at index 0 it skips byte k+1; with noise in front it also skips `start_id` further bytes | `[0x00, 0x10, 0x21, 0x10, 0x05, 0x10, 0x03]` gives "no message", while the same frame without the leading 0x00 is found | A restart that does not depend on where the frame begins. The corrected member resumes at k+1, just after the rejected candidate, as plain DLE ETX framing reads. That also changes frames at index 0: a payload ending in DLE is recovered, and a doubled DLE followed by ETX inside a payload closes the message (`FramingCorrected.CorrectionAtFront`). Resuming at k+2 whatever `start_id` is, keeping the skip, is the other reading; it fits DLE stuffing and the doubled 0x10 bytes at test_binr.py:148 | medium, not executed | FramingCorrected.RestartOvershoot | FramingCorrected.CorrectedRoundTrip |
| binr.py:44 | `buffer[stop_id + 1]` raises IndexError when a candidate DLE is the buffer's last byte, and only ValueError is turned into "no message" (binr.py:49); every caller loop catches only ValueError | `[0x10, 0x21, 0x10]` (a message whose ETX has not arrived yet) | "No message yet", so the caller keeps accumulating bytes | medium, not executed | FramingCorrected.TrailingDleEscapes | FramingCorrected.CorrectedIncomplete |
| binr.py:249 | The record count is `len(data)/6`, while records are read at stride 5 (binr.py:254-261) | `[0x01, 0x0A, 0x03, 0x00, 0x01, 0x01, 0x0C, 0x00, 0x00, 0x01]` (two records) decodes to one record | `len(data)/5` records. The test at test_binr.py:151 asserts 27 records for its 162-byte reply, which is 162/6; the corrected decoder gives 32 records there, so that test as written would need updating too | high, not executed | ReceiverChannels.StatusLosesRecords | ReceiverChannels.CorrectedStatusRoundTrip |
| binr.py:334 | `256-(carrier*-1)` is `256+carrier`, a correct two's-complement byte only for negative carriers; for a carrier of 0 or more the element is 256 or more and cannot be sent as one byte | `request_sv_ephemeris(GLONASS, 1, 3)` appends 259 | The carrier's signed byte, `carrier % 256`, which the GLONASS decoder's `'<b'` reads back | medium, not executed | Commands.CarrierElement | Commands.RequestSvEphemerisCorrected |
