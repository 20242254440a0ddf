# Layrz protocol codec, modelled in Dafny

Layrz devices and the Layrz server exchange short text frames such as
`<Pa>ident;password;2664</Pa>`. Each frame is:

- a two-letter tag (`P?` for packets a device sends, `A?` for packets the
  server sends);
- `;`-separated fields;
- a 16-bit checksum written as four uppercase hex digits.

This project models the wire codec of the Go client library and of the C++
client library:

- the checksum fold;
- the string helpers both sides use (Go's `strings.Split` and the C++
  `getline` splitting);
- the argument-list codec of the settings, command and data packets;
- every packet decoder and encoder;
- the dispatch of server frames and of outgoing packets;
- the pure parts of the Go TCP transport: the "not initialized" guards, what
  `Send` writes, the authentication poll of `Connect`, and the reader's
  framing and dispatch, as a step function.

The checksum table is a parameter (`Checksum.Table`). Every statement holds
for whatever 256-entry table both ends share. Several other inputs are also
parameters:

- float formatting and parsing (`Floats.FloatText`, `Floats.CFloatText`);
- base64 (`PmPacket.Base64`);
- Go's map iteration order (an `order` sequence that lists the keys);
- the TCP reader's decoder.

Modules follow the source files:

| module | file(s) |
|---|---|
| `Checksum` | `cpp/src/helpers/crc.cpp` |
| `Strings` | `cpp/src/helpers/strings.cpp`; Go `strings` calls |
| `Numbers` | `strconv` and `std::stoi`/`std::stoll`/`std::hex` as the codecs use them |
| `Results` | error values, including the C++ exceptions |
| `Envelope` | the tag, checksum and split skeleton the Go decoders share |
| `Args` | `golang/v3/args.go` |
| one module per packet | `AbPacket`, `AcPacket`, … `PsPacket` |
| `Parser` | `golang/v2/parser.go` |
| `Tcp` | `golang/v3/tcp.go` |
| `BleData`, `BleManufacturerData`, `BleServiceData`, `BleAdvertisement` | `cpp/src/ble/` |
| `PbClientPacket`, `PcClientPacket` | `cpp/src/packets/` |

The code is followed wherever it differs from the protocol's prose
description:

- **gpio keys.** A key `io12.di` becomes `gpio.io12.digital.input`, not
  `gpio.12.digital.input`. `extractGpio` looks for `io.`, which never occurs
  in a matching key.
- **TCP poll.** The poll of `Connect` checks the flag 62 times (counts 0 to
  61) before it gives up.
- **TCP reader.** The reader abandons the rest of a read at the first frame
  that fails to decode.
- **Odd hex tails in C++.** An odd-length hex payload is `std::out_of_range`:
  `substr(2)` on a one-character tail throws.
- **C++ `PbClientPacket::from_packet`.** It calls itself on each run of
  eleven tokens without tags, so only the empty batch ever decodes.
- **Checksum ranges in C++.** The C++ advertisement and Pc encoders checksum
  their text including its final `;`, while the decoders checksum it without
  that `;`.

## Model

| member | source | states |
|---|---|---|
| Checksum.Index | cpp/src/helpers/crc.cpp:16 | The table slot the fold reads is always below 256, so every lookup is in bounds. |
| Checksum.Crc | cpp/src/helpers/crc.cpp:10-20 | The checksum is always below 2^16. |
| Checksum.TextCrc | golang/v2/pa.go:44-45 | The checksum of a text's bytes is below 2^16. |
| Checksum.RunAppend | cpp/src/helpers/crc.cpp:14-18 | Streaming: the register after `a + b` is the register after `a`, continued over `b`. |
| Checksum.RegisterAppend | cpp/src/helpers/crc.cpp:13-18 | The same from the initial register 0xFFFF. |
| Checksum.CrcEmpty | cpp/src/helpers/crc.cpp:13-19 | The empty byte sequence checksums to 0, whatever the table. |
| Checksum.CrcInjective | cpp/src/helpers/crc.cpp:19 | The final XOR loses nothing: two inputs share a checksum exactly when they leave the same register. |
| Checksum.TextCrcSemicolon | cpp/src/packets/pc_client_packet.cpp:40-44 | Appending `;` keeps the checksum exactly when one fold step on byte 0x3B leaves the register unchanged. This is the condition under which the C++ encoder and decoder agree. |
| Checksum.CalculateCrc | cpp/src/helpers/crc.cpp:10-20 | The byte loop computes the left-to-right fold from 0xFFFF, XORed with 0xFFFF. |
| Strings.StartsWithIff | cpp/src/helpers/strings.cpp:15-20 | `starts_with(v, p)` holds iff `v` is `p` followed by something. |
| Strings.EndsWithIff | cpp/src/helpers/strings.cpp:25-32 | `ends_with(v, s)` holds iff `v` is something followed by `s`. |
| Strings.TrimSuffix | golang/v2/pi.go:78 | The suffix is dropped once when present; otherwise the text is unchanged. |
| Strings.IndexFrom | golang/v3/args.go:100 | The result is the leftmost occurrence at or after `from`, or none when there is no occurrence. |
| Strings.ReplaceFirst | golang/v3/args.go:100 | A text without the target is unchanged. Otherwise the first occurrence of the target is replaced by `repl`, and the text around it is kept. |
| Strings.RemoveAll | golang/v2/ab.go:83 | The character is gone, and text without it is unchanged. |
| Strings.RemoveAllCount | golang/v2/ab.go:83 | Every other character is kept, exactly as often as it occurs. |
| Strings.RemoveAllAppend | golang/v2/ab.go:83 | Removal distributes over concatenation, so the kept characters stay in order. |
| Strings.RemoveAllKeeps | golang/v2/ab.go:83 | Removal adds no other character. |
| Strings.TrimSpace | golang/v2/pd.go:188 | The result neither starts nor ends with white space, and already-trimmed text is unchanged. |
| Strings.TrimSpaceParts | golang/v2/pd.go:188 | The text is a run of white space, the result, then another run of white space. With TrimSpace's ends, trimming drops exactly the leading and trailing white space. |
| Strings.Split | golang/v2/pa.go:32 | Go's split is never empty, and no piece holds the delimiter. |
| Strings.SplitJoin | golang/v2/pa.go:32 | Splitting undoes joining pieces that are free of the delimiter. |
| Strings.JoinSplit | golang/v2/ab.go:87 | Joining undoes splitting. |
| Strings.SplitAppend | golang/v2/pa.go:32 | Splitting distributes over one delimiter. |
| Strings.JoinAppend | cpp/src/helpers/strings.cpp:54-68 | Two non-empty runs of pieces join with exactly one delimiter between them. |
| Strings.JoinFree | cpp/src/helpers/strings.cpp:54-68 | A join holds no character, other than the delimiter, that its pieces lack. |
| Strings.GetlineSplit | cpp/src/helpers/strings.cpp:37-48 | No token of the C++ split holds the delimiter. |
| Strings.GetlineSplitIsSplit | cpp/src/helpers/strings.cpp:37-48 | The C++ split is Go's split after one final delimiter is dropped, with "" giving no token. |
| Strings.GetlineSplitEdgeCases | cpp/src/helpers/strings.cpp:40-47 | `split("")` is `[]` and `split(";")` is `[""]`. |
| Strings.GetlineSplitDropsLast | cpp/src/helpers/strings.cpp:43-46 | A middle empty token is kept; the empty token after a final delimiter is not. |
| Strings.JoinGetlineSplit | cpp/src/helpers/strings.cpp:37-68 | `join(split(s, d), d)` is `s`, less its final `d` when it has one. |
| Strings.GetlineSplitJoin | cpp/src/helpers/strings.cpp:37-68 | When the last piece is non-empty and no piece holds `d`, the C++ split undoes `join`. |
| Strings.BeforeLastPiece | cpp/src/packets/pc_client_packet.cpp:40-41 | `substr(0, size - last.size() - 1)` is the text before the last token's delimiter. |
| Strings.TrailerPieces | cpp/src/packets/pc_client_packet.cpp:19-41 | Pieces followed by `;` and a trailer split back into the pieces and the trailer. The text before the trailer's `;` is their join, without the final `;` the encoder wrote. |
| Strings.LastPiece | cpp/src/ble/ble_advertisement.cpp:78 | Text the C++ split cuts into two or more tokens is their join, the last token, then possibly a final delimiter. |
| Strings.JoinEachIsJoin | cpp/src/helpers/strings.cpp:69-83 | The vector `join` is the iterator `join` over each element's `to_packet()`. |
| Strings.JoinEachFree | cpp/src/helpers/strings.cpp:69-83 | A character in neither the delimiter nor any rendered element is absent from the vector `join`. |
| Strings.EncodeChar | golang/v2/pa.go:45 | A character takes one to four UTF-8 bytes, exactly one when it is ASCII, with its code as that byte. A longer form starts with a lead byte of at least 0xC0, and the rest are continuation bytes. |
| Strings.Utf8Append | golang/v2/pa.go:45 | The bytes of a concatenation are the concatenated bytes. |
| Strings.Utf8Ascii | golang/v2/pi.go:64 | ASCII text has one byte per character, equal to its code. |
| Strings.Utf8IsShaped | golang/v2/ab.go:56-63 | The UTF-8 form of any text has the lead/continuation shape. |
| Strings.NoText | golang/v2/ab.go:56-63 | Bytes without that shape are the UTF-8 form of no text. |
| Strings.ByteView | golang/v2/ab.go:58 | One character per UTF-8 byte of the text, each with the byte's value: what `len(s)` and `s[j:j+2]` index. |
| Strings.ByteViewAscii | golang/v2/pb.go:125 | The byte view of ASCII text is the text. |
| Strings.PairBytes | golang/v2/ab.go:58-63 | The pairing loop on bytes keeps the first byte and adds one `:` per pair boundary. |
| Strings.Width | golang/v2/ab.go:58 | A character's byte count, by code-point range, is the length of its UTF-8 form. |
| Strings.PairText | golang/v2/ab.go:58-63 | The pairing on characters starts with the text's first character and holds only `:` and characters of the text. |
| Strings.PairTextBytes | golang/v2/ab.go:58-63 | On an even number of bytes, the character pairing's UTF-8 form is the byte loop's output. It fails only when that output is not UTF-8-shaped. |
| Strings.PairTextText | cpp/src/ble/ble_advertisement.cpp:88-94 | The character pairing succeeds iff the byte loop's output is UTF-8-shaped, and then has that output as its UTF-8 form. When it fails, no text has that output as its form. |
| Strings.MisalignedPair | golang/v2/ab.go:58-63 | When byte 2 of an even-length text falls inside a character, the byte loop's output is not UTF-8. |
| Numbers.Digits | golang/v2/ao.go:60 | The shortest uppercase digit string of `n`: its value is `n`, with no leading zero. |
| Numbers.DigitsOfValue | golang/v2/ao.go:60 | An uppercase digit string without a leading zero is the rendering of its own value. |
| Numbers.ZeroPad | cpp/src/ble/ble_manufacturer_data.cpp:55-56 | `setfill('0') << setw(w)` pads to at least `w` characters and ends with the digits. |
| Numbers.ZeroPadValue | cpp/src/ble/ble_manufacturer_data.cpp:55-56 | Padding keeps the value. |
| Numbers.Hex | cpp/src/ble/ble_manufacturer_data.cpp:55-59 | Padded uppercase hex of at least `w` digits whose value is `n`. |
| Numbers.Hex4 | golang/v2/pa.go:62 | `%04X` of a 16-bit value is four uppercase digits with that value. |
| Numbers.Hex4OfValue | golang/v2/pa.go:38 | Four uppercase hex digits are the `%04X` of their own value. |
| Numbers.ParseUint | golang/v2/pa.go:38 | `ParseUint(s, base, bits)` succeeds iff `s` is a non-empty digit run below 2^bits, and gives its value. |
| Numbers.ParseInt | golang/v2/ao.go:46 | `ParseInt` results lie in the signed range, start with a sign or digit, and carry the sign's polarity. |
| Numbers.Atoi | golang/v2/pi.go:88 | `Atoi` results fit a 64-bit `int`. |
| Numbers.FormatInt | golang/v2/ao.go:60 | `FormatInt`/`%d` writes the digits of `n`, after `-` for a negative `n`. |
| Numbers.GoHex | golang/v2/pb.go:218 | `%04X` of a signed `int`: padded hex for `n >= 0`, otherwise `-` and the digits of `-n`. |
| Numbers.HexBytes | golang/v2/pb.go:218 | `%X` of a byte slice is two uppercase digits per byte. |
| Numbers.FormatIntCanonical | golang/v2/pc.go:58 | Canonical decimal text is exactly what `%d` writes for the value it parses to. |
| Numbers.FormatIntIsCanonical | golang/v2/pc.go:77 | `%d` always writes canonical decimal text. |
| Numbers.AtoiCanonical | golang/v2/pi.go:88 | Canonical text that `Atoi` accepts is what `%d` writes for its value. |
| Numbers.FormatIntNoSeparator | golang/v2/pc.go:77 | Integer text holds none of `;`, `,` and `:`. |
| Numbers.ParseIntValue | golang/v2/ao.go:46 | An accepted text is its digits' value, negated after `-`. |
| Numbers.ParseIntFormatInt | golang/v2/ao.go:46-60 | Decimal text reads back as the integer it was written from. |
| Numbers.AtoiFormatInt | golang/v2/pi.go:88 | `Atoi` reads back what `%d` writes. |
| Numbers.ParseIntGoHex | golang/v2/pb.go:119 | `ParseInt(_, 16, bits)` reads back `%0wX` of an in-range value. |
| Numbers.ParseIntTooLarge | golang/v2/pb.go:119 | An out-of-range unsigned digit run is rejected. |
| Numbers.ParseUintHex4 | golang/v2/pa.go:38 | `ParseUint(_, 16, 16)` reads back `%04X`. |
| Numbers.StrToInt | cpp/src/ble/ble_manufacturer_data.cpp:32 | A `strtol`-style conversion gives an in-range value, or `invalid_argument`/`out_of_range`. |
| Numbers.Stoi | cpp/src/ble/ble_advertisement.cpp:150 | `std::stoi` results fit a 32-bit `int`. |
| Numbers.Stoll | cpp/src/packets/pc_client_packet.cpp:52 | `std::stoll` results fit 64 bits. |
| Numbers.StrToIntDigits | cpp/src/ble/ble_manufacturer_data.cpp:43 | An in-range digit string is read completely, as its value. |
| Numbers.StoiHex | cpp/src/ble/ble_manufacturer_data.cpp:43-59 | `stoi(_, nullptr, 16)` reads back padded uppercase hex. |
| Numbers.StrToIntFormatInt | cpp/src/packets/pc_client_packet.cpp:52-80 | `stoll`/`stoi` read back what `operator<<` writes for an in-range integer. |
| Numbers.HexOrZero | cpp/src/packets/pc_client_packet.cpp:30-38 | A received C++ checksum: `stoi`'s value, or 0 when it throws `invalid_argument`; only `out_of_range` escapes. |
| Numbers.CppHex | cpp/src/ble/ble_manufacturer_data.cpp:55-56 | `std::hex` of an `int` is at least `w` uppercase digits, whose value is `n` for `0 <= n < 2^32`. |
| Results.CatchInvalid | cpp/src/ble/ble_advertisement.cpp:97-106 | An `invalid_argument` becomes a MalformedException with the message; success and other errors pass unchanged. |
| Results.ReadEach | golang/v2/ab.go:50-72 | A reading loop over items: success iff every item reads, giving each value in order; otherwise the first failing item's error. |
| Envelope.Unwrap | golang/v2/pa.go:25-30 | The tags are accepted iff the text has both of them, and the body is what lies between them. |
| Envelope.UnwrapWrap | golang/v2/pa.go:25-30 | Unwrapping undoes wrapping. |
| Envelope.Seal | golang/v2/pi.go:136-137 | A sealed text is followed by four uppercase hex digits whose value is its checksum. |
| Envelope.Unseal | golang/v2/pi.go:64-76 | Fewer than four bytes panic. Four non-hex final characters are a checksum-token error. Otherwise the body is accepted iff the last four characters are the checksum of the rest. |
| Envelope.UnsealSeal | golang/v2/pi.go:64-76 | Unsealing undoes sealing. |
| Envelope.SealUnseal | golang/v2/pi.go:136-137 | An accepted body with uppercase digits is what sealing its text writes. |
| Envelope.Open | golang/v2/pi.go:57-79 | The shared skeleton: tag error for unwrapped text; success only for wrapped text, with `;`-free fields. |
| Envelope.OpenSealed | golang/v2/pi.go:57-79 | `Open` accepts exactly the sealed frames, and yields the text before the checksum, less one final `;`, split on `;`. |
| Envelope.OpenShort | golang/v2/pi.go:64-67 | A wrapped frame too short for a checksum panics or fails on the checksum token. |
| Envelope.CloseSealed | golang/v2/pi.go:120-139 | The shared encoder writes the fields, each followed by `;`, sealed. |
| Envelope.SealedFields | golang/v2/pi.go:78-79 | The fields of a sealed text are `;`-free, and they join back to the text, less its final `;`. |
| Envelope.OpenClose | golang/v2/pi.go:56-139 | Opening what `Close` wrote gives back its `;`-free fields, whatever the table. |
| Envelope.CloseOpen | golang/v2/pi.go:56-139 | A canonical frame that opens is what `Close` writes of its fields. |
| Envelope.SplitBody | golang/v2/pa.go:25-36 | Tags, then a split into exactly `count` `;`-free tokens that join back to the body; otherwise a tag or part-count error. |
| Envelope.CheckTrailer | golang/v2/pa.go:38-49 | A checksum token passes iff `ParseUint(_, 16, 16)` gives the checksum of the covered text. An unparsable token is a token error. |
| Envelope.CheckSealed | golang/v2/pa.go:44-62 | The encoder's trailer passes the decoder's check. |
| Envelope.TrailerIsSealed | golang/v2/pa.go:38-62 | An accepted four-digit uppercase token is the one the encoder writes. |
| Envelope.OpenTrailer | golang/v2/pa.go:24-55 | The trailer-shape decoder gives `n` `;`-free fields whose `f;…;` text carries the checksum token; tag error otherwise. |
| Envelope.OpenTrailerComplete | golang/v2/pa.go:24-55 | Every trailed frame is accepted, with its fields. |
| Envelope.OpenTrailerClose | golang/v2/pa.go:24-66 | The trailer decoder reads back what the encoder writes. |
| Envelope.CanonicalClose | golang/v2/pa.go:59-66 | The encoder writes canonical frames. |
| Envelope.CloseOpenTrailer | golang/v2/pa.go:24-66 | A canonical trailed frame is what the encoder writes for its fields. |
| Envelope.OpenMarker | golang/v2/pr.go:18-43 | The marker decoder accepts iff there are two tokens and the second is the checksum of ";". |
| Envelope.OpenMarkerClose | golang/v2/pr.go:18-51 | The marker decoder accepts the marker encoder's output. |
| Envelope.MarkerIgnoresFirst | golang/v2/pr.go:31-36 | Any `;`-free first token is accepted. |
| Args.IoKeyDot | golang/v3/args.go:28-32 | In an io key the only `.` is the one before the suffix. |
| Args.IoKeySuffixUnique | golang/v3/args.go:54-64 | At most one io pattern matches a key. |
| Args.ExtractGpioIo | golang/v3/args.go:99-101 | On an io key, `extractGpio` only strips the suffix: the `io.` replacement never fires. |
| Args.NoIoDot | golang/v3/args.go:100 | A matching key contains `io.` nowhere. |
| Args.IoMatch | golang/v3/args.go:54-64 | The switch picks the first io pattern, in order, that the key matches, or none. |
| Args.RewriteKey | golang/v3/args.go:54-71 | `report`, `confiot_ble` and `confiot_serial` map to their fixed names; keys not starting with `io` and not listed pass unchanged. |
| Args.RewriteIoKey | golang/v3/args.go:55-64 | `io<N>.<suffix>` becomes `gpio.io<N>` followed by the suffix's name. |
| Args.IoMatchUnique | golang/v3/args.go:54-64 | The pattern a key matches is the one the switch takes. |
| Args.RewriteMatched | golang/v3/args.go:55-64 | A matching key is rewritten by its pattern. |
| Args.BleKeysUnchanged | golang/v3/args.go:33-71 | `ble.<N>.<field>` keys pass unchanged: the switch never consults those patterns. |
| Args.Classify | golang/v3/args.go:75-92 | Digit runs are ints, dropped iff they are at least 2^63. A `d+.d+` value is the float `ParseFloat` reads, dropped iff `ParseFloat` rejects it. Exactly `true`/`false` is a bool. Anything else is a string. |
| Args.AtoiDigits | golang/v3/args.go:78-82 | `Atoi` of a digit run succeeds iff it is below 2^63, with its value. |
| Args.Entry | golang/v3/args.go:20-25 | An item without `:` is skipped; otherwise its key is the rewritten text before the first `:`. |
| Args.ValueAfterFirstColon | golang/v3/args.go:73 | The value is everything after the first `:`, further colons kept. |
| Args.Entries | golang/v3/args.go:18-19 | Each `,`-item is read in order. |
| Args.ParseArgs | golang/v3/args.go:11-97 | "" is the empty map; every key comes from an item of the text. |
| Args.FoldSource | golang/v3/args.go:95 | Every key of the map comes from some item. |
| Args.FoldAbsent | golang/v3/args.go:95 | A key no item carries is absent. |
| Args.FoldLast | golang/v3/args.go:81-95 | The last item carrying a key gives its value. |
| Args.CollectSource | golang/v3/args.go:18-95 | Every key of the collected map comes from a token. |
| Args.CollectAbsent | golang/v3/args.go:18-95 | A key no token carries is absent. |
| Args.CollectLast | golang/v3/args.go:18-95 | The last token carrying a key gives its value. |
| Args.ParseTwo | golang/v3/args.go:18-93 | A two-item text is the fold of its two items. |
| Args.LastValueWins | golang/v3/args.go:81-96 | A repeated key keeps its last value. |
| Args.Items | golang/v3/ps.go:70-83 | One `key:value` item per key of the iteration order, in that order; a float is written with the encoder's verb, `%f` or `%v`. |
| Args.OrderEmpty | golang/v3/ps.go:70 | An iteration order is empty iff the map is. |
| Args.EncodeArgs | golang/v3/ps.go:69-85 | The argument text, floats written with the verb, is empty iff the map is. |
| Args.EncodeArgsFree | golang/v3/ps.go:69-85 | No character other than `,` and `:` appears unless a key or value holds it. |
| Args.EntryItem | golang/v3/ps.go:73-79 | An item whose written value classifies back to the value reads back as its key and value. For a float, its `%f` or `%v` text must parse back to it. |
| Args.CollectItems | golang/v3/ps.go:69-85 | The items of distinct keys fold back into the map. |
| Args.ParseJoin | golang/v3/args.go:18-93 | A non-empty text of `,`-free items decodes to their fold. |
| Args.ParseEncode | golang/v3/args.go:11-97 | Parsing what the encoder writes gives back the map, in any iteration order, when every entry is stable: its `%f`/`%v`, `%d`, `%t` or `%s` text classifies back to the same value. |
| Args.ItemsDecode | golang/v3/args.go:11-97 | Joined items of stable entries, floats included as the verb writes them, decode to those entries. |
| Args.ParseOne | golang/v3/args.go:18-93 | A one-item text is what that item contributes. |
| Args.DigitStringRetyped | golang/v3/ps.go:73 | A digit-only string value is written verbatim and re-read as an int. |
| Args.SignedStaysString | golang/v3/args.go:75-92 | `-61` and other signed values stay strings. |
| Args.TwoDotsStaysString | golang/v3/args.go:76 | `12.34.5` and other values with two dots stay strings. |
| Args.EmptyAndCapitalStayStrings | golang/v3/args.go:88-91 | "" and `True` stay strings. |
| Args.OverflowDropped | golang/v3/args.go:78-82 | An all-digit value too large for `Atoi` drops its entry. |
| Args.FloatOverflowDropped | golang/v3/args.go:82-86 | A decimal that `ParseFloat` rejects drops its entry. |
| Args.FloatReparsed | golang/v3/ps.go:76-77 | A float written with `%f` comes back as the float `ParseFloat` reads from that text, not necessarily the one written. |
| Args.IntegralFloatRetyped | golang/v3/ac.go:104 | A float whose `%v` text is a digit run comes back as an int. |
| AbPacket.ColonMac | golang/v2/ab.go:56-64 | The pairing loop runs over the MAC's bytes. It succeeds iff the byte count is even and the paired bytes are UTF-8 text; the result's bytes are then the loop's output. An odd byte count panics. An even one whose pairing splits a character is `NotText`. |
| AbPacket.ColonMacText | golang/v2/ab.go:56-64 | Pairing only inserts `:`. |
| AbPacket.ColonMacForm | golang/v2/ab.go:56-64 | Pairing a `:`-free text that pairs gives the packet's form: two-byte pairs separated by `:`, each pair one two-byte character or two one-byte ones. |
| AbPacket.ColonMacRemoveAll | golang/v2/ab.go:56-83 | A MAC in the packet's form, with its colons removed, has an even byte count and pairs back to itself. |
| AbPacket.ReadDevice | golang/v2/ab.go:50-69 | An item reads iff it has exactly two `:`-parts and a MAC that pairs. Otherwise the error is a device error, a panic for an odd byte count, or `NotText`. The device holds the paired MAC and the model. |
| AbPacket.ReadDevices | golang/v2/ab.go:50-72 | The list reads iff every item does, giving each in order; otherwise the first failing item's error. |
| AbPacket.FromPacket | golang/v2/ab.go:21-75 | The frame checksum is checked before any item. Success means a sealed frame whose items read as the devices. |
| AbPacket.FromPacketComplete | golang/v2/ab.go:21-75 | Every sealed frame whose items read as `p` decodes to `p`. |
| AbPacket.ToPacket | golang/v2/ab.go:79-95 | `mac:model` items joined by `;`, a final `;`, then the checksum. |
| AbPacket.ItemReads | golang/v2/ab.go:50-84 | The item of a device whose MAC is in the packet's form is `;`-free and reads back as the device. |
| AbPacket.RoundTrip | golang/v2/ab.go:21-95 | A non-empty list of devices whose MACs are in the packet's form round-trips. |
| AbPacket.ReadDevicesAll | golang/v2/ab.go:50-72 | Items that each read as a device read as the list. |
| AbPacket.EmptyListRejected | golang/v2/ab.go:44-54 | An empty list encodes to `;` + checksum, which the decoder rejects. |
| AbPacket.OddMacPanics | golang/v2/ab.go:58-59 | A MAC of an odd number of bytes makes decoding panic. |
| AbPacket.MacError | golang/v2/ab.go:56-69 | An item fails exactly as the pairing of its MAC does. |
| AbPacket.SplitCharacter | golang/v2/ab.go:58-63 | `aéb` is four bytes whose second pair splits `é`, so the item `aéb:m` is `NotText`. |
| AcPacket.ReadCommand | golang/v3/ac.go:58-86 | A group reads iff its token parses as the checksum of `id;name;args;` and the id parses. The token is checked before the id. |
| AcPacket.ReadCommands | golang/v3/ac.go:56-89 | Success reads all groups; the first failing group's error stops the loop. |
| AcPacket.ReadCommandsComplete | golang/v3/ac.go:56-89 | Groups that read as `cs` give `cs`. |
| AcPacket.Decode | golang/v3/ac.go:44-90 | Empty list error iff no fields; a count not divisible by 4 fails; success reads every group. |
| AcPacket.FromPacket | golang/v3/ac.go:21-91 | The frame checksum is checked before any command's own checksum. |
| AcPacket.NoCommandsUnreachable | golang/v3/ac.go:46-50 | The "at least one command" error is never returned. |
| AcPacket.FromPacketComplete | golang/v3/ac.go:21-91 | Every sealed frame whose groups read as commands decodes to them. |
| AcPacket.FromClose | golang/v3/ac.go:21-91 | A closed frame decodes as its fields do. |
| AcPacket.ToPacket | golang/v3/ac.go:95-129 | Command items joined by `;`, a final `;`, the checksum; arguments are written with `%v`. |
| AcPacket.Group | golang/v3/ac.go:107-116 | A command item is four fields. |
| AcPacket.GroupJoin | golang/v3/ac.go:107-116 | A command item is its four fields joined by `;`. |
| AcPacket.FlatJoin | golang/v3/ac.go:120 | Joining items equals joining all their fields. |
| AcPacket.GroupReads | golang/v3/ac.go:58-116 | A command whose `%v`-written arguments classify back to themselves has `;`-free fields that read back as it. |
| AcPacket.FlatReads | golang/v3/ac.go:56-120 | The fields of such commands read back as the commands. |
| AcPacket.RoundTrip | golang/v3/ac.go:21-129 | A non-empty queue of commands whose `%v` arguments classify back round-trips, in any argument order. An integral float does not qualify: see Args.IntegralFloatRetyped. |
| AcPacket.FlatDecodes | golang/v3/ac.go:44-120 | The fields of a non-empty queue of such commands decode as the queue. |
| AcPacket.EmptyQueueRejected | golang/v3/ac.go:120-124 | An empty queue encodes to text the decoder rejects as not a multiple of four. |
| AoPacket.FromPacket | golang/v2/ao.go:22-54 | Checksum before timestamp: success means a trailed frame of a decimal 64-bit timestamp. |
| AoPacket.ToPacket | golang/v2/ao.go:58-67 | `ts;` then its checksum, canonical. |
| AoPacket.FromPacketComplete | golang/v2/ao.go:22-54 | Every trailed frame of a decimal timestamp decodes to it. |
| AoPacket.RoundTrip | golang/v2/ao.go:22-67 | decode(encode(t)) == t. |
| AoPacket.SignedTimestamp | golang/v2/ao.go:46-60 | A `+`-signed timestamp is accepted but written back without the sign. |
| AoPacket.PlusRead | golang/v2/ao.go:46 | `+` and digits parse as the value. |
| AoPacket.UnsignedWritten | golang/v2/ao.go:60 | The encoder never writes `+`. |
| ArPacket.FromPacket | golang/v2/ar.go:21-47 | Accepted frames are trailed over `reason;`, with the reason verbatim and `;`-free. |
| ArPacket.ToPacket | golang/v2/ar.go:51-59 | `reason;` then the checksum, canonical. |
| ArPacket.FromPacketComplete | golang/v2/ar.go:21-47 | Every trailed frame decodes to its reason. |
| ArPacket.RoundTrip | golang/v2/ar.go:21-59 | Reasons without `;` round-trip. |
| ArPacket.Reencode | golang/v2/ar.go:21-59 | A canonical frame that decodes re-encodes to itself. |
| AsPacket.FromPacket | golang/v3/as.go:18-43 | Accepted iff two tokens, the second being the checksum of ";". |
| AsPacket.ToPacket | golang/v3/as.go:47-51 | The constant `<As>;` + hex4(crc(";")) + `</As>`. |
| AsPacket.RoundTrip | golang/v3/as.go:18-51 | The encoder's output decodes. |
| AsPacket.IgnoresFirstToken | golang/v3/as.go:31-36 | Any `;`-free first token is accepted. |
| AuPacket.FromPacket | golang/v2/au.go:18-43 | Accepted iff two tokens, the second being the checksum of ";". |
| AuPacket.ToPacket | golang/v2/au.go:47-51 | The constant `<Au>;` + hex4(crc(";")) + `</Au>`. |
| AuPacket.RoundTrip | golang/v2/au.go:18-51 | The encoder's output decodes. |
| AuPacket.IgnoresFirstToken | golang/v2/au.go:31-36 | Any `;`-free first token is accepted. |
| PrPacket.FromPacket | golang/v2/pr.go:18-43 | Accepted iff two tokens, the second being the checksum of ";". |
| PrPacket.ToPacket | golang/v2/pr.go:47-51 | The constant `<Pr>;` + hex4(crc(";")) + `</Pr>`. |
| PrPacket.RoundTrip | golang/v2/pr.go:18-51 | The encoder's output decodes. |
| PrPacket.IgnoresFirstToken | golang/v2/pr.go:31-36 | Any `;`-free first token is accepted. |
| PaPacket.FromPacket | golang/v2/pa.go:24-55 | Accepted frames are trailed over `ident;password;`, with both fields `;`-free and verbatim. |
| PaPacket.ToPacket | golang/v2/pa.go:59-66 | `ident;password;` then the checksum, canonical. |
| PaPacket.FromPacketComplete | golang/v2/pa.go:24-55 | Every trailed two-field frame decodes to its fields. |
| PaPacket.RoundTrip | golang/v2/pa.go:24-66 | `;`-free ident and password round-trip; an empty password is allowed. |
| PaPacket.Reencode | golang/v2/pa.go:24-66 | A canonical frame that decodes re-encodes to itself. |
| PaPacket.DecodedFields | golang/v2/pa.go:32-52 | A decoded frame's two fields are the packet's ident and password. |
| PaPacket.SemicolonInField | golang/v2/pa.go:32-36 | A `;` in the ident makes the encoder's own output fail the three-part check. |
| PcPacket.Decode | golang/v2/pc.go:50-69 | Success iff 3 fields, an int64 timestamp and an `Atoi` id. The errors come in source order. |
| PcPacket.FromPacket | golang/v2/pc.go:28-72 | The checksum is checked before any field. |
| PcPacket.ToPacket | golang/v2/pc.go:76-81 | `%d;%d;%s;` then the checksum. |
| PcPacket.FromPacketComplete | golang/v2/pc.go:28-72 | Every sealed frame whose fields read as `p` decodes to `p`. |
| PcPacket.DecodeFields | golang/v2/pc.go:50-77 | The encoder's fields read back as the packet. |
| PcPacket.FromClose | golang/v2/pc.go:28-72 | A closed frame decodes as its fields. |
| PcPacket.RoundTrip | golang/v2/pc.go:28-81 | Messages without `;` round-trip; an empty message is allowed. |
| PcPacket.Reencode | golang/v2/pc.go:28-81 | A canonical frame with canonical numbers re-encodes to itself. |
| PcPacket.DecodeCanonical | golang/v2/pc.go:50-77 | Fields that decode with canonical numbers are the encoder's own. |
| PcPacket.SemicolonInMessage | golang/v2/pc.go:50-56 | A `;` in the message fails the 3-part check. |
| PmPacket.Decode | golang/v2/pm.go:50-63 | Success iff 3 fields and the third is valid base64; the names are kept verbatim. |
| PmPacket.FromPacket | golang/v2/pm.go:28-66 | The checksum is checked before any field. |
| PmPacket.ToPacket | golang/v2/pm.go:70-81 | `filename;contentType;base64(data);` then the checksum. |
| PmPacket.FromPacketComplete | golang/v2/pm.go:28-66 | Every sealed frame whose fields read as `p` decodes to `p`. |
| PmPacket.FromClose | golang/v2/pm.go:28-66 | A closed frame decodes as its fields. |
| PmPacket.RoundTrip | golang/v2/pm.go:28-81 | With lawful base64 and `;`-free names, decoding undoes encoding. |
| PmPacket.Reencode | golang/v2/pm.go:28-81 | A canonical frame whose data field is the encoder's own text re-encodes to itself. |
| PmPacket.SemicolonInFilename | golang/v2/pm.go:50-54 | A `;` in the file name fails the 3-part check. |
| PsPacket.Decode | golang/v3/ps.go:47-59 | Success iff 2 fields and an int64 timestamp; the argument text always parses. |
| PsPacket.FromPacket | golang/v3/ps.go:25-62 | The checksum is checked before any field. |
| PsPacket.ToPacket | golang/v3/ps.go:66-89 | `%d;` + the items joined by `,` in the given iteration order, floats as `%f` + `;`, then the checksum. |
| PsPacket.FromPacketComplete | golang/v3/ps.go:25-62 | Every sealed frame whose fields read as `p` decodes to `p`. |
| PsPacket.FromClose | golang/v3/ps.go:25-62 | A closed frame decodes as its fields. |
| PsPacket.RoundTrip | golang/v3/ps.go:25-89 | Settings round-trip, whatever the iteration order, when every entry is `;`-free and its written text (`%f` for floats) classifies back to it. |
| PsPacket.Reencode | golang/v3/ps.go:25-89 | A canonical frame re-encodes to itself when its argument text is what the encoder writes, `%f` floats included, for some iteration order. |
| PsPacket.ReencodeFields | golang/v3/ps.go:47-85 | Fields that read as `p` and are spelled as the encoder spells them (`%d`, `%f`) are the encoder's fields. |
| PiPacket.Decode | golang/v2/pi.go:78-113 | Success iff 8 fields with four `Atoi` integers; the first failing one names the error. |
| PiPacket.FromPacket | golang/v2/pi.go:56-116 | The checksum is checked before any field. |
| PiPacket.Fields | golang/v2/pi.go:120-135 | The encoder writes eight fields. |
| PiPacket.ToPacket | golang/v2/pi.go:120-139 | The fields, each followed by `;`, then the checksum. |
| PiPacket.FromPacketComplete | golang/v2/pi.go:56-116 | Every sealed frame whose fields read as `p` decodes to `p`. |
| PiPacket.DecodeFields | golang/v2/pi.go:78-135 | The encoder's fields read back as the packet. |
| PiPacket.FotaRead | golang/v2/pi.go:113-133 | `true`/`false` as written read back as the flag. |
| PiPacket.FromClose | golang/v2/pi.go:56-116 | A closed frame decodes as its fields. |
| PiPacket.RoundTrip | golang/v2/pi.go:56-139 | With `;`-free texts, decode(encode(p)) == p; the branch is copied verbatim. |
| PiPacket.FieldsFree | golang/v2/pi.go:120-135 | With `;`-free texts the fields hold no `;`. |
| PiPacket.DecodeCanonical | golang/v2/pi.go:78-135 | Fields that decode, with canonical numbers and `true`/`false`, are the encoder's own. |
| PiPacket.Reencode | golang/v2/pi.go:56-139 | A canonical frame in the encoder's spelling re-encodes to itself. |
| PiPacket.FotaOneRewritten | golang/v2/pi.go:113-133 | FOTA written as `1` reads as enabled and is written back as `true`. |
| PdPacket.FirstUnreadable | golang/v2/pd.go:66-120 | The first position field that is neither empty nor convertible, or 8. |
| PdPacket.PositionOf | golang/v2/pd.go:122-130 | Convertible fields give the position they read as. |
| PdPacket.Decode | golang/v2/pd.go:50-132 | Success iff 9 fields, an int64 timestamp and readable position fields. Errors come in field order. |
| PdPacket.FromPacket | golang/v2/pd.go:28-135 | The checksum is checked before any field; the position is always set. |
| PdPacket.FromPacketComplete | golang/v2/pd.go:28-135 | Every sealed frame whose fields read as `p` decodes to `p`. |
| PdPacket.ReadsUnique | golang/v2/pd.go:57-132 | The fields determine the packet. |
| PdPacket.FromClose | golang/v2/pd.go:28-135 | A closed frame decodes as its fields. |
| PdPacket.Kept | golang/v2/pd.go:185-207 | The encoder writes exactly the non-integer entries. |
| PdPacket.KeptOrder | golang/v2/pd.go:185 | The iteration order without the skipped keys. |
| PdPacket.KeptIsOrder | golang/v2/pd.go:185 | That order lists exactly the kept entries. |
| PdPacket.Fields | golang/v2/pd.go:141-212 | The encoder writes nine fields; the extra data writes floats with `%f`. |
| PdPacket.ToPacket | golang/v2/pd.go:139-217 | The fields, each followed by `;`, then the checksum. |
| PdPacket.NilPositionAsEmpty | golang/v2/pd.go:142-180 | A nil position encodes like an all-absent position. |
| PdPacket.NilExtraAsEmpty | golang/v2/pd.go:182-212 | Nil extra data encodes like an empty map. |
| PdPacket.ExtraFieldReads | golang/v2/pd.go:182-209 | The extra-data field parses back to the kept, trimmed entries, when each kept entry's `%f`/`%t`/`%s` text classifies back to it. |
| PdPacket.RoundTrip | golang/v2/pd.go:28-217 | Decoding gives back the timestamp, the position after `%f` (nil read as all-absent), and the extra data without integers, with strings trimmed. The extra data's written entries must classify back to themselves. |
| PdPacket.FieldsRead | golang/v2/pd.go:57-212 | The encoder's fields read as the packet the round trip gives back. |
| PdPacket.IntegersDropped | golang/v2/pd.go:189 | An integer entry does not survive re-encoding. |
| PbPacket.ReadBytes | golang/v2/pb.go:124-132 | The data loop runs over the UTF-8 bytes of the text; success gives one byte per two bytes of text. |
| PbPacket.ReadChunks | golang/v2/pb.go:124-132 | Success iff the length is even and every two-character chunk parses, each giving one byte. A lone last byte panics once every full chunk reads. Otherwise the error is "cannot convert data to byte". |
| PbPacket.AsciiBytes | golang/v2/pb.go:124-132 | On ASCII text the byte loop is the character loop. |
| PbPacket.OddDataFails | golang/v2/pb.go:125-126 | Data of an odd number of bytes never reads. |
| PbPacket.AccentData | golang/v2/pb.go:124-129 | Data `é` is the bytes C3 A9, a chunk `ParseInt` rejects, so it is the data error, not a panic. |
| PbPacket.ReadHexBytes | golang/v2/pb.go:124-218 | `%X` of bytes reads back as the bytes. |
| PbPacket.ReadManufacturer | golang/v2/pb.go:116-138 | The company id goes through `ParseInt(_, 16, 16)`; a bad id is an id error. |
| PbPacket.ReadManufacturers | golang/v2/pb.go:115-138 | Success iff every item reads, in order; otherwise the first failure's error. |
| PbPacket.ReadService | golang/v2/pb.go:141-165 | Skipped iff nothing precedes the first `:`; otherwise the uuid goes through `ParseInt(_, 16, 64)`. |
| PbPacket.ReadServices | golang/v2/pb.go:140-165 | Success iff every item reads. The result is the services of the items not skipped, in item order. |
| PbPacket.EmptyManufacturerField | golang/v2/pb.go:116-122 | An empty manufacturer field is an error. |
| PbPacket.EmptyServiceField | golang/v2/pb.go:141-145 | An empty service field gives no entries. |
| PbPacket.ReadFields | golang/v2/pb.go:80-179 | Conversions in source order, the MAC kept verbatim; tx power "" is -999. |
| PbPacket.ReadAdvertisement | golang/v2/pb.go:66-179 | The group checksum is checked before any field. |
| PbPacket.ReadAdvertisements | golang/v2/pb.go:54-180 | Success reads every group; the first failure stops the loop. |
| PbPacket.ReadAdvertisementsComplete | golang/v2/pb.go:54-180 | Groups that read as `ads` give `ads`. |
| PbPacket.Decode | golang/v2/pb.go:46-183 | A count not divisible by 12 fails; otherwise the groups are read. |
| PbPacket.FromPacket | golang/v2/pb.go:22-184 | The frame checksum is checked before any group's own. |
| PbPacket.FromPacketComplete | golang/v2/pb.go:22-184 | Every sealed frame whose groups read as `ads` decodes to them. |
| PbPacket.FromClose | golang/v2/pb.go:22-184 | A closed frame decodes as its fields. |
| PbPacket.Fields | golang/v2/pb.go:204-227 | `composeAdvertisement` writes eleven fields. |
| PbPacket.ToPacket | golang/v2/pb.go:188-202 | Advertisements joined by `;`, a final `;`, the checksum. |
| PbPacket.Group | golang/v2/pb.go:204-232 | An advertisement is twelve fields: the eleven and its checksum. |
| PbPacket.GroupJoin | golang/v2/pb.go:204-232 | An advertisement is its twelve fields joined by `;`. |
| PbPacket.FlatJoin | golang/v2/pb.go:194 | Joining advertisements equals joining all their fields. |
| PbPacket.ManufacturerFieldReads | golang/v2/pb.go:115-220 | A non-empty list of short-id manufacturer items reads back. |
| PbPacket.ServiceFieldReads | golang/v2/pb.go:140-227 | Any service list reads back; an empty one is written as an empty field. |
| PbPacket.ManufacturerItemReads | golang/v2/pb.go:116-218 | A manufacturer item is separator-free and reads back. |
| PbPacket.ServiceItemReads | golang/v2/pb.go:141-224 | A service item is separator-free and reads back. |
| PbPacket.IntegerReads | golang/v2/pb.go:80-214 | Decimal integers read back through every integer conversion. |
| PbPacket.FieldsRead | golang/v2/pb.go:80-227 | The fields read back as the advertisement, floats reparsed. |
| PbPacket.GroupReads | golang/v2/pb.go:66-232 | A writable advertisement's group is `;`-free and reads back. |
| PbPacket.FlatReads | golang/v2/pb.go:54-232 | The fields of writable advertisements read back as them. |
| PbPacket.FlatDecodes | golang/v2/pb.go:46-232 | The fields of a non-empty writable list decode as the list. |
| PbPacket.RoundTrip | golang/v2/pb.go:22-233 | A non-empty list of writable advertisements round-trips, up to `%f`. |
| PbPacket.EmptyListRejected | golang/v2/pb.go:46-51 | An empty list encodes to text that is not a multiple of 12 and is rejected. |
| PbPacket.SentinelWritten | golang/v2/pb.go:107-214 | The -999 sentinel is written as `-999`, which reads back as the sentinel. |
| PbPacket.LongCompanyIdRejected | golang/v2/pb.go:119-122 | A company id above 0x7FFF is written but not read back. |
| Parser.TagsExclusive | golang/v2/parser.go:11-46 | A frame carries at most one server tag pair. |
| Parser.DispatchServerByTag | golang/v2/parser.go:11-53 | Whichever tag a frame carries, dispatch is that kind's decoder, so the order is immaterial. |
| Parser.DispatchServerNoTag | golang/v2/parser.go:55-57 | A frame with no listed tag is an invalid response. |
| Parser.DispatchByTag | golang/v2/parser.go:9-60 | `handleServerOutput` answers as the decoder of the tag's kind. |
| Parser.ErrorPassedThrough | golang/v2/parser.go:13-16 | A decoder error is returned unchanged. |
| Parser.OtherTagInvalid | golang/v2/parser.go:55-57 | A client tag such as `<Pi>` is an invalid response. |
| Parser.ServerRoundTrip | golang/v2/parser.go:9-60 | Every writable server packet, encoded, dispatches back to itself: Ab MACs in the packet's form, Ac arguments whose `%v` text classifies back. |
| Parser.AbRoundTrip | golang/v2/parser.go:11-17 | Encoded Ab packets whose MACs are in the packet's form dispatch to themselves. |
| Parser.AbDispatch | golang/v2/parser.go:11-17 | A frame the Ab decoder accepts is dispatched to it. |
| Parser.AcRoundTrip | golang/v2/parser.go:18-24 | Encoded Ac packets whose `%v` arguments classify back dispatch to themselves. |
| Parser.AcDispatch | golang/v2/parser.go:18-24 | A frame the Ac decoder accepts is dispatched to it. |
| Parser.AoRoundTrip | golang/v2/parser.go:25-31 | Encoded Ao packets dispatch to themselves. |
| Parser.AoDispatch | golang/v2/parser.go:25-31 | A frame the Ao decoder accepts is dispatched to it. |
| Parser.ArRoundTrip | golang/v2/parser.go:32-38 | Encoded Ar packets dispatch to themselves. |
| Parser.ArDispatch | golang/v2/parser.go:32-38 | A frame the Ar decoder accepts is dispatched to it. |
| Parser.AsRoundTrip | golang/v2/parser.go:39-45 | The As frame dispatches to As. |
| Parser.AsDispatch | golang/v2/parser.go:39-45 | A frame the As decoder accepts is dispatched to it. |
| Parser.AuRoundTrip | golang/v2/parser.go:46-52 | The Au frame dispatches to Au. |
| Parser.AuDispatch | golang/v2/parser.go:46-52 | A frame the Au decoder accepts is dispatched to it. |
| Parser.ParsePacketToString | golang/v2/parser.go:62-90 | Succeeds iff the value is one of the eight client packets, with that packet's encoding; anything else is the type error. |
| Parser.PaWritten | golang/v2/parser.go:65-66 | A written Pa reads back with the Pa decoder. |
| Parser.PbWritten | golang/v2/parser.go:67-68 | A written Pb reads back, floats reparsed. |
| Parser.PcWritten | golang/v2/parser.go:69-70 | A written Pc reads back. |
| Parser.PdWritten | golang/v2/parser.go:71-72 | A written Pd reads back as its round trip says: position floats after `%f`, integers dropped, strings trimmed. |
| Parser.PiWritten | golang/v2/parser.go:73-74 | A written Pi reads back. |
| Parser.PsWritten | golang/v2/parser.go:75-76 | A written Ps whose entries' `%f`/`%d`/`%t`/`%s` text classifies back reads back. |
| Parser.PmWritten | golang/v2/parser.go:77-78 | A written Pm reads back. |
| Parser.PrWritten | golang/v2/parser.go:79-80 | A written Pr reads back. |
| Tcp.New | golang/v3/tcp.go:27-39 | Sets the fields; initialized; callback and flag cleared; the connection untouched. |
| Tcp.SetCallback | golang/v3/tcp.go:42-49 | Before `New` the not-initialized error; otherwise the callback is set. |
| Tcp.Send | golang/v3/tcp.go:52-68 | Not initialized, then the packet type, then a nil connection. Success iff all three pass, writing the encoding plus `\r\n`. |
| Tcp.Close | golang/v3/tcp.go:155-162 | Success iff initialized and connected. |
| Tcp.WaitAuthenticated | golang/v3/tcp.go:90-104 | Returns the first count at or below 61 whose check sees the flag, else the timeout. The timeout comes iff checks 0..61 all fail. |
| Tcp.Connect | golang/v3/tcp.go:71-105 | Guard, clear the flag, a dial failure, then a Pa of ident and password written, then the poll; authenticated iff the poll succeeds. |
| Tcp.FirstOpen | golang/v3/tcp.go:37 | The first `<A\w>` at or after `from`, or none. |
| Tcp.FirstClose | golang/v3/tcp.go:38 | The first `</A\w>` at or after `from`, or none. |
| Tcp.Envelopes | golang/v3/tcp.go:122 | Every match of the split pattern is one `<A?>…</A?>` envelope. |
| Tcp.Decoded | golang/v3/tcp.go:123-125 | Each envelope decoded, in order. |
| Tcp.Dispatch | golang/v3/tcp.go:123-146 | The flag never falls; only non-As, non-Au packets reach the callback, none without one. |
| Tcp.Step | golang/v3/tcp.go:112-149 | The buffer is kept while it has no closing tag, otherwise dispatched and emptied; the flag never falls. |
| Tcp.GuardsBeforeNew | golang/v3/tcp.go:43-45 | Before `New`, SetCallback, Send and Close report not initialized. |
| Tcp.NilBeforeConnect | golang/v3/tcp.go:65-160 | After `New` and before `Connect`, Send and Close dereference a nil connection. |
| Tcp.EnvelopesOfSingle | golang/v3/tcp.go:122 | One whole envelope is its own single match. |
| Tcp.TwoEnvelopes | golang/v3/tcp.go:122 | Two envelopes back to back are split apart again. |
| Tcp.ShiftedEnvelopes | golang/v3/tcp.go:122 | The matches after an envelope are the matches of the rest. |
| Tcp.DispatchAppend | golang/v3/tcp.go:123-146 | Dispatching a concatenation is dispatching its parts in turn when the first has no error. |
| Tcp.DispatchAuthenticates | golang/v3/tcp.go:131-133 | The reader ends authenticated iff it was, or an As precedes any error. |
| Tcp.DispatchStops | golang/v3/tcp.go:126-129 | Nothing after a failed envelope is dispatched. |
| Tcp.FragmentedEnvelope | golang/v3/tcp.go:119-120 | An envelope split over two reads is dispatched as if read at once. |
| Tcp.CoalescedEnvelopes | golang/v3/tcp.go:119-148 | Two envelopes in one read behave like two reads when the first decodes. |
| Tcp.StepSingle | golang/v3/tcp.go:119-148 | One whole envelope dispatches just itself. |
| Tcp.StepTwo | golang/v3/tcp.go:119-148 | Two whole envelopes dispatch both, in order. |
| Tcp.FailureAbandonsRest | golang/v3/tcp.go:126-148 | After a failed first envelope the second is dropped and the buffer emptied. |
| Tcp.AcceptedAuthenticates | golang/v3/tcp.go:132-133 | An As envelope sets the flag and is not handed to the callback. |
| BleData.ReadChunks | cpp/src/ble/ble_manufacturer_data.cpp:40-45 | On a byte view: success iff the length is even and every two-character chunk reads under `stoi(_, nullptr, 16)`, each chunk giving one byte. Otherwise the error is `invalid_argument` or `out_of_range`. |
| BleData.AccentPayload | cpp/src/ble/ble_manufacturer_data.cpp:40-45 | The payload `aé` is three bytes. The first chunk reads as 10, and the lone tail A9 throws `invalid_argument`. |
| BleData.WriteChunks | cpp/src/ble/ble_manufacturer_data.cpp:57-60 | Bytes are written as uppercase hex digits. |
| BleData.ReadItem | cpp/src/ble/ble_manufacturer_data.cpp:21-48 | No `:` or a bad id is a MalformedException. Success reads the id before the first `:` and the payload's bytes after it. |
| BleData.WriteItem | cpp/src/ble/ble_manufacturer_data.cpp:51-62 | An item holds a `:` and neither `,` nor `;`. |
| BleData.ReadWriteChunks | cpp/src/ble/ble_manufacturer_data.cpp:40-60 | Written bytes read back. |
| BleData.ByteHex | cpp/src/ble/ble_manufacturer_data.cpp:43-59 | A byte's two digits read back as the byte. |
| BleData.ReadWriteItem | cpp/src/ble/ble_manufacturer_data.cpp:21-62 | An id in `0..2^31` and bytes read back as written. |
| BleData.OddTail | cpp/src/ble/ble_manufacturer_data.cpp:41-45 | An odd number of hex digits ends in `out_of_range`. |
| BleManufacturerData.FromPacket | cpp/src/ble/ble_manufacturer_data.cpp:21-48 | Missing `:` and an id without a leading hex digit are MalformedExceptions. Success gives the id and one data byte per two payload bytes. |
| BleManufacturerData.ToPacket | cpp/src/ble/ble_manufacturer_data.cpp:51-62 | `%04X:` then two digits per byte. |
| BleManufacturerData.RoundTrip | cpp/src/ble/ble_manufacturer_data.cpp:21-62 | A company id in `0..2^31` and bytes round-trip. |
| BleServiceData.FromPacket | cpp/src/ble/ble_service_data.cpp:16-45 | Missing `:` and a uuid without a leading hex digit are MalformedExceptions. Success gives the uuid and one data byte per two payload bytes. |
| BleServiceData.ToPacket | cpp/src/ble/ble_service_data.cpp:48-59 | `%04X:` then two digits per byte. |
| BleServiceData.RoundTrip | cpp/src/ble/ble_service_data.cpp:16-59 | A uuid in `0..2^31` and bytes round-trip. |
| BleAdvertisement.AsciiMacPairs | cpp/src/ble/ble_advertisement.cpp:88-94 | Twelve ASCII characters pair into six two-character pairs with a `:` between each pair. |
| BleAdvertisement.ReadFloat | cpp/src/ble/ble_advertisement.cpp:107-145 | "" is absent; a `stof` invalid argument is a MalformedException. |
| BleAdvertisement.ReadTxPower | cpp/src/ble/ble_advertisement.cpp:156-168 | "" is absent; otherwise `stoi` base 10, an invalid one being a MalformedException. |
| BleAdvertisement.ReadAll | cpp/src/ble/ble_advertisement.cpp:169-184 | Items are read in order; the first exception escapes. |
| BleAdvertisement.ReadFields | cpp/src/ble/ble_advertisement.cpp:95-189 | Conversions in source order; a bad timestamp is a MalformedException; the paired MAC passed in is kept. |
| BleAdvertisement.Assemble | cpp/src/ble/ble_advertisement.cpp:186-189 | Success iff every conversion succeeds; otherwise the first failure's error. |
| BleAdvertisement.FromPacket | cpp/src/ble/ble_advertisement.cpp:43-190 | Eleven tokens, then the checksum over the text before the last `;`, then a MAC of twelve bytes, then the fields. A pairing that splits a character is `NotText`. On success the MAC's bytes are the pairing loop's output. |
| BleAdvertisement.Fields | cpp/src/ble/ble_advertisement.cpp:197-210 | `to_packet` streams ten tokens. |
| BleAdvertisement.ToPacket | cpp/src/ble/ble_advertisement.cpp:194-219 | The tokens each followed by `;`, then `%04X` of the checksum of all of that. |
| BleAdvertisement.OwnOutputChecksum | cpp/src/ble/ble_advertisement.cpp:78-216 | The encoder's output fails the checksum iff adding the final `;` changes the checksum, and then both values are reported. |
| BleAdvertisement.ReencodingRejected | cpp/src/ble/ble_advertisement.cpp:85-198 | A decoded advertisement's paired MAC makes its re-encoding always rejected. |
| BleAdvertisement.RoundTrip | cpp/src/ble/ble_advertisement.cpp:43-219 | Assume the final `;` leaves the checksum unchanged and the MAC has twelve bytes. Then the advertisement decodes back, its MAC paired over bytes and its floats reparsed. A MAC whose pairing splits a character is `NotText` instead. |
| BleAdvertisement.ManufacturerItems | cpp/src/ble/ble_advertisement.cpp:171-209 | A manufacturer list splits back into its items and each reads back. |
| BleAdvertisement.ServiceItems | cpp/src/ble/ble_advertisement.cpp:179-210 | A service list splits back into its items and each reads back. |
| BleAdvertisement.ItemsRoundTrip | cpp/src/helpers/strings.cpp:69-83 | Non-empty `,`-free rendered items split and read back. |
| PbClientPacket.Frame | cpp/src/packets/pb_client_packet.cpp:23-34 | Tags, then a token count one more than a multiple of eleven; otherwise a MalformedException. |
| PbClientPacket.FromPacket | cpp/src/packets/pb_client_packet.cpp:20-63 | Frame errors, then the checksum of the joined tokens plus `;`, then each run of eleven decoded again. |
| PbClientPacket.ReadGroups | cpp/src/packets/pb_client_packet.cpp:55-60 | No runs give the empty list. |
| PbClientPacket.ToPacket | cpp/src/packets/pb_client_packet.cpp:67-80 | The advertisements, then the checksum as four uppercase digits, wrapped. |
| PbClientPacket.GroupRejected | cpp/src/packets/pb_client_packet.cpp:58 | Eleven tokens joined without tags are always rejected. |
| PbClientPacket.GroupsRejected | cpp/src/packets/pb_client_packet.cpp:55-60 | The loop succeeds iff there is no run. |
| PbClientPacket.DecodesOnlyEmpty | cpp/src/packets/pb_client_packet.cpp:20-63 | Only the empty batch decodes: exactly the single-token frames whose token reads as the checksum of ";". |
| PbClientPacket.DecodeErrors | cpp/src/packets/pb_client_packet.cpp:20-63 | The only errors are the two messages, `out_of_range`, or a checksum mismatch. |
| PbClientPacket.AfterChecksum | cpp/src/packets/pb_client_packet.cpp:50-62 | Once the checksum matches, one token is the empty batch and more are rejected. |
| PbClientPacket.EmptyPacket | cpp/src/packets/pb_client_packet.cpp:67-80 | The empty batch encodes as `<Pb>0000</Pb>`. |
| PbClientPacket.EmptyRoundTrip | cpp/src/packets/pb_client_packet.cpp:46-79 | The empty batch round-trips iff the checksum of ";" is 0. |
| PbClientPacket.NonEmptyRejected | cpp/src/packets/pb_client_packet.cpp:20-80 | A non-empty batch never decodes from its own encoding. |
| PbClientPacket.PiecesCount | cpp/src/helpers/strings.cpp:37-48 | The C++ split has one token more than delimiters, less one for a final delimiter. |
| PbClientPacket.JoinCount | cpp/src/helpers/strings.cpp:54-68 | A join has exactly one delimiter between consecutive pieces and none at the ends. |
| PcClientPacket.FromPacket | cpp/src/packets/pc_client_packet.cpp:12-71 | Tags, four tokens, the checksum over the text before the last `;`, then timestamp and id; the message is kept. |
| PcClientPacket.ToPacket | cpp/src/packets/pc_client_packet.cpp:75-89 | `ts;id;message;` then the checksum of that text, wrapped. |
| PcClientPacket.RoundTrip | cpp/src/packets/pc_client_packet.cpp:12-89 | Decoding the encoder's output succeeds iff the final `;` leaves the checksum unchanged; otherwise a checksum error with both values. |
| PcClientPacket.EncodedTokens | cpp/src/packets/pc_client_packet.cpp:19-41 | The encoder's output splits into its three fields and the checksum token; the decoder checksums the fields without the final `;`. |
| PcClientPacket.SemicolonInMessage | cpp/src/packets/pc_client_packet.cpp:19-28 | A `;` in the message gives five tokens and is rejected. |

## Left out

- The HTTP transport (golang/v2/http.go) and the examples under golang/examples are not part of this model. The Python and Dart code is not part of it either.
- Socket I/O, the reader goroutine, `time.Sleep`, logging, and the reader's panic on a read error are not modelled. What the dial returns, and what the reader has done by each poll, are parameters of `Tcp.Connect` and `Tcp.WaitAuthenticated`.
- Tcp.Step: a read chunk is modelled as text, not bytes. The unsynchronised sharing of `authenticated` between the reader goroutine and `Connect` is not modelled.
- Tcp.Step: the decoder is a parameter. `Tcp.ServerDecoder` instantiates it with `handleServerOutput`.
- Floating point is not modelled as numbers. `%f`, `%v`, `ParseFloat`, `std::stof` and `std::to_string` are an opaque text codec (`Floats.FloatText`, `Floats.CFloatText`) with lawfulness predicates. This includes float values inside argument maps. Round trips therefore hold "up to what `%f` or `%v` keeps": an entry counts as stable when its written text classifies back to it.
- Timestamps are integer Unix seconds, not `time.Time` or `std::chrono` values.
- Base64 is an abstract pair of functions, with a `Lawful` predicate for the round trip.
- The checksum table `crc_tab` is not part of this model: it is a parameter. The Go `calculateCrc` is not part of this model either, and is taken to be the same fold as crc.cpp.
- Go's map iteration order is an explicit `order` parameter, so results hold for every order.
- The regular expressions of args.go and tcp.go are written out as predicates.
- Known defects of the C++ build are not modelled:
  - `layers_protocol` is misspelled as the namespace in strings.cpp;
  - ble_advertisement.cpp:213 takes `begin()` and `end()` from two different temporaries (the model checksums the streamed text);
  - pc_client_packet.h:25 is not modelled.
- C++ exception classes are modelled as error constructors (`Malformed`, `CrcError`, `InvalidArgument`, `OutOfRange`), not as classes.
- Go runtime panics in the decoders (slice out of range, an odd-length MAC) are modelled as an explicit `Panic` error. The encoders' nil dereferences are not representable, because the model's fields are values, not pointers. These are `*p.Message` at pc.go:77, `*p.Devices` and `*device.MacAddress` at ab.go:82-83, `*p.Params` at ps.go:70, and `*command.Args` and `*command.CommandName` at ac.go:103 and 110.
- The decoders rewrite the caller's `*raw` as they go (for example ab.go:26-44); the model takes the text by value and returns the packet. ab.go:71 assigns `p.Devices` inside the loop, so a failure leaves the receiver partly filled; the model returns only the error.
- Byte-level slicing is modelled through `Strings.ByteView` (one character per UTF-8 byte) and `Strings.PairBytes` (the pairing loop on bytes). When a pair splits a multi-byte character, Go and C++ build bytes that are not UTF-8. A model string cannot hold those bytes, so `GoError.NotText` and `CppError.NotText` stand in for that result. C++ `find` and `stoi` on a byte view agree with the same functions on characters.
- PbClientPacket.ReadGroups: it is total, and a short final run gives an error. That run cannot occur after the count check.
- AcPacket.ReadCommands: it is total, and a short final group gives `BadPartMultiple(4)`. That group cannot occur after the multiple-of-four check.
- PbPacket.ReadAdvertisements: it is total in the same way. A short final group cannot occur after the multiple-of-twelve check.
- The concrete frames in golang/examples/packets.go are not modelled as literals. The Pa, Pc, Pi and Ps frames fall under the general `Reencode` lemmas: a canonical frame that decodes re-encodes to itself, for every checksum table. The Ab, Ac and Pr frames fall only under the packets' `RoundTrip` lemmas, which start from a packet rather than a frame. The Pd and Pb frames fall under neither: the Pd frame's integer extra data is dropped on decoding (see Args.Classify), and the Pb frame's `19.4346059` is rewritten by `%f`.
