/**
 * `PcClientPacket` (cpp/src/packets/pc_client_packet.cpp): a command
 * answer `<Pc>ts;command_id;message;CRC</Pc>`. As in the advertisement codec,
 * the encoder checksums its text up to and including the final `;` and the
 * decoder checksums the text before that `;`.
 */
module PcClientPacket {
  import opened Results
  import opened Strings
  import opened Numbers
  import opened Checksum
  import opened Envelope

  /** `timestamp` is a `std::time_t` (64-bit), `commandId` a C++ `int`. */
  datatype PcPacket = PcPacket(timestamp: int, commandId: int, message: string)

  const BadEnvelope := "Invalid packet definition, should be <Pc>...</Pc>"
  const BadParts := "Invalid packet definition, should have 4 parts"
  const BadTimestamp := "Invalid timestamp, should be an int or float"
  const BadCommandId := "Invalid command_id, should be an int"

  /** The text between the tags of a wrapped packet. */
  function Content(raw: string): (c: string)
    requires Wrapped(raw, "Pc")
    ensures raw == Wrap("Pc", c)
  {
    var r := Unwrap(raw, "Pc");
    r.value
  }

  /**
   * `from_packet`: the tags, exactly four `getline` tokens, the checksum (a
   * token with no hex digit counts as 0) over the text before the checksum
   * token's `;`, then the timestamp and the command id; the message is kept
   * as it is.
   */
  function FromPacket(tab: Table, raw: string): (r: Result<PcPacket, CppError>)
    ensures !Wrapped(raw, "Pc") ==> r == Err(Malformed(BadEnvelope))
    ensures Wrapped(raw, "Pc") && |GetlineSplit(Content(raw), ';')| != 4 ==> r == Err(Malformed(BadParts))
    ensures r.Err? && r.error.CrcError? ==>
              Wrapped(raw, "Pc") && var parts := GetlineSplit(Content(raw), ';');
              |parts| == 4 && HexOrZero(parts[3]) == Ok(r.error.received) &&
              r.error.calculated == TextCrc(tab, BeforeLastPiece(Content(raw), ';')) &&
              r.error.received != r.error.calculated
    ensures r.Ok? <==>
              Wrapped(raw, "Pc") && var parts := GetlineSplit(Content(raw), ';');
              |parts| == 4 && HexOrZero(parts[3]) == Ok(TextCrc(tab, BeforeLastPiece(Content(raw), ';'))) &&
              Stoll(parts[0]).Ok? && Stoi(parts[1], 10).Ok?
    ensures r.Ok? ==> var parts := GetlineSplit(Content(raw), ';');
              Stoll(parts[0]) == Ok(r.value.timestamp) && Stoi(parts[1], 10) == Ok(r.value.commandId) &&
              r.value.message == parts[2]
  {
    if !Wrapped(raw, "Pc") then Err(Malformed(BadEnvelope))
    else
      var content := Content(raw);
      var parts := GetlineSplit(content, ';');
      if |parts| != 4 then Err(Malformed(BadParts))
      else
        var received :- HexOrZero(parts[3]);
        var calculated := TextCrc(tab, BeforeLastPiece(content, ';'));
        if received != calculated then Err(CrcError(received, calculated))
        else
          var timestamp :- CatchInvalid(Stoll(parts[0]), BadTimestamp);
          var commandId :- CatchInvalid(Stoi(parts[1], 10), BadCommandId);
          Ok(PcPacket(timestamp, commandId, parts[2]))
  }

  /** The text `to_packet` checksums: each field followed by `;`. */
  function Text(p: PcPacket): string {
    FormatInt(p.timestamp) + ";" + FormatInt(p.commandId) + ";" + p.message + ";"
  }

  /** `to_packet`: the fields, then the checksum of that text as four uppercase hex digits. */
  function ToPacket(tab: Table, p: PcPacket): (r: string)
    ensures Wrapped(r, "Pc")
    ensures Content(r) == Text(p) + Hex4(TextCrc(tab, Text(p)))
  {
    var s := Text(p);
    UnwrapWrap("Pc", s + Hex4(TextCrc(tab, s)));
    Wrap("Pc", s + Hex4(TextCrc(tab, s)))
  }

  // ---------------------------------------------------------------------------
  // Properties

  /** The fields joined by `;`, without the final `;`: what the decoder checksums. */
  function Covered(p: PcPacket): string {
    FormatInt(p.timestamp) + ";" + FormatInt(p.commandId) + ";" + p.message
  }

  /** The integers fit their C++ types and the message holds no `;`. */
  predicate Writable(p: PcPacket) {
    -TwoTo63 <= p.timestamp < TwoTo63 && -TwoTo31 <= p.commandId < TwoTo31 && ';' !in p.message
  }

  /**
   * Decoding the encoder's output gives the packet back exactly when adding
   * the final `;` leaves the checksum unchanged; otherwise it is a checksum
   * error carrying the checksum of the text with and without that `;`.
   */
  lemma RoundTrip(tab: Table, p: PcPacket)
    requires Writable(p)
    ensures var s := Covered(p);
            FromPacket(tab, ToPacket(tab, p)) ==
              if TextCrc(tab, s + ";") == TextCrc(tab, s) then Ok(p)
              else Err(CrcError(TextCrc(tab, s + ";"), TextCrc(tab, s)))
  {
    var ts, id := FormatInt(p.timestamp), FormatInt(p.commandId);
    var h := Hex4(TextCrc(tab, Text(p)));
    EncodedTokens(tab, p);
    PowFacts();
    StoiHex(TextCrc(tab, Text(p)), 4);
    StrToIntFormatInt(p.timestamp, -TwoTo63, TwoTo63 - 1);
    StrToIntFormatInt(p.commandId, -TwoTo31, TwoTo31 - 1);
    DecodeTokens(tab, ToPacket(tab, p), ts, id, p.message, h, Covered(p),
                 TextCrc(tab, Text(p)), p.timestamp, p.commandId);
  }

  /** The decoder's tokens and checksummed text for the encoder's output. */
  lemma EncodedTokens(tab: Table, p: PcPacket)
    requires Writable(p)
    ensures var content := Content(ToPacket(tab, p));
            GetlineSplit(content, ';') ==
              [FormatInt(p.timestamp), FormatInt(p.commandId), p.message, Hex4(TextCrc(tab, Text(p)))] &&
            BeforeLastPiece(content, ';') == Covered(p)
    ensures Text(p) == Covered(p) + ";"
  {
    var ts, id := FormatInt(p.timestamp), FormatInt(p.commandId);
    var h := Hex4(TextCrc(tab, Text(p)));
    EncodedParts(p, h);
    FormatIntNoSeparator(p.timestamp);
    FormatIntNoSeparator(p.commandId);
    TrailerPieces([ts, id, p.message], h, ';');
  }

  /** `FromPacket` once its four tokens and their conversions are known. */
  lemma DecodeTokens(tab: Table, raw: string, ts: string, id: string, msg: string, h: string,
                     covered: string, received: int, timestamp: int, commandId: int)
    requires Wrapped(raw, "Pc") && GetlineSplit(Content(raw), ';') == [ts, id, msg, h]
    requires BeforeLastPiece(Content(raw), ';') == covered
    requires HexOrZero(h) == Ok(received) && Stoll(ts) == Ok(timestamp) && Stoi(id, 10) == Ok(commandId)
    ensures FromPacket(tab, raw) ==
              if received == TextCrc(tab, covered) then Ok(PcPacket(timestamp, commandId, msg))
              else Err(CrcError(received, TextCrc(tab, covered)))
  {
    var parts := [ts, id, msg, h];
    assert parts[0] == ts && parts[1] == id && parts[2] == msg && parts[3] == h;
  }

  /** The encoder's text is the join of its three fields, then `;` and the checksum token. */
  lemma EncodedParts(p: PcPacket, h: string)
    ensures Text(p) + h == Join([FormatInt(p.timestamp), FormatInt(p.commandId), p.message], ';') + ";" + h
    ensures Covered(p) == Join([FormatInt(p.timestamp), FormatInt(p.commandId), p.message], ';')
  {
    JoinSmall(FormatInt(p.timestamp), FormatInt(p.commandId), p.message, ';');
  }

  /** A message holding one `;` gives five tokens, so the packet is rejected before its checksum is read. */
  lemma SemicolonInMessage(tab: Table, p: PcPacket, a: string, b: string)
    requires p.message == a + ";" + b && ';' !in a && ';' !in b
    requires -TwoTo63 <= p.timestamp < TwoTo63 && -TwoTo31 <= p.commandId < TwoTo31
    ensures FromPacket(tab, ToPacket(tab, p)) == Err(Malformed(BadParts))
  {
    var ts, id := FormatInt(p.timestamp), FormatInt(p.commandId);
    var h := Hex4(TextCrc(tab, Text(p)));
    FormatIntNoSeparator(p.timestamp);
    FormatIntNoSeparator(p.commandId);
    EncodedParts(p, h);
    JoinSpliceLast([ts, id], a, b, ';');
    assert [ts, id] + [p.message] == [ts, id, p.message];
    assert [ts, id] + [a, b] == [ts, id, a, b];
    TrailerPieces([ts, id, a, b], h, ';');
  }
}
