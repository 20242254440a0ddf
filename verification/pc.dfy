/** The command response `<Pc>timestamp;command id;message;CRC</Pc>` (golang/v2/pc.go). */
module PcPacket {
  import opened Results
  import opened Strings
  import opened Numbers
  import opened Checksum
  import opened Envelope

  /** Timestamp as Unix seconds; the command id is a Go `int`, 64 bits wide. */
  datatype Packet = Packet(timestamp: Int64, commandId: Int64, message: string)

  /** The three fields read as the packet `p`. */
  predicate Reads(fields: seq<string>, p: Packet) {
    |fields| == 3 && ParseInt(fields[0], 10, 64) == Some(p.timestamp) &&
    Atoi(fields[1]) == Some(p.commandId) && fields[2] == p.message
  }

  /** The field conversions, in source order: part count, timestamp, command id. */
  function Decode(fields: seq<string>): (r: Result<Packet, GoError>)
    ensures r.Ok? <==> |fields| == 3 && ParseInt(fields[0], 10, 64).Some? && Atoi(fields[1]).Some?
    ensures r.Ok? ==> Reads(fields, r.value)
    ensures |fields| != 3 ==> r == Err(BadPartCount(3))
    ensures |fields| == 3 && ParseInt(fields[0], 10, 64).None? ==> r == Err(BadField("timestamp"))
  {
    if |fields| != 3 then Err(BadPartCount(3))
    else
      match ParseInt(fields[0], 10, 64)
      case None => Err(BadField("timestamp"))
      case Some(t) =>
        PowFacts();
        match Atoi(fields[1])
        case None => Err(BadField("command id"))
        case Some(c) => Ok(Packet(t, c, fields[2]))
  }

  /**
   * The checksum is checked before any field: a frame whose checksum fails
   * is rejected as such whatever its fields hold.
   */
  function FromPacket(tab: Table, raw: string): (r: Result<Packet, GoError>)
    ensures r.Ok? ==> Sealed(tab, raw, "Pc", Payload(raw)) && Reads(SealedFields(Payload(raw)), r.value)
    ensures Open(tab, raw, "Pc").Err? ==> r == Err(Open(tab, raw, "Pc").error)
    ensures !Wrapped(raw, "Pc") ==> r == Err(BadEnvelope("Pc"))
  {
    OpenSealed(tab, raw, "Pc");
    var fields :- Open(tab, raw, "Pc");
    Decode(fields)
  }

  /** `%d;%d;%s;` and the checksum of that text. */
  function ToPacket(tab: Table, p: Packet): (r: string)
    ensures Payload(r) == FormatInt(p.timestamp) + ";" + FormatInt(p.commandId) + ";" + p.message + ";"
    ensures Sealed(tab, r, "Pc", Payload(r)) && Canonical(r)
  {
    var fields := [FormatInt(p.timestamp), FormatInt(p.commandId), p.message];
    CloseSealed(tab, "Pc", fields);
    CanonicalClose(tab, "Pc", fields);
    JoinSmall(fields[0], fields[1], fields[2], ';');
    Close(tab, "Pc", fields)
  }

  /** Every sealed frame whose fields read as `p` decodes to `p`. */
  lemma FromPacketComplete(tab: Table, raw: string, p: Packet)
    requires Sealed(tab, raw, "Pc", Payload(raw)) && Reads(SealedFields(Payload(raw)), p)
    ensures FromPacket(tab, raw) == Ok(p)
  {
    OpenSealed(tab, raw, "Pc");
  }

  /** The fields `ToPacket` writes read back as the packet. */
  lemma DecodeFields(p: Packet)
    ensures Decode([FormatInt(p.timestamp), FormatInt(p.commandId), p.message]) == Ok(p)
  {
    PowFacts();
    ParseIntFormatInt(p.timestamp, 64);
    AtoiFormatInt(p.commandId);
  }

  /** A frame `Close` makes of `;`-free fields decodes as those fields do. */
  lemma FromClose(tab: Table, fields: seq<string>)
    requires |fields| >= 1 && forall t <- fields :: ';' !in t
    ensures FromPacket(tab, Close(tab, "Pc", fields)) == Decode(fields)
  {
    OpenClose(tab, "Pc", fields);
  }

  /** Messages without `;` survive encoding and decoding. */
  lemma RoundTrip(tab: Table, p: Packet)
    requires ';' !in p.message
    ensures FromPacket(tab, ToPacket(tab, p)) == Ok(p)
  {
    var fields := [FormatInt(p.timestamp), FormatInt(p.commandId), p.message];
    FormatIntNoSeparator(p.timestamp);
    FormatIntNoSeparator(p.commandId);
    FromClose(tab, fields);
    DecodeFields(p);
  }

  /**
   * A canonical frame that decodes is re-encoded to itself when its two
   * numbers are written as `%d` writes them (no `+`, no leading zero).
   */
  lemma Reencode(tab: Table, raw: string, p: Packet)
    requires FromPacket(tab, raw) == Ok(p) && Canonical(raw)
    requires var fields := SealedFields(Payload(raw));
             CanonicalDecimal(fields[0]) && CanonicalDecimal(fields[1])
    ensures ToPacket(tab, p) == raw
  {
    OpenSealed(tab, raw, "Pc");
    var fields := Open(tab, raw, "Pc").value;
    assert Decode(fields) == Ok(p);
    DecodeCanonical(fields, p);
    CloseOpen(tab, raw, "Pc");
  }

  /** Fields that decode, with canonical numbers, are the ones `ToPacket` writes. */
  lemma DecodeCanonical(fields: seq<string>, p: Packet)
    requires Decode(fields) == Ok(p) && CanonicalDecimal(fields[0]) && CanonicalDecimal(fields[1])
    ensures fields == [FormatInt(p.timestamp), FormatInt(p.commandId), p.message]
  {
    AtoiCanonical(fields[0], p.timestamp);
    AtoiCanonical(fields[1], p.commandId);
  }

  /** A `;` in the message adds a part, and the frame is rejected. */
  lemma SemicolonInMessage(tab: Table, p: Packet, a: string, b: string)
    requires ';' !in a && ';' !in b && p.message == a + ";" + b
    ensures FromPacket(tab, ToPacket(tab, p)) == Err(BadPartCount(3))
  {
    var ts, id := FormatInt(p.timestamp), FormatInt(p.commandId);
    FormatIntNoSeparator(p.timestamp);
    FormatIntNoSeparator(p.commandId);
    SplicedJoin(ts, id, a, b);
    CloseSameJoin(tab, "Pc", [ts, id, p.message], [ts, id, a, b]);
    FreeFour(ts, id, a, b);
    FromClose(tab, [ts, id, a, b]);
  }

  lemma SplicedJoin(ts: string, id: string, a: string, b: string)
    ensures Join([ts, id, a + ";" + b], ';') == Join([ts, id, a, b], ';')
  {
    JoinSpliceLast([ts, id], a, b, ';');
    assert [ts, id] + [a + ";" + b] == [ts, id, a + ";" + b];
    assert [ts, id] + [a, b] == [ts, id, a, b];
  }

  lemma FreeFour(t0: string, t1: string, t2: string, t3: string)
    requires ';' !in t0 && ';' !in t1 && ';' !in t2 && ';' !in t3
    ensures |[t0, t1, t2, t3]| >= 1 && forall t <- [t0, t1, t2, t3] :: ';' !in t
  {
  }
}
