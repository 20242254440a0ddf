/** The settings packet `<Ps>timestamp;arguments;CRC</Ps>` (golang/v3/ps.go). */
module PsPacket {
  import opened Results
  import opened Strings
  import opened Numbers
  import opened Checksum
  import opened Envelope
  import opened Args
  import opened Floats

  /** The timestamp as Unix seconds and the device's current configuration. */
  datatype Packet = Packet(timestamp: Int64, params: ArgMap)

  /** The two fields read as the packet `p`. */
  predicate Reads(ft: FloatText, fields: seq<string>, p: Packet) {
    |fields| == 2 && ParseInt(fields[0], 10, 64) == Some(p.timestamp) && p.params == ParseArgs(ft, fields[1])
  }

  /** Part count, then the timestamp; the argument text always parses. */
  function Decode(ft: FloatText, fields: seq<string>): (r: Result<Packet, GoError>)
    ensures r.Ok? <==> |fields| == 2 && ParseInt(fields[0], 10, 64).Some?
    ensures r.Ok? ==> Reads(ft, fields, r.value)
    ensures |fields| != 2 ==> r == Err(BadPartCount(2))
    ensures |fields| == 2 && ParseInt(fields[0], 10, 64).None? ==> r == Err(BadField("timestamp"))
  {
    if |fields| != 2 then Err(BadPartCount(2))
    else
      match ParseInt(fields[0], 10, 64)
      case None => Err(BadField("timestamp"))
      case Some(t) =>
        PowFacts();
        Ok(Packet(t, ParseArgs(ft, fields[1])))
  }

  /** The checksum is checked before the fields are looked at. */
  function FromPacket(tab: Table, ft: FloatText, raw: string): (r: Result<Packet, GoError>)
    ensures r.Ok? ==> Sealed(tab, raw, "Ps", Payload(raw)) && Reads(ft, SealedFields(Payload(raw)), r.value)
    ensures Open(tab, raw, "Ps").Err? ==> r == Err(Open(tab, raw, "Ps").error)
    ensures !Wrapped(raw, "Ps") ==> r == Err(BadEnvelope("Ps"))
  {
    OpenSealed(tab, raw, "Ps");
    var fields :- Open(tab, raw, "Ps");
    Decode(ft, fields)
  }

  /**
   * `%d;%s;` with the arguments joined by `,` in the map's iteration order,
   * which Go leaves unspecified and which is therefore a parameter.
   */
  function ToPacket(tab: Table, ft: FloatText, p: Packet, order: seq<string>): (r: string)
    requires IsOrder(order, p.params)
    ensures Payload(r) == FormatInt(p.timestamp) + ";" + EncodeArgs(ft, PercentF, p.params, order) + ";"
    ensures Sealed(tab, r, "Ps", Payload(r)) && Canonical(r)
  {
    var fields := [FormatInt(p.timestamp), EncodeArgs(ft, PercentF, p.params, order)];
    CloseSealed(tab, "Ps", fields);
    CanonicalClose(tab, "Ps", fields);
    JoinSmall(fields[0], fields[1], fields[1], ';');
    Close(tab, "Ps", fields)
  }

  /** Every sealed frame whose fields read as `p` decodes to `p`. */
  lemma FromPacketComplete(tab: Table, ft: FloatText, raw: string, p: Packet)
    requires Sealed(tab, raw, "Ps", Payload(raw)) && Reads(ft, SealedFields(Payload(raw)), p)
    ensures FromPacket(tab, ft, raw) == Ok(p)
  {
    OpenSealed(tab, raw, "Ps");
  }

  /** A frame `Close` makes of `;`-free fields decodes as those fields do. */
  lemma FromClose(tab: Table, ft: FloatText, fields: seq<string>)
    requires |fields| >= 1 && forall t <- fields :: ';' !in t
    ensures FromPacket(tab, ft, Close(tab, "Ps", fields)) == Decode(ft, fields)
  {
    OpenClose(tab, "Ps", fields);
  }

  /**
   * Settings whose every entry is stable and free of `;` survive encoding
   * and decoding, whatever the iteration order.
   */
  lemma RoundTrip(tab: Table, ft: FloatText, p: Packet, order: seq<string>)
    requires IsOrder(order, p.params)
    requires forall k <- p.params :: Stable(ft, PercentF, k, p.params[k]) && ';' !in k && ';' !in Render(ft, PercentF, p.params[k])
    ensures FromPacket(tab, ft, ToPacket(tab, ft, p, order)) == Ok(p)
  {
    var fields := [FormatInt(p.timestamp), EncodeArgs(ft, PercentF, p.params, order)];
    FormatIntNoSeparator(p.timestamp);
    EncodeArgsFree(ft, PercentF, p.params, order, ';');
    FromClose(tab, ft, fields);
    PowFacts();
    ParseIntFormatInt(p.timestamp, 64);
    ParseEncode(ft, PercentF, p.params, order);
  }

  /**
   * A canonical frame is re-encoded to itself when its timestamp is written
   * as `%d` writes it and its argument text is the encoder's text for some
   * iteration order.
   */
  lemma Reencode(tab: Table, ft: FloatText, raw: string, p: Packet, order: seq<string>)
    requires FromPacket(tab, ft, raw) == Ok(p) && Canonical(raw) && IsOrder(order, p.params)
    requires var fields := SealedFields(Payload(raw));
             CanonicalDecimal(fields[0]) && fields[1] == EncodeArgs(ft, PercentF, p.params, order)
    ensures ToPacket(tab, ft, p, order) == raw
  {
    OpenSealed(tab, raw, "Ps");
    ReencodeFields(ft, SealedFields(Payload(raw)), p, order);
    CloseOpen(tab, raw, "Ps");
  }

  /** Fields that read as `p`, in the encoder's spelling, are the encoder's fields. */
  lemma ReencodeFields(ft: FloatText, fields: seq<string>, p: Packet, order: seq<string>)
    requires Reads(ft, fields, p) && IsOrder(order, p.params)
    requires CanonicalDecimal(fields[0]) && fields[1] == EncodeArgs(ft, PercentF, p.params, order)
    ensures fields == [FormatInt(p.timestamp), EncodeArgs(ft, PercentF, p.params, order)]
  {
    AtoiCanonical(fields[0], p.timestamp);
  }
}
