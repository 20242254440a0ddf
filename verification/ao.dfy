/** The success packet `<Ao>timestamp;CRC</Ao>` (golang/v2/ao.go). */
module AoPacket {
  import opened Results
  import opened Strings
  import opened Numbers
  import opened Checksum
  import opened Envelope

  /** The response time as Unix seconds (`time.Unix(ts, 0)` and `Unix()` convert without loss). */
  datatype Packet = Packet(timestamp: Int64)

  /**
   * Checksum first, then the timestamp: a frame whose checksum fails is
   * rejected as such even when its timestamp is not a number.
   */
  function FromPacket(tab: Table, raw: string): (r: Result<Packet, GoError>)
    ensures r.Ok? ==> exists text :: Trailed(tab, raw, "Ao", text + ";") && ParseInt(text, 10, 64) == Some(r.value.timestamp)
    ensures r == Err(BadField("timestamp")) ==> exists text :: Trailed(tab, raw, "Ao", text + ";") && ParseInt(text, 10, 64).None?
    ensures !Wrapped(raw, "Ao") ==> r == Err(BadEnvelope("Ao"))
  {
    var fields :- OpenTrailer(tab, raw, "Ao", 1);
    assert Join(fields, ';') == fields[0];
    PowFacts();
    match ParseInt(fields[0], 10, 64)
    case None => Err(BadField("timestamp"))
    case Some(t) => Ok(Packet(t))
  }

  function ToPacket(tab: Table, p: Packet): (r: string)
    ensures Trailed(tab, r, "Ao", FormatInt(p.timestamp) + ";") && Canonical(r)
  {
    TrailedClose(tab, "Ao", [FormatInt(p.timestamp)]);
    CanonicalClose(tab, "Ao", [FormatInt(p.timestamp)]);
    Close(tab, "Ao", [FormatInt(p.timestamp)])
  }

  /** Every trailed frame of a decimal timestamp decodes to that timestamp. */
  lemma FromPacketComplete(tab: Table, raw: string, text: string, t: Int64)
    requires ';' !in text && ParseInt(text, 10, 64) == Some(t)
    requires Trailed(tab, raw, "Ao", text + ";")
    ensures FromPacket(tab, raw) == Ok(Packet(t))
  {
    assert Join([text], ';') == text;
    OpenTrailerComplete(tab, raw, "Ao", [text]);
  }

  lemma RoundTrip(tab: Table, p: Packet)
    ensures FromPacket(tab, ToPacket(tab, p)) == Ok(p)
  {
    var text := FormatInt(p.timestamp);
    assert ';' !in text by {
      if p.timestamp < 0 {
        assert text == [text[0]] + text[1..];
      }
    }
    PowFacts();
    ParseIntFormatInt(p.timestamp, 64);
    FromPacketComplete(tab, ToPacket(tab, p), text, p.timestamp);
  }

  /** An explicit `+` sign is accepted but not written back: decoding forgets the spelling. */
  lemma SignedTimestamp(tab: Table, t: Int64)
    requires t >= 0
    ensures FromPacket(tab, Close(tab, "Ao", ["+" + FormatInt(t)])) == Ok(Packet(t))
    ensures ToPacket(tab, Packet(t)) != Close(tab, "Ao", ["+" + FormatInt(t)])
  {
    var text := "+" + FormatInt(t);
    PlusRead(t);
    TrailedClose(tab, "Ao", [text]);
    assert Join([text], ';') == text;
    FromPacketComplete(tab, Close(tab, "Ao", [text]), text, t);
    UnsignedWritten(tab, t);
  }

  /** `+` followed by the decimal digits of `t` reads as `t`. */
  lemma PlusRead(t: Int64)
    requires t >= 0
    ensures ParseInt("+" + FormatInt(t), 10, 64) == Some(t) && ';' !in "+" + FormatInt(t)
  {
    var s := "+" + FormatInt(t);
    assert s[1..] == FormatInt(t);
    assert s[0] == '+';
    PowFacts();
  }

  /** The encoder writes a non-negative timestamp without a sign. */
  lemma UnsignedWritten(tab: Table, t: Int64)
    requires t >= 0
    ensures ToPacket(tab, Packet(t)) != Close(tab, "Ao", ["+" + FormatInt(t)])
  {
    var text := "+" + FormatInt(t);
    assert IsDecimal(FormatInt(t)[0]);
    CloseStart(tab, "Ao", FormatInt(t));
    CloseStart(tab, "Ao", text);
  }
}
