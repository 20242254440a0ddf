/** The error packet `<Ar>reason;CRC</Ar>` (golang/v2/ar.go). */
module ArPacket {
  import opened Results
  import opened Strings
  import opened Checksum
  import opened Envelope

  datatype Packet = Packet(reason: string)

  /** Accepts exactly the trailed frames of one `;`-free field, kept verbatim as the reason. */
  function FromPacket(tab: Table, raw: string): (r: Result<Packet, GoError>)
    ensures r.Ok? ==> ';' !in r.value.reason
    ensures r.Ok? ==> Trailed(tab, raw, "Ar", r.value.reason + ";")
    ensures !Wrapped(raw, "Ar") ==> r == Err(BadEnvelope("Ar"))
  {
    var fields :- OpenTrailer(tab, raw, "Ar", 1);
    assert Join(fields, ';') == fields[0];
    Ok(Packet(fields[0]))
  }

  function ToPacket(tab: Table, p: Packet): (r: string)
    ensures Trailed(tab, r, "Ar", p.reason + ";") && Canonical(r)
  {
    TrailedClose(tab, "Ar", [p.reason]);
    CanonicalClose(tab, "Ar", [p.reason]);
    Close(tab, "Ar", [p.reason])
  }

  /** Every trailed frame decodes to its reason. */
  lemma FromPacketComplete(tab: Table, raw: string, p: Packet)
    requires ';' !in p.reason
    requires Trailed(tab, raw, "Ar", p.reason + ";")
    ensures FromPacket(tab, raw) == Ok(p)
  {
    assert Join([p.reason], ';') == p.reason;
    OpenTrailerComplete(tab, raw, "Ar", [p.reason]);
  }

  lemma RoundTrip(tab: Table, p: Packet)
    requires ';' !in p.reason
    ensures FromPacket(tab, ToPacket(tab, p)) == Ok(p)
  {
    FromPacketComplete(tab, ToPacket(tab, p), p);
  }

  /** A canonical frame that decodes is re-encoded character for character. */
  lemma Reencode(tab: Table, raw: string)
    requires FromPacket(tab, raw).Ok? && Canonical(raw)
    ensures ToPacket(tab, FromPacket(tab, raw).value) == raw
  {
    CloseOpenTrailer(tab, raw, "Ar", 1);
  }
}
