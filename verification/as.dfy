/** The authentication-accepted packet `<As>;CRC</As>` (golang/v3/as.go), which carries no fields. */
module AsPacket {
  import opened Results
  import opened Numbers
  import opened Checksum
  import opened Envelope

  datatype Packet = Packet

  /** Accepts exactly the frames with one `;` whose second token is the checksum of ";". */
  function FromPacket(tab: Table, raw: string): (r: Result<Packet, GoError>)
    ensures r.Ok? <==> MarkerFrame(tab, raw, "As")
    ensures !Wrapped(raw, "As") ==> r == Err(BadEnvelope("As"))
  {
    var _ :- OpenMarker(tab, raw, "As");
    Ok(Packet)
  }

  function ToPacket(tab: Table, p: Packet): (r: string)
    ensures MarkerFrame(tab, r, "As") && Canonical(r)
  {
    OpenMarkerClose(tab, "As");
    CanonicalClose(tab, "As", [""]);
    CloseMarker(tab, "As")
  }

  lemma RoundTrip(tab: Table, p: Packet)
    ensures FromPacket(tab, ToPacket(tab, p)) == Ok(p)
  {
    OpenMarkerClose(tab, "As");
  }

  /** Whatever `;`-free text precedes the checksum is accepted and dropped. */
  lemma IgnoresFirstToken(tab: Table, junk: string)
    requires ';' !in junk
    ensures FromPacket(tab, Wrap("As", junk + ";" + Hex4(TextCrc(tab, ";")))) == Ok(Packet)
  {
    MarkerIgnoresFirst(tab, "As", junk);
  }
}
