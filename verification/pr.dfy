/** The synchronisation packet `<Pr>;CRC</Pr>` (golang/v2/pr.go), which carries no fields. */
module PrPacket {
  import opened Results
  import opened Numbers
  import opened Checksum
  import opened Envelope

  datatype Packet = Packet

  /** Accepts exactly the frames with one `;` whose second token is the checksum of ";". */
  function FromPacket(tab: Table, raw: string): (r: Result<Packet, GoError>)
    ensures r.Ok? <==> MarkerFrame(tab, raw, "Pr")
    ensures !Wrapped(raw, "Pr") ==> r == Err(BadEnvelope("Pr"))
  {
    var _ :- OpenMarker(tab, raw, "Pr");
    Ok(Packet)
  }

  function ToPacket(tab: Table, p: Packet): (r: string)
    ensures MarkerFrame(tab, r, "Pr") && Canonical(r)
  {
    OpenMarkerClose(tab, "Pr");
    CanonicalClose(tab, "Pr", [""]);
    CloseMarker(tab, "Pr")
  }

  lemma RoundTrip(tab: Table, p: Packet)
    ensures FromPacket(tab, ToPacket(tab, p)) == Ok(p)
  {
    OpenMarkerClose(tab, "Pr");
  }

  /** Whatever `;`-free text precedes the checksum is accepted and dropped. */
  lemma IgnoresFirstToken(tab: Table, junk: string)
    requires ';' !in junk
    ensures FromPacket(tab, Wrap("Pr", junk + ";" + Hex4(TextCrc(tab, ";")))) == Ok(Packet)
  {
    MarkerIgnoresFirst(tab, "Pr", junk);
  }
}
