/** The authorisation-request packet `<Au>;CRC</Au>` (golang/v2/au.go), which carries no fields. */
module AuPacket {
  import opened Results
  import opened Numbers
  import opened Checksum
  import opened Envelope

  datatype Packet = Packet

  /** Accepts exactly the frames with one `;` whose second token is the checksum of ";". */
  function FromPacket(tab: Table, raw: string): (r: Result<Packet, GoError>)
    ensures r.Ok? <==> MarkerFrame(tab, raw, "Au")
    ensures !Wrapped(raw, "Au") ==> r == Err(BadEnvelope("Au"))
  {
    var _ :- OpenMarker(tab, raw, "Au");
    Ok(Packet)
  }

  function ToPacket(tab: Table, p: Packet): (r: string)
    ensures MarkerFrame(tab, r, "Au") && Canonical(r)
  {
    OpenMarkerClose(tab, "Au");
    CanonicalClose(tab, "Au", [""]);
    CloseMarker(tab, "Au")
  }

  lemma RoundTrip(tab: Table, p: Packet)
    ensures FromPacket(tab, ToPacket(tab, p)) == Ok(p)
  {
    OpenMarkerClose(tab, "Au");
  }

  /** Whatever `;`-free text precedes the checksum is accepted and dropped. */
  lemma IgnoresFirstToken(tab: Table, junk: string)
    requires ';' !in junk
    ensures FromPacket(tab, Wrap("Au", junk + ";" + Hex4(TextCrc(tab, ";")))) == Ok(Packet)
  {
    MarkerIgnoresFirst(tab, "Au", junk);
  }
}
