/** The authentication packet `<Pa>ident;password;CRC</Pa>` (golang/v2/pa.go). */
module PaPacket {
  import opened Results
  import opened Strings
  import opened Numbers
  import opened Checksum
  import opened Envelope

  datatype Packet = Packet(ident: string, password: string)

  /** The text the checksum covers: each field followed by `;`. */
  function Content(p: Packet): string {
    p.ident + ";" + p.password + ";"
  }

  lemma ContentIsJoin(p: Packet)
    ensures Content(p) == Join([p.ident, p.password], ';') + ";"
  {}

  /** Accepts exactly the trailed frames of two `;`-free fields; the fields are kept verbatim. */
  function FromPacket(tab: Table, raw: string): (r: Result<Packet, GoError>)
    ensures r.Ok? ==> ';' !in r.value.ident && ';' !in r.value.password
    ensures r.Ok? ==> Trailed(tab, raw, "Pa", Content(r.value))
    ensures !Wrapped(raw, "Pa") ==> r == Err(BadEnvelope("Pa"))
  {
    var fields :- OpenTrailer(tab, raw, "Pa", 2);
    var p := Packet(fields[0], fields[1]);
    assert fields == [p.ident, p.password];
    ContentIsJoin(p);
    Ok(p)
  }

  function ToPacket(tab: Table, p: Packet): (r: string)
    ensures Trailed(tab, r, "Pa", Content(p)) && Canonical(r)
  {
    ContentIsJoin(p);
    TrailedClose(tab, "Pa", [p.ident, p.password]);
    CanonicalClose(tab, "Pa", [p.ident, p.password]);
    Close(tab, "Pa", [p.ident, p.password])
  }

  /** Every trailed frame decodes to its fields. */
  lemma FromPacketComplete(tab: Table, raw: string, p: Packet)
    requires ';' !in p.ident && ';' !in p.password
    requires Trailed(tab, raw, "Pa", Content(p))
    ensures FromPacket(tab, raw) == Ok(p)
  {
    ContentIsJoin(p);
    OpenTrailerComplete(tab, raw, "Pa", [p.ident, p.password]);
  }

  lemma RoundTrip(tab: Table, p: Packet)
    requires ';' !in p.ident && ';' !in p.password
    ensures FromPacket(tab, ToPacket(tab, p)) == Ok(p)
  {
    FromPacketComplete(tab, ToPacket(tab, p), p);
  }

  /** A canonical frame that decodes is re-encoded character for character. */
  lemma Reencode(tab: Table, raw: string)
    requires FromPacket(tab, raw).Ok? && Canonical(raw)
    ensures ToPacket(tab, FromPacket(tab, raw).value) == raw
  {
    DecodedFields(tab, raw);
    CloseOpenTrailer(tab, raw, "Pa", 2);
  }

  /** A frame that decodes was opened into exactly the packet's two fields. */
  lemma DecodedFields(tab: Table, raw: string)
    requires FromPacket(tab, raw).Ok?
    ensures OpenTrailer(tab, raw, "Pa", 2).Ok?
    ensures var p := FromPacket(tab, raw).value; OpenTrailer(tab, raw, "Pa", 2).value == [p.ident, p.password]
  {
  }

  /** A `;` inside the ident adds a part, and the encoder's own output is rejected. */
  lemma SemicolonInField(tab: Table, a: string, b: string, c: string)
    requires ';' !in a && ';' !in b && ';' !in c
    ensures FromPacket(tab, ToPacket(tab, Packet(a + ";" + b, c))) == Err(BadPartCount(3))
  {
    var raw := ToPacket(tab, Packet(a + ";" + b, c));
    JoinSmall(a, b, c, ';');
    JoinSmall(a + ";" + b, c, c, ';');
    CloseSameJoin(tab, "Pa", [a + ";" + b, c], [a, b, c]);
    TrailedClose(tab, "Pa", [a, b, c]);
    TrailedParts(tab, raw, "Pa", [a, b, c]);
    assert Unwrap(raw, "Pa").value == raw[4..|raw| - 5];
    assert SplitBody(raw, "Pa", 3) == Err(BadPartCount(3));
  }
}
