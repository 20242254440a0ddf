/** The media packet `<Pm>filename;content type;base64 data;CRC</Pm>` (golang/v2/pm.go). */
module PmPacket {
  import opened Results
  import opened Strings
  import opened Checksum
  import opened Envelope

  /**
   * Standard base64 (`base64.StdEncoding`) is a library the packet calls
   * into; it is a parameter here.
   */
  datatype Base64 = Base64(encode: seq<Byte> -> string, decode: string -> Option<seq<Byte>>)

  /** `EncodeToString` of some bytes. */
  function ToBase64(b64: Base64, data: seq<Byte>): string {
    b64.encode(data)
  }

  /** `DecodeString` of some text. */
  function FromBase64(b64: Base64, t: string): Option<seq<Byte>> {
    b64.decode(t)
  }

  /** What the packet relies on: decoding undoes encoding, and encoded text has no `;`. */
  ghost predicate Lawful(b64: Base64) {
    forall data: seq<Byte> ::
      FromBase64(b64, ToBase64(b64, data)) == Some(data) && ';' !in ToBase64(b64, data)
  }

  datatype Packet = Packet(filename: string, contentType: string, data: seq<Byte>)

  /** The three fields read as the packet `p`. */
  predicate Reads(b64: Base64, fields: seq<string>, p: Packet) {
    |fields| == 3 && fields[0] == p.filename && fields[1] == p.contentType &&
    FromBase64(b64, fields[2]) == Some(p.data)
  }

  /** Part count first, then the base64 data; the two names are taken verbatim. */
  function Decode(b64: Base64, fields: seq<string>): (r: Result<Packet, GoError>)
    ensures r.Ok? <==> |fields| == 3 && FromBase64(b64, fields[2]).Some?
    ensures r.Ok? ==> Reads(b64, fields, r.value)
    ensures |fields| != 3 ==> r == Err(BadPartCount(3))
    ensures |fields| == 3 && FromBase64(b64, fields[2]).None? ==> r == Err(BadBase64)
  {
    if |fields| != 3 then Err(BadPartCount(3))
    else
      match FromBase64(b64, fields[2])
      case None => Err(BadBase64)
      case Some(data) => Ok(Packet(fields[0], fields[1], data))
  }

  /** The checksum is checked before the fields are looked at. */
  function FromPacket(tab: Table, b64: Base64, raw: string): (r: Result<Packet, GoError>)
    ensures r.Ok? ==> Sealed(tab, raw, "Pm", Payload(raw)) && Reads(b64, SealedFields(Payload(raw)), r.value)
    ensures Open(tab, raw, "Pm").Err? ==> r == Err(Open(tab, raw, "Pm").error)
    ensures !Wrapped(raw, "Pm") ==> r == Err(BadEnvelope("Pm"))
  {
    OpenSealed(tab, raw, "Pm");
    var fields :- Open(tab, raw, "Pm");
    Decode(b64, fields)
  }

  /** The three fields, each followed by `;`, and the checksum of that text. */
  function ToPacket(tab: Table, b64: Base64, p: Packet): (r: string)
    ensures Payload(r) == p.filename + ";" + p.contentType + ";" + ToBase64(b64, p.data) + ";"
    ensures Sealed(tab, r, "Pm", Payload(r)) && Canonical(r)
  {
    var fields := [p.filename, p.contentType, ToBase64(b64, p.data)];
    CloseSealed(tab, "Pm", fields);
    CanonicalClose(tab, "Pm", fields);
    JoinSmall(fields[0], fields[1], fields[2], ';');
    Close(tab, "Pm", fields)
  }

  /** Every sealed frame whose fields read as `p` decodes to `p`. */
  lemma FromPacketComplete(tab: Table, b64: Base64, raw: string, p: Packet)
    requires Sealed(tab, raw, "Pm", Payload(raw)) && Reads(b64, SealedFields(Payload(raw)), p)
    ensures FromPacket(tab, b64, raw) == Ok(p)
  {
    OpenSealed(tab, raw, "Pm");
  }

  /** A frame `Close` makes of `;`-free fields decodes as those fields do. */
  lemma FromClose(tab: Table, b64: Base64, fields: seq<string>)
    requires |fields| >= 1 && forall t <- fields :: ';' !in t
    ensures FromPacket(tab, b64, Close(tab, "Pm", fields)) == Decode(b64, fields)
  {
    OpenClose(tab, "Pm", fields);
  }

  /** With a lawful base64 and `;`-free names, decoding undoes encoding. */
  lemma RoundTrip(tab: Table, b64: Base64, p: Packet)
    requires Lawful(b64) && ';' !in p.filename && ';' !in p.contentType
    ensures FromPacket(tab, b64, ToPacket(tab, b64, p)) == Ok(p)
  {
    var fields := [p.filename, p.contentType, ToBase64(b64, p.data)];
    assert ';' !in fields[2] && FromBase64(b64, fields[2]) == Some(p.data);
    FromClose(tab, b64, fields);
  }

  /**
   * A canonical frame that decodes is re-encoded to itself when its data
   * field is the encoder's own text for the bytes it decodes to.
   */
  lemma Reencode(tab: Table, b64: Base64, raw: string, p: Packet)
    requires FromPacket(tab, b64, raw) == Ok(p) && Canonical(raw)
    requires SealedFields(Payload(raw))[2] == ToBase64(b64, p.data)
    ensures ToPacket(tab, b64, p) == raw
  {
    OpenSealed(tab, raw, "Pm");
    var fields := Open(tab, raw, "Pm").value;
    assert Decode(b64, fields) == Ok(p);
    assert fields == [p.filename, p.contentType, ToBase64(b64, p.data)];
    CloseOpen(tab, raw, "Pm");
  }

  /** A `;` in the file name adds a part, and the frame is rejected. */
  lemma SemicolonInFilename(tab: Table, b64: Base64, p: Packet, a: string, b: string)
    requires Lawful(b64) && ';' !in a && ';' !in b && ';' !in p.contentType
    requires p.filename == a + ";" + b
    ensures FromPacket(tab, b64, ToPacket(tab, b64, p)) == Err(BadPartCount(3))
  {
    var enc := ToBase64(b64, p.data);
    assert ';' !in enc;
    assert Join([p.filename, p.contentType, enc], ';') == Join([a, b, p.contentType, enc], ';') by {
      JoinSmall(p.filename, p.contentType, enc, ';');
      JoinFour(a, b, p.contentType, enc, ';');
    }
    CloseSameJoin(tab, "Pm", [p.filename, p.contentType, enc], [a, b, p.contentType, enc]);
    FromClose(tab, b64, [a, b, p.contentType, enc]);
  }
}
