/**
 * The identification packet
 * `<Pi>ident;firmware id;build;device id;hardware id;model id;branch;fota;CRC</Pi>`
 * (golang/v2/pi.go).
 */
module PiPacket {
  import opened Results
  import opened Strings
  import opened Numbers
  import opened Checksum
  import opened Envelope

  /** The firmware branch is free text; these are the two values the package names. */
  const Development: string := "1"
  const Stable: string := "0"

  datatype Packet = Packet(
    ident: string,
    firmwareId: string,
    firmwareBuild: Int64,
    deviceId: Int64,
    hardwareId: Int64,
    modelId: Int64,
    firmwareBranch: string,
    fotaEnabled: bool)

  /** Only `true` and `1` switch FOTA on; any other text switches it off. */
  predicate FotaText(t: string) { t == "true" || t == "1" }

  /** The eight fields read as the packet `p`. */
  predicate Reads(fields: seq<string>, p: Packet) {
    |fields| == 8 && fields[0] == p.ident && fields[1] == p.firmwareId &&
    Atoi(fields[2]) == Some(p.firmwareBuild) && Atoi(fields[3]) == Some(p.deviceId) &&
    Atoi(fields[4]) == Some(p.hardwareId) && Atoi(fields[5]) == Some(p.modelId) &&
    fields[6] == p.firmwareBranch && p.fotaEnabled == FotaText(fields[7])
  }

  /** The four integers, in source order; the first that does not convert names the error. */
  function Decode(fields: seq<string>): (r: Result<Packet, GoError>)
    ensures r.Ok? <==> |fields| == 8 && Atoi(fields[2]).Some? && Atoi(fields[3]).Some? &&
                       Atoi(fields[4]).Some? && Atoi(fields[5]).Some?
    ensures r.Ok? ==> Reads(fields, r.value)
    ensures |fields| != 8 ==> r == Err(BadPartCount(8))
    ensures |fields| == 8 && Atoi(fields[2]).None? ==> r == Err(BadField("firmware build"))
    ensures |fields| == 8 && Atoi(fields[2]).Some? && Atoi(fields[3]).None? ==>
              r == Err(BadField("device id"))
    ensures |fields| == 8 && Atoi(fields[2]).Some? && Atoi(fields[3]).Some? && Atoi(fields[4]).None? ==>
              r == Err(BadField("hardware id"))
    ensures |fields| == 8 && Atoi(fields[2]).Some? && Atoi(fields[3]).Some? &&
            Atoi(fields[4]).Some? && Atoi(fields[5]).None? ==>
              r == Err(BadField("model id"))
  {
    if |fields| != 8 then Err(BadPartCount(8))
    else
      match Atoi(fields[2])
      case None => Err(BadField("firmware build"))
      case Some(build) =>
        match Atoi(fields[3])
        case None => Err(BadField("device id"))
        case Some(device) =>
          match Atoi(fields[4])
          case None => Err(BadField("hardware id"))
          case Some(hardware) =>
            match Atoi(fields[5])
            case None => Err(BadField("model id"))
            case Some(model) =>
              Ok(Packet(fields[0], fields[1], build, device, hardware, model,
                        fields[6], FotaText(fields[7])))
  }

  /** The checksum is checked before the fields are looked at. */
  function FromPacket(tab: Table, raw: string): (r: Result<Packet, GoError>)
    ensures r.Ok? ==> Sealed(tab, raw, "Pi", Payload(raw)) && Reads(SealedFields(Payload(raw)), r.value)
    ensures Open(tab, raw, "Pi").Err? ==> r == Err(Open(tab, raw, "Pi").error)
    ensures !Wrapped(raw, "Pi") ==> r == Err(BadEnvelope("Pi"))
  {
    OpenSealed(tab, raw, "Pi");
    var fields :- Open(tab, raw, "Pi");
    Decode(fields)
  }

  /** The texts the encoder writes: numbers with `%d`, FOTA as `true` or `false`. */
  function Fields(p: Packet): (r: seq<string>)
    ensures |r| == 8
  {
    [p.ident, p.firmwareId, FormatInt(p.firmwareBuild), FormatInt(p.deviceId),
     FormatInt(p.hardwareId), FormatInt(p.modelId), p.firmwareBranch,
     if p.fotaEnabled then "true" else "false"]
  }

  /** The fields, each followed by `;`, and the checksum of that text. */
  function ToPacket(tab: Table, p: Packet): (r: string)
    ensures Payload(r) == Join(Fields(p), ';') + ";"
    ensures Sealed(tab, r, "Pi", Payload(r)) && Canonical(r)
  {
    CloseSealed(tab, "Pi", Fields(p));
    CanonicalClose(tab, "Pi", Fields(p));
    Close(tab, "Pi", Fields(p))
  }

  /** Every sealed frame whose fields read as `p` decodes to `p`. */
  lemma FromPacketComplete(tab: Table, raw: string, p: Packet)
    requires Sealed(tab, raw, "Pi", Payload(raw)) && Reads(SealedFields(Payload(raw)), p)
    ensures FromPacket(tab, raw) == Ok(p)
  {
    OpenSealed(tab, raw, "Pi");
  }

  /** The fields `ToPacket` writes read back as the packet. */
  lemma DecodeFields(p: Packet)
    ensures Decode(Fields(p)) == Ok(p)
  {
    var fota := if p.fotaEnabled then "true" else "false";
    AtoiFormatInt(p.firmwareBuild);
    AtoiFormatInt(p.deviceId);
    AtoiFormatInt(p.hardwareId);
    AtoiFormatInt(p.modelId);
    FotaRead(p.fotaEnabled);
    ReadsEight(p.ident, p.firmwareId, FormatInt(p.firmwareBuild), FormatInt(p.deviceId),
               FormatInt(p.hardwareId), FormatInt(p.modelId), p.firmwareBranch, fota, p);
    DecodeReads(Fields(p), p);
  }

  lemma FotaRead(b: bool)
    ensures FotaText(if b then "true" else "false") == b
  {
  }

  /** Eight texts read as `p` when each reads as its field. */
  lemma ReadsEight(t0: string, t1: string, t2: string, t3: string, t4: string, t5: string, t6: string,
                   t7: string, p: Packet)
    requires t0 == p.ident && t1 == p.firmwareId && t6 == p.firmwareBranch && p.fotaEnabled == FotaText(t7)
    requires Atoi(t2) == Some(p.firmwareBuild) && Atoi(t3) == Some(p.deviceId)
    requires Atoi(t4) == Some(p.hardwareId) && Atoi(t5) == Some(p.modelId)
    ensures Reads([t0, t1, t2, t3, t4, t5, t6, t7], p)
  {
  }

  /** Fields that read as `p` decode to `p`. */
  lemma DecodeReads(fields: seq<string>, p: Packet)
    requires Reads(fields, p)
    ensures Decode(fields) == Ok(p)
  {
  }

  /** A frame `Close` makes of `;`-free fields decodes as those fields do. */
  lemma FromClose(tab: Table, fields: seq<string>)
    requires |fields| >= 1 && forall t <- fields :: ';' !in t
    ensures FromPacket(tab, Close(tab, "Pi", fields)) == Decode(fields)
  {
    OpenClose(tab, "Pi", fields);
  }

  /** With `;`-free texts, decoding undoes encoding. */
  lemma RoundTrip(tab: Table, p: Packet)
    requires ';' !in p.ident && ';' !in p.firmwareId && ';' !in p.firmwareBranch
    ensures FromPacket(tab, ToPacket(tab, p)) == Ok(p)
  {
    FieldsFree(p);
    FromClose(tab, Fields(p));
    DecodeFields(p);
  }

  /** With `;`-free texts, no field the encoder writes holds a `;`. */
  lemma FieldsFree(p: Packet)
    requires ';' !in p.ident && ';' !in p.firmwareId && ';' !in p.firmwareBranch
    ensures forall t <- Fields(p) :: ';' !in t
  {
    FormatIntNoSeparator(p.firmwareBuild);
    FormatIntNoSeparator(p.deviceId);
    FormatIntNoSeparator(p.hardwareId);
    FormatIntNoSeparator(p.modelId);
    FotaFree(p.fotaEnabled);
    FreeEight(p.ident, p.firmwareId, FormatInt(p.firmwareBuild), FormatInt(p.deviceId),
              FormatInt(p.hardwareId), FormatInt(p.modelId), p.firmwareBranch,
              if p.fotaEnabled then "true" else "false");
  }

  lemma FotaFree(b: bool)
    ensures ';' !in (if b then "true" else "false")
  {
    var t := if b then "true" else "false";
    forall i | 0 <= i < |t| ensures t[i] != ';' {
    }
  }

  lemma FreeEight(t0: string, t1: string, t2: string, t3: string, t4: string, t5: string, t6: string, t7: string)
    requires ';' !in t0 && ';' !in t1 && ';' !in t2 && ';' !in t3
    requires ';' !in t4 && ';' !in t5 && ';' !in t6 && ';' !in t7
    ensures forall t <- [t0, t1, t2, t3, t4, t5, t6, t7] :: ';' !in t
  {
  }

  /** Fields that decode, with canonical numbers and FOTA as `true`/`false`, are the encoder's own. */
  lemma DecodeCanonical(fields: seq<string>, p: Packet)
    requires Decode(fields) == Ok(p)
    requires forall i | 2 <= i < 6 :: CanonicalDecimal(fields[i])
    requires fields[7] == "true" || fields[7] == "false"
    ensures fields == Fields(p)
  {
    AtoiCanonical(fields[2], p.firmwareBuild);
    AtoiCanonical(fields[3], p.deviceId);
    AtoiCanonical(fields[4], p.hardwareId);
    AtoiCanonical(fields[5], p.modelId);
  }

  /** A canonical frame written the way the encoder writes is re-encoded to itself. */
  lemma Reencode(tab: Table, raw: string, p: Packet)
    requires FromPacket(tab, raw) == Ok(p) && Canonical(raw)
    requires var fields := SealedFields(Payload(raw));
             (forall i | 2 <= i < 6 :: CanonicalDecimal(fields[i])) &&
             (fields[7] == "true" || fields[7] == "false")
    ensures ToPacket(tab, p) == raw
  {
    OpenSealed(tab, raw, "Pi");
    var fields := Open(tab, raw, "Pi").value;
    assert Decode(fields) == Ok(p);
    DecodeCanonical(fields, p);
    CloseOpen(tab, raw, "Pi");
  }

  /** FOTA written as `1` is read as enabled but written back as `true`. */
  lemma FotaOneRewritten(fields: seq<string>, p: Packet)
    requires Decode(fields) == Ok(p) && fields[7] == "1"
    ensures p.fotaEnabled && Fields(p)[7] == "true" && Fields(p) != fields
  {
    assert Fields(p)[7] != fields[7];
  }
}
