/**
 * `BleAdvertisement` (cpp/src/ble/ble_advertisement.cpp): one Bluetooth
 * advertisement as eleven `;`-separated tokens
 * `mac;ts;lat;lon;alt;model;rssi;tx;mfg;svc;CRC`. The encoder checksums its
 * text up to and including the final `;`; the decoder checksums the text
 * before the checksum token without that `;`.
 */
module BleAdvertisement {
  import opened Results
  import opened Strings
  import opened Numbers
  import opened Checksum
  import opened Floats
  import M = BleManufacturerData
  import S = BleServiceData

  /** Timestamps are Unix seconds; `rssi` and `txPower` are C++ `int`s. */
  datatype Advertisement = Advertisement(
    macAddress: string,
    timestamp: int,
    latitude: Option<Float32>,
    longitude: Option<Float32>,
    altitude: Option<Float32>,
    model: string,
    txPower: Option<int>,
    manufacturerData: seq<M.ManufacturerData>,
    serviceData: seq<S.ServiceData>,
    rssi: int)

  const BadDefinition := "Invalid packet definition"
  const BadMac := "Invalid MAC Address"
  const BadTimestamp := "Invalid timestamp, should be an int or float"
  const BadLatitude := "Invalid latitude, should be a float"
  const BadLongitude := "Invalid longitude, should be a float"
  const BadAltitude := "Invalid altitude, should be a float"
  const BadRssi := "Invalid RSSI, should be an int"
  const BadTxPower := "Invalid TX Power, should be an int"

  // ---------------------------------------------------------------------------
  // Fields

  /**
   * The MAC pairing loop, `substr(i, 2)` for `i = 0, 2, ...` with `:`
   * before every pair but the first, works on bytes (`Strings.PairBytes`);
   * the decoder keeps it as text through `Strings.PairText`. Twelve ASCII
   * characters become their six pairs with a `:` between each.
   */
  lemma AsciiMacPairs(m: string)
    requires |m| == 12 && forall i :: 0 <= i < |m| ==> m[i] as int < 0x80
    ensures PairText(m) == Some(m[0..2] + ":" + (m[2..4] + ":" + (m[4..6] + ":" + (m[6..8] + ":" + (m[8..10] + ":" + m[10..12])))))
  {
    var t2, t4, t6, t8, t10 := m[2..], m[4..], m[6..], m[8..], m[10..];
    assert t2[..2] == m[2..4] && t2[2..] == t4;
    assert t4[..2] == m[4..6] && t4[2..] == t6;
    assert t6[..2] == m[6..8] && t6[2..] == t8;
    assert t8[..2] == m[8..10] && t8[2..] == t10;
    assert t10[..2] == t10 == m[10..12];
    assert PairUnit(t10) == 2 && PairText(t10) == Some(m[10..12]);
    assert PairUnit(t8) == 2 && PairText(t8) == Some(m[8..10] + ":" + PairText(t10).value);
    assert PairUnit(t6) == 2 && PairText(t6) == Some(m[6..8] + ":" + PairText(t8).value);
    assert PairUnit(t4) == 2 && PairText(t4) == Some(m[4..6] + ":" + PairText(t6).value);
    assert PairUnit(t2) == 2 && PairText(t2) == Some(m[2..4] + ":" + PairText(t4).value);
    assert PairUnit(m) == 2 && PairText(m) == Some(m[0..2] + ":" + PairText(t2).value);
  }

  /**
   * An empty token is an absent float; otherwise `std::stof`, whose
   * `invalid_argument` becomes MalformedException. `stof` throws nothing else
   * but `out_of_range`.
   */
  function ReadFloat(ct: CFloatText, token: string, what: string): (r: Result<Option<Float32>, CppError>)
    ensures token == [] <==> r == Ok(None)
    ensures token != [] && ct.stof(token).Ok? ==> r == Ok(Some(ct.stof(token).value))
    ensures token != [] && ct.stof(token) == Err(InvalidArgument) ==> r == Err(Malformed(what))
    ensures r.Err? ==> r.error == Malformed(what) || r.error == OutOfRange
  {
    if token == [] then Ok(None)
    else
      match ct.stof(token)
      case Ok(v) => Ok(Some(v))
      case Err(e) => Err(if e == InvalidArgument then Malformed(what) else OutOfRange)
  }

  /** An empty token is an absent TX power; otherwise `std::stoi` in base 10. */
  function ReadTxPower(token: string): (r: Result<Option<int>, CppError>)
    ensures token == [] <==> r == Ok(None)
    ensures r.Ok? && token != [] ==> Stoi(token, 10) == Ok(r.value.value)
    ensures token != [] && Stoi(token, 10) == Err(InvalidArgument) ==> r == Err(Malformed(BadTxPower))
  {
    if token == [] then Ok(None)
    else
      var v :- CatchInvalid(Stoi(token, 10), BadTxPower);
      Ok(Some(v))
  }

  /** Each `,`-token decoded in order; the first exception escapes. */
  function ReadAll<T>(items: seq<string>, read: string -> Result<T, CppError>): (r: Result<seq<T>, CppError>)
    ensures r.Ok? ==> |r.value| == |items| && forall i :: 0 <= i < |items| ==> read(items[i]) == Ok(r.value[i])
    ensures r.Err? ==> exists i :: 0 <= i < |items| && read(items[i]) == Err(r.error)
    decreases |items|
  {
    if items == [] then Ok([])
    else
      var x :- read(items[0]);
      var xs :- ReadAll(items[1..], read);
      Ok([x] + xs)
  }

  /** `to_string` of an optional float, empty when absent. */
  function FloatField(ct: CFloatText, x: Option<Float32>): string {
    if x.None? then "" else ct.toString(x.value)
  }

  /** The TX power in decimal, empty when absent. */
  function TxField(x: Option<int>): string {
    if x.None? then "" else FormatInt(x.value)
  }

  // ---------------------------------------------------------------------------
  // Decoding

  /**
   * The conversions after the checksum and MAC checks, in source order:
   * timestamp, latitude, longitude, altitude, RSSI, TX power, then the
   * manufacturer and service items. The first that throws decides the error.
   */
  function ReadFields(ct: CFloatText, parts: seq<string>, mac: string): (r: Result<Advertisement, CppError>)
    requires |parts| == 11
    ensures r.Err? ==> !r.error.CrcError?
    ensures Stoll(parts[1]) == Err(InvalidArgument) ==> r == Err(Malformed(BadTimestamp))
    ensures r.Ok? ==> r.value.macAddress == mac && r.value.model == parts[5]
  {
    Assemble(mac, parts[5],
             CatchInvalid(Stoll(parts[1]), BadTimestamp),
             ReadFloat(ct, parts[2], BadLatitude),
             ReadFloat(ct, parts[3], BadLongitude),
             ReadFloat(ct, parts[4], BadAltitude),
             CatchInvalid(Stoi(parts[6], 10), BadRssi),
             ReadTxPower(parts[7]),
             ReadAll(GetlineSplit(parts[8], ','), M.FromPacket),
             ReadAll(GetlineSplit(parts[9], ','), S.FromPacket))
  }

  /** The advertisement from its converted fields; the first failed conversion, in source order, decides the error. */
  function Assemble(mac: string, model: string, ts: Result<int, CppError>,
                    lat: Result<Option<Float32>, CppError>, lon: Result<Option<Float32>, CppError>,
                    alt: Result<Option<Float32>, CppError>, rssi: Result<int, CppError>,
                    tx: Result<Option<int>, CppError>, mfg: Result<seq<M.ManufacturerData>, CppError>,
                    svc: Result<seq<S.ServiceData>, CppError>): (r: Result<Advertisement, CppError>)
    ensures r.Ok? <==> ts.Ok? && lat.Ok? && lon.Ok? && alt.Ok? && rssi.Ok? && tx.Ok? && mfg.Ok? && svc.Ok?
    ensures ts.Err? ==> r == Err(ts.error)
    ensures r.Err? ==> (ts.Err? && r.error == ts.error) || (lat.Err? && r.error == lat.error) ||
                       (lon.Err? && r.error == lon.error) || (alt.Err? && r.error == alt.error) ||
                       (rssi.Err? && r.error == rssi.error) || (tx.Err? && r.error == tx.error) ||
                       (mfg.Err? && r.error == mfg.error) || (svc.Err? && r.error == svc.error)
    ensures r.Ok? ==> r.value.macAddress == mac && r.value.model == model && r.value.timestamp == ts.value &&
                      r.value.latitude == lat.value && r.value.longitude == lon.value &&
                      r.value.altitude == alt.value && r.value.rssi == rssi.value &&
                      r.value.txPower == tx.value && r.value.manufacturerData == mfg.value &&
                      r.value.serviceData == svc.value
  {
    if ts.Err? then Err(ts.error)
    else if lat.Err? then Err(lat.error)
    else if lon.Err? then Err(lon.error)
    else if alt.Err? then Err(alt.error)
    else if rssi.Err? then Err(rssi.error)
    else if tx.Err? then Err(tx.error)
    else if mfg.Err? then Err(mfg.error)
    else if svc.Err? then Err(svc.error)
    else Ok(Advertisement(mac, ts.value, lat.value, lon.value, alt.value, model,
                          tx.value, mfg.value, svc.value, rssi.value))
  }

  /** What a successful `ReadFields` gives: each field is its token's conversion. */
  lemma ReadFieldsMeaning(ct: CFloatText, parts: seq<string>, mac: string)
    requires |parts| == 11 && ReadFields(ct, parts, mac).Ok?
    ensures var a := ReadFields(ct, parts, mac).value;
            Stoll(parts[1]) == Ok(a.timestamp) &&
            (a.latitude.None? <==> parts[2] == []) &&
            (a.longitude.None? <==> parts[3] == []) &&
            (a.altitude.None? <==> parts[4] == []) &&
            Stoi(parts[6], 10) == Ok(a.rssi) &&
            (a.txPower.None? <==> parts[7] == []) &&
            ReadAll(GetlineSplit(parts[8], ','), M.FromPacket) == Ok(a.manufacturerData) &&
            ReadAll(GetlineSplit(parts[9], ','), S.FromPacket) == Ok(a.serviceData)
  {
  }

  /**
   * `from_packet`: exactly eleven `getline` tokens; then the checksum (a
   * token with no hex digit counts as 0) over the text before the checksum
   * token's `;`; then a MAC of twelve bytes, paired by `:`; then the fields.
   * A pairing that splits a multi-byte character is the error `NotText`.
   */
  function FromPacket(tab: Table, ct: CFloatText, raw: string): (r: Result<Advertisement, CppError>)
    ensures |GetlineSplit(raw, ';')| != 11 ==> r == Err(Malformed(BadDefinition))
    ensures var parts := GetlineSplit(raw, ';');
            |parts| == 11 && HexOrZero(parts[10]).Ok? &&
            HexOrZero(parts[10]).value != TextCrc(tab, BeforeLastPiece(raw, ';')) ==>
              r == Err(CrcError(HexOrZero(parts[10]).value, TextCrc(tab, BeforeLastPiece(raw, ';'))))
    ensures var parts := GetlineSplit(raw, ';');
            (|parts| == 11 && HexOrZero(parts[10]) == Ok(TextCrc(tab, BeforeLastPiece(raw, ';'))) &&
             |Utf8(parts[0])| != 12) ==> r == Err(Malformed(BadMac))
    ensures var parts := GetlineSplit(raw, ';');
            (|parts| == 11 && HexOrZero(parts[10]) == Ok(TextCrc(tab, BeforeLastPiece(raw, ';'))) &&
             |Utf8(parts[0])| == 12 && !Utf8Shaped(PairBytes(Utf8(parts[0])))) ==> r == Err(CppError.NotText)
    ensures r.Err? && r.error.CrcError? ==> var parts := GetlineSplit(raw, ';');
            |parts| == 11 && HexOrZero(parts[10]).Ok? &&
            HexOrZero(parts[10]).value != TextCrc(tab, BeforeLastPiece(raw, ';'))
    ensures r.Ok? ==> var parts := GetlineSplit(raw, ';');
            |parts| == 11 && HexOrZero(parts[10]) == Ok(TextCrc(tab, BeforeLastPiece(raw, ';'))) &&
            |Utf8(parts[0])| == 12 && PairText(parts[0]).Some? &&
            Utf8(r.value.macAddress) == PairBytes(Utf8(parts[0])) &&
            r == ReadFields(ct, parts, PairText(parts[0]).value)
  {
    var parts := GetlineSplit(raw, ';');
    if |parts| != 11 then Err(Malformed(BadDefinition))
    else
      var received :- HexOrZero(parts[10]);
      var calculated := TextCrc(tab, BeforeLastPiece(raw, ';'));
      if received != calculated then Err(CrcError(received, calculated))
      else if |Utf8(parts[0])| != 12 then Err(Malformed(BadMac))
      else
        PairTextText(parts[0]);
        match PairText(parts[0])
        case None => Err(CppError.NotText)
        case Some(mac) => ReadFields(ct, parts, mac)
  }

  // ---------------------------------------------------------------------------
  // Encoding

  /** The ten tokens `to_packet` streams, absent optionals as empty text. */
  function Fields(ct: CFloatText, a: Advertisement): (r: seq<string>)
    ensures |r| == 10
  {
    [a.macAddress, FormatInt(a.timestamp),
     FloatField(ct, a.latitude), FloatField(ct, a.longitude), FloatField(ct, a.altitude),
     a.model, FormatInt(a.rssi), TxField(a.txPower),
     JoinEach(a.manufacturerData, M.ToPacket, ","), JoinEach(a.serviceData, S.ToPacket, ",")]
  }

  /** `to_packet`: the tokens each followed by `;`, then `%04X` of the checksum of all of that. */
  function ToPacket(tab: Table, ct: CFloatText, a: Advertisement): (r: string)
    ensures |r| >= 5 && r[|r| - 5] == ';'
    ensures r[|r| - 4..] == Hex4(TextCrc(tab, r[..|r| - 4]))
  {
    var s := Join(Fields(ct, a), ';') + ";";
    var r := s + Hex4(TextCrc(tab, s));
    assert r[..|s|] == s && r[|s|..] == Hex4(TextCrc(tab, s));
    r
  }

  // ---------------------------------------------------------------------------
  // Properties

  /** What the encoder needs so that its tokens stay apart: no `;` in the MAC or model, a lawful float formatter. */
  ghost predicate Writable(ct: CFloatText, a: Advertisement) {
    ';' !in a.macAddress && ';' !in a.model && CLawful(ct)
  }

  /** The text `to_packet` checksums, without its final `;`. */
  function Unsealed(ct: CFloatText, a: Advertisement): string {
    Join(Fields(ct, a), ';')
  }

  /** None of the ten tokens holds a `;`. */
  lemma FieldsFree(ct: CFloatText, a: Advertisement)
    requires Writable(ct, a)
    ensures forall t <- Fields(ct, a) :: ';' !in t
  {
    var fs := Fields(ct, a);
    FormatIntNoSeparator(a.timestamp);
    FormatIntNoSeparator(a.rssi);
    TxFieldFree(a.txPower);
    FloatFieldFree(ct, a.latitude);
    FloatFieldFree(ct, a.longitude);
    FloatFieldFree(ct, a.altitude);
    ItemsFree(a);
    forall i | 0 <= i < 10 ensures ';' !in fs[i] {
    }
  }

  lemma FloatFieldFree(ct: CFloatText, x: Option<Float32>)
    requires CLawful(ct)
    ensures ';' !in FloatField(ct, x)
  {
  }

  lemma TxFieldFree(x: Option<int>)
    ensures ';' !in TxField(x)
  {
    if x.Some? { FormatIntNoSeparator(x.value); }
  }

  /** The item lists hold no `;`: each item is hex digits and one `:`. */
  lemma ItemsFree(a: Advertisement)
    ensures ';' !in JoinEach(a.manufacturerData, M.ToPacket, ",")
    ensures ';' !in JoinEach(a.serviceData, S.ToPacket, ",")
  {
    JoinEachFree(a.manufacturerData, M.ToPacket, ",", ';');
    JoinEachFree(a.serviceData, S.ToPacket, ",", ';');
  }

  /**
   * The encoder's output splits back into its ten tokens and the checksum
   * token, and the range the decoder checksums is the encoder's text without
   * its final `;`.
   */
  lemma EncodedParts(tab: Table, ct: CFloatText, a: Advertisement)
    requires Writable(ct, a)
    ensures var h := Hex4(TextCrc(tab, Unsealed(ct, a) + ";"));
            GetlineSplit(ToPacket(tab, ct, a), ';') == Fields(ct, a) + [h]
    ensures BeforeLastPiece(ToPacket(tab, ct, a), ';') == Unsealed(ct, a)
  {
    var h := Hex4(TextCrc(tab, Unsealed(ct, a) + ";"));
    FieldsFree(ct, a);
    DigitsFree(h, 16);
    TrailerPieces(Fields(ct, a), h, ';');
  }

  /** The checksum token the encoder writes is read back as the checksum. */
  lemma ChecksumToken(n: nat)
    requires n < 0x1_0000
    ensures HexOrZero(Hex4(n)) == Ok(n)
  {
    PowFacts();
    StoiHex(n, 4);
  }

  /**
   * Decoding the encoder's own output fails the checksum exactly when adding
   * the final `;` changes the checksum, and then reports both values.
   */
  lemma OwnOutputChecksum(tab: Table, ct: CFloatText, a: Advertisement)
    requires Writable(ct, a)
    ensures var s := Unsealed(ct, a);
            var r := FromPacket(tab, ct, ToPacket(tab, ct, a));
            (r.Err? && r.error.CrcError?) <==> TextCrc(tab, s + ";") != TextCrc(tab, s)
    ensures var s := Unsealed(ct, a);
            TextCrc(tab, s + ";") != TextCrc(tab, s) ==>
              FromPacket(tab, ct, ToPacket(tab, ct, a)) == Err(CrcError(TextCrc(tab, s + ";"), TextCrc(tab, s)))
  {
    var raw := ToPacket(tab, ct, a);
    EncodedParts(tab, ct, a);
    ChecksumToken(TextCrc(tab, Unsealed(ct, a) + ";"));
    var parts := GetlineSplit(raw, ';');
    assert parts[10] == Hex4(TextCrc(tab, Unsealed(ct, a) + ";"));
  }

  /**
   * A decoded advertisement holds a MAC of seventeen bytes, which its own
   * encoding writes verbatim, so that encoding is always rejected: by the
   * checksum or by the MAC length check.
   */
  lemma ReencodingRejected(tab: Table, ct: CFloatText, raw: string)
    requires CLawful(ct) && FromPacket(tab, ct, raw).Ok?
    ensures FromPacket(tab, ct, ToPacket(tab, ct, FromPacket(tab, ct, raw).value)).Err?
  {
    var parts := GetlineSplit(raw, ';');
    var a := FromPacket(tab, ct, raw).value;
    assert parts[0] in parts && parts[5] in parts;
    assert ';' !in a.macAddress;
    assert |Utf8(a.macAddress)| == 17;
    EncodedParts(tab, ct, a);
  }

  /** `std::stof` of the `to_string` text of an encoded float, which is what decoding gives back. */
  function Reparse(ct: CFloatText, x: Option<Float32>): Option<Float32> {
    if x.None? then None
    else match ct.stof(ct.toString(x.value))
         case Ok(v) => Some(v)
         case Err(_) => None
  }

  /** `a` with the paired MAC `mac` and each float passed through `stof(to_string(_))`. */
  function Decoded(ct: CFloatText, a: Advertisement, mac: string): Advertisement {
    Advertisement(mac, a.timestamp,
                  Reparse(ct, a.latitude), Reparse(ct, a.longitude), Reparse(ct, a.altitude),
                  a.model, a.txPower, a.manufacturerData, a.serviceData, a.rssi)
  }

  /** The integers fit their C++ types, and item ids and bytes are in the ranges the items round-trip on. */
  ghost predicate InRange(a: Advertisement) {
    -TwoTo63 <= a.timestamp < TwoTo63 && -TwoTo31 <= a.rssi < TwoTo31 &&
    (a.txPower.Some? ==> -TwoTo31 <= a.txPower.value < TwoTo31) &&
    (forall m <- a.manufacturerData :: 0 <= m.companyId < TwoTo31 && forall b <- m.data :: 0 <= b < 0x100) &&
    (forall v <- a.serviceData :: 0 <= v.uuid < TwoTo31 && forall b <- v.data :: 0 <= b < 0x100)
  }

  /**
   * When adding the final `;` leaves the checksum unchanged, decoding the
   * encoder's output of a MAC of twelve bytes gives back the advertisement
   * with the MAC bytes paired by `:` and each float passed through
   * `stof(to_string(_))`; everything else comes back as it was. A MAC whose
   * pairing splits a character is rejected instead.
   */
  lemma RoundTrip(tab: Table, ct: CFloatText, a: Advertisement)
    requires Writable(ct, a) && |Utf8(a.macAddress)| == 12 && InRange(a)
    requires TextCrc(tab, Unsealed(ct, a) + ";") == TextCrc(tab, Unsealed(ct, a))
    ensures PairText(a.macAddress).Some? ==>
              Utf8(PairText(a.macAddress).value) == PairBytes(Utf8(a.macAddress)) &&
              FromPacket(tab, ct, ToPacket(tab, ct, a)) == Ok(Decoded(ct, a, PairText(a.macAddress).value))
    ensures PairText(a.macAddress).None? ==> FromPacket(tab, ct, ToPacket(tab, ct, a)) == Err(CppError.NotText)
  {
    var h := Hex4(TextCrc(tab, Unsealed(ct, a) + ";"));
    EncodedParts(tab, ct, a);
    ChecksumToken(TextCrc(tab, Unsealed(ct, a) + ";"));
    PairTextText(a.macAddress);
    if PairText(a.macAddress).Some? {
      ReadEncodedFields(ct, a, h, PairText(a.macAddress).value);
    }
  }

  /** The field conversions on the encoder's tokens. */
  lemma ReadEncodedFields(ct: CFloatText, a: Advertisement, h: string, mac: string)
    requires Writable(ct, a) && InRange(a)
    ensures ReadFields(ct, Fields(ct, a) + [h], mac) == Ok(Decoded(ct, a, mac))
  {
    EncodedTokens(ct, a, h);
    Conversions(ct, a);
    ReadFieldsOk(ct, a.macAddress, mac, FormatInt(a.timestamp),
      FloatField(ct, a.latitude), FloatField(ct, a.longitude), FloatField(ct, a.altitude),
      a.model, FormatInt(a.rssi), TxField(a.txPower),
      JoinEach(a.manufacturerData, M.ToPacket, ","), JoinEach(a.serviceData, S.ToPacket, ","), h,
      Decoded(ct, a, mac));
  }

  lemma EncodedTokens(ct: CFloatText, a: Advertisement, h: string)
    ensures Fields(ct, a) + [h] ==
            [a.macAddress, FormatInt(a.timestamp),
             FloatField(ct, a.latitude), FloatField(ct, a.longitude), FloatField(ct, a.altitude),
             a.model, FormatInt(a.rssi), TxField(a.txPower),
             JoinEach(a.manufacturerData, M.ToPacket, ","), JoinEach(a.serviceData, S.ToPacket, ","), h]
  {
  }

  /** Each token the encoder writes converts back. */
  lemma Conversions(ct: CFloatText, a: Advertisement)
    requires Writable(ct, a) && InRange(a)
    ensures Stoll(FormatInt(a.timestamp)) == Ok(a.timestamp)
    ensures Stoi(FormatInt(a.rssi), 10) == Ok(a.rssi)
    ensures ReadFloat(ct, FloatField(ct, a.latitude), BadLatitude) == Ok(Reparse(ct, a.latitude))
    ensures ReadFloat(ct, FloatField(ct, a.longitude), BadLongitude) == Ok(Reparse(ct, a.longitude))
    ensures ReadFloat(ct, FloatField(ct, a.altitude), BadAltitude) == Ok(Reparse(ct, a.altitude))
    ensures ReadTxPower(TxField(a.txPower)) == Ok(a.txPower)
    ensures ReadAll(GetlineSplit(JoinEach(a.manufacturerData, M.ToPacket, ","), ','), M.FromPacket) == Ok(a.manufacturerData)
    ensures ReadAll(GetlineSplit(JoinEach(a.serviceData, S.ToPacket, ","), ','), S.FromPacket) == Ok(a.serviceData)
  {
    StrToIntFormatInt(a.timestamp, -TwoTo63, TwoTo63 - 1);
    StrToIntFormatInt(a.rssi, -TwoTo31, TwoTo31 - 1);
    FloatRoundTrip(ct, a.latitude, BadLatitude);
    FloatRoundTrip(ct, a.longitude, BadLongitude);
    FloatRoundTrip(ct, a.altitude, BadAltitude);
    TxRoundTrip(a.txPower);
    ManufacturerItems(a.manufacturerData);
    ServiceItems(a.serviceData);
  }

  /** `ReadFields` once every conversion's result is known. */
  lemma ReadFieldsOk(ct: CFloatText, mac: string, paired: string, ts: string, lat: string, lon: string,
                     alt: string, model: string, rssi: string, tx: string, mfg: string, svc: string,
                     h: string, b: Advertisement)
    requires b.macAddress == paired && b.model == model
    requires Stoll(ts) == Ok(b.timestamp) && Stoi(rssi, 10) == Ok(b.rssi)
    requires ReadFloat(ct, lat, BadLatitude) == Ok(b.latitude)
    requires ReadFloat(ct, lon, BadLongitude) == Ok(b.longitude)
    requires ReadFloat(ct, alt, BadAltitude) == Ok(b.altitude)
    requires ReadTxPower(tx) == Ok(b.txPower)
    requires ReadAll(GetlineSplit(mfg, ','), M.FromPacket) == Ok(b.manufacturerData)
    requires ReadAll(GetlineSplit(svc, ','), S.FromPacket) == Ok(b.serviceData)
    ensures ReadFields(ct, [mac, ts, lat, lon, alt, model, rssi, tx, mfg, svc, h], paired) == Ok(b)
  {
    ReadFieldsParts(ct, mac, paired, ts, lat, lon, alt, model, rssi, tx, mfg, svc, h);
  }

  /** `ReadFields` on an explicit token list, as the conversions of its tokens. */
  lemma ReadFieldsParts(ct: CFloatText, mac: string, paired: string, ts: string, lat: string, lon: string,
                        alt: string, model: string, rssi: string, tx: string, mfg: string, svc: string,
                        h: string)
    ensures ReadFields(ct, [mac, ts, lat, lon, alt, model, rssi, tx, mfg, svc, h], paired) ==
            Assemble(paired, model, CatchInvalid(Stoll(ts), BadTimestamp),
                     ReadFloat(ct, lat, BadLatitude), ReadFloat(ct, lon, BadLongitude),
                     ReadFloat(ct, alt, BadAltitude), CatchInvalid(Stoi(rssi, 10), BadRssi),
                     ReadTxPower(tx), ReadAll(GetlineSplit(mfg, ','), M.FromPacket),
                     ReadAll(GetlineSplit(svc, ','), S.FromPacket))
  {
    var parts := [mac, ts, lat, lon, alt, model, rssi, tx, mfg, svc, h];
    assert parts[1] == ts && parts[2] == lat && parts[3] == lon && parts[4] == alt;
    assert parts[6] == rssi && parts[7] == tx && parts[8] == mfg && parts[9] == svc;
    assert parts[0] == mac && parts[5] == model;
  }

  lemma FloatRoundTrip(ct: CFloatText, x: Option<Float32>, what: string)
    requires CLawful(ct)
    ensures ReadFloat(ct, FloatField(ct, x), what) == Ok(Reparse(ct, x))
  {
  }

  lemma TxRoundTrip(x: Option<int>)
    requires x.Some? ==> -TwoTo31 <= x.value < TwoTo31
    ensures ReadTxPower(TxField(x)) == Ok(x)
  {
    if x.Some? {
      StrToIntFormatInt(x.value, -TwoTo31, TwoTo31 - 1);
    }
  }

  /** A manufacturer item list is `,`-split back into its items, each read back as written. */
  lemma ManufacturerItems(ms: seq<M.ManufacturerData>)
    requires forall m <- ms :: 0 <= m.companyId < TwoTo31 && forall b <- m.data :: 0 <= b < 0x100
    ensures ReadAll(GetlineSplit(JoinEach(ms, M.ToPacket, ","), ','), M.FromPacket) == Ok(ms)
  {
    forall m <- ms ensures M.FromPacket(M.ToPacket(m)) == Ok(m) {
      M.RoundTrip(m);
    }
    ItemsRoundTrip(ms, M.ToPacket, M.FromPacket);
  }

  /** A service item list is `,`-split back into its items, each read back as written. */
  lemma ServiceItems(vs: seq<S.ServiceData>)
    requires forall v <- vs :: 0 <= v.uuid < TwoTo31 && forall b <- v.data :: 0 <= b < 0x100
    ensures ReadAll(GetlineSplit(JoinEach(vs, S.ToPacket, ","), ','), S.FromPacket) == Ok(vs)
  {
    forall v <- vs ensures S.FromPacket(S.ToPacket(v)) == Ok(v) {
      S.RoundTrip(v);
    }
    ItemsRoundTrip(vs, S.ToPacket, S.FromPacket);
  }

  /**
   * Items rendered without `,` and never empty, each read back by `read`:
   * splitting their `,`-join and reading every piece gives them back.
   */
  lemma {:induction false} ItemsRoundTrip<T>(xs: seq<T>, render: T -> string, read: string -> Result<T, CppError>)
    requires forall x <- xs :: ',' !in render(x) && render(x) != [] && read(render(x)) == Ok(x)
    ensures ReadAll(GetlineSplit(JoinEach(xs, render, ","), ','), read) == Ok(xs)
    decreases |xs|
  {
    if |xs| == 1 {
      assert xs[0] in xs;
      GetlineSplitOne(render(xs[0]), ',');
      ReadAllOk([render(xs[0])], read, xs);
    } else if |xs| > 1 {
      assert forall x <- xs[1..] :: x in xs;
      ItemsRoundTrip(xs[1..], render, read);
      ItemsStep(xs, render, read);
    }
  }

  /** The step of `ItemsRoundTrip`: the first item, then the rest. */
  lemma ItemsStep<T>(xs: seq<T>, render: T -> string, read: string -> Result<T, CppError>)
    requires |xs| > 1
    requires forall x <- xs :: ',' !in render(x) && render(x) != [] && read(render(x)) == Ok(x)
    requires ReadAll(GetlineSplit(JoinEach(xs[1..], render, ","), ','), read) == Ok(xs[1..])
    ensures ReadAll(GetlineSplit(JoinEach(xs, render, ","), ','), read) == Ok(xs)
  {
    assert xs[0] in xs && xs[1] in xs;
    var rest := JoinEach(xs[1..], render, ",");
    assert rest != [] by { assert |rest| >= |render(xs[1])|; }
    assert JoinEach(xs, render, ",") == render(xs[0]) + [','] + rest;
    GetlineSplitCons(render(xs[0]), ',', rest);
    var items := [render(xs[0])] + GetlineSplit(rest, ',');
    assert items[1..] == GetlineSplit(rest, ',');
    assert xs == [xs[0]] + xs[1..];
  }

  /** Every item read successfully: the list is read successfully. */
  lemma {:induction false} ReadAllOk<T>(items: seq<string>, read: string -> Result<T, CppError>, xs: seq<T>)
    requires |items| == |xs| && forall i :: 0 <= i < |items| ==> read(items[i]) == Ok(xs[i])
    ensures ReadAll(items, read) == Ok(xs)
    decreases |items|
  {
    if items != [] {
      ReadAllOk(items[1..], read, xs[1..]);
      assert xs == [xs[0]] + xs[1..];
    }
  }
}
