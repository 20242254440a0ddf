/**
 * The Bluetooth advertisement packet
 * `<Pb>advertisement;advertisement;...;CRC</Pb>` (golang/v2/pb.go). An
 * advertisement is twelve fields: MAC address, timestamp, latitude,
 * longitude, altitude, model, device name, RSSI, TX power, manufacturer
 * data, service data, and a checksum over the first eleven, each followed by
 * `;`.
 */
module PbPacket {
  import opened Results
  import opened Strings
  import opened Numbers
  import opened Checksum
  import opened Envelope
  import opened Floats

  /** The company id is a Go `int`; the decoder reads it as a signed 16-bit number. */
  datatype ManufacturerData = ManufacturerData(companyId: Int64, data: seq<Byte>)

  datatype ServiceData = ServiceData(uuid: Int64, data: seq<Byte>)

  /** The timestamp as Unix seconds; RSSI and TX power are Go `int`s. */
  datatype Advertisement = Advertisement(
    macAddress: string,
    timestamp: Int64,
    latitude: Float,
    longitude: Float,
    altitude: Float,
    rssi: Int64,
    txPower: Int64,
    model: string,
    deviceName: string,
    manufacturerData: seq<ManufacturerData>,
    serviceData: seq<ServiceData>)

  datatype Packet = Packet(advertisements: seq<Advertisement>)

  /** The TX power an empty field stands for. */
  const NoTxPower: Int64 := -999

  // ---------------------------------------------------------------------------
  // Hex data

  /**
   * A two-character chunk through `strconv.ParseInt(_, 16, 64)` and then
   * `byte(_)`: a sign is accepted, and the value is kept modulo 256.
   */
  function ReadByte(chunk: string): Option<Byte> {
    match ParseInt(chunk, 16, 64)
    case None => None
    case Some(v) => Some(v % 256)
  }

  /**
   * The data loop over the bytes of the text, one character per byte: two
   * at a time, each through `ReadByte`. A lone last byte is sliced past the
   * end, which panics in Go; a chunk that does not parse stops the loop first.
   */
  function ReadChunks(s: string): (r: Result<seq<Byte>, GoError>)
    ensures r.Ok? <==> |s| % 2 == 0 && forall i :: 0 <= i < |s| / 2 ==> ReadByte(Chunk(s, i)).Some?
    ensures r.Ok? ==> |r.value| == |s| / 2 &&
                      forall i :: 0 <= i < |s| / 2 ==> ReadByte(Chunk(s, i)) == Some(r.value[i])
    ensures |s| % 2 == 1 && (forall i :: 0 <= i < |s| / 2 ==> ReadByte(Chunk(s, i)).Some?) ==>
              r.Err? && r.error.Panic?
    ensures r.Err? ==> r.error.Panic? || r.error == BadField("data")
    decreases |s|
  {
    if s == "" then Ok([])
    else if |s| == 1 then Err(Panic("slice bounds out of range"))
    else
      ChunksAfter(s);
      match ReadByte(s[..2])
      case None => Err(BadField("data"))
      case Some(b) =>
        var rest :- ReadChunks(s[2..]);
        Ok([b] + rest)
  }

  /** The data field as Go slices it: by bytes. */
  function ReadBytes(s: string): (r: Result<seq<Byte>, GoError>)
    ensures r.Ok? ==> 2 * |r.value| == |Utf8(s)|
  {
    ReadChunks(ByteView(s))
  }

  /** On ASCII text the bytes are the characters. */
  lemma AsciiBytes(s: string)
    requires forall i :: 0 <= i < |s| ==> s[i] as int < 0x80
    ensures ReadBytes(s) == ReadChunks(s)
  {
    ByteViewAscii(s);
  }

  /** Text of an odd number of bytes never reads as data. */
  lemma OddDataFails(s: string)
    requires |Utf8(s)| % 2 == 1
    ensures ReadBytes(s).Err?
  {
  }

  /** `é` is the bytes C3 A9, which `ParseInt(_, 16, 64)` rejects as a chunk: a data error, not a panic. */
  lemma AccentData()
    ensures ReadBytes("\U{E9}") == Err(BadField("data"))
  {
    var v := ByteView("\U{E9}");
    assert Utf8("\U{E9}") == [0xC3, 0xA9];
    assert v == ['\U{C3}', '\U{A9}'];
    assert v[..2] == v;
    assert ParseInt(v, 16, 64).None?;
  }

  /** `%02X` of a byte reads back as the byte. */
  lemma ReadHexByte(b: Byte)
    ensures |Hex(b, 2)| == 2 && ReadByte(Hex(b, 2)) == Some(b)
  {
    PowFacts();
    HexWidth(b, 2);
    ParseIntGoHex(b, 2, 64);
  }

  /** `%X` of a byte slice reads back as the slice. */
  lemma ReadHexBytes(data: seq<Byte>)
    ensures ReadBytes(HexBytes(data)) == Ok(data)
  {
    var h := HexBytes(data);
    assert forall i :: 0 <= i < |h| ==> IsUpperHex(h[i]);
    AsciiBytes(h);
    ReadHexChunks(data);
  }

  lemma {:induction false} ReadHexChunks(data: seq<Byte>)
    ensures ReadChunks(HexBytes(data)) == Ok(data)
  {
    if data != [] {
      var h := Hex(data[0], 2);
      ReadHexByte(data[0]);
      ReadHexChunks(data[1..]);
      PrefixOfAppend(h, HexBytes(data[1..]));
      ReadChunksStep(HexBytes(data), data[0], data[1..]);
      ConsSplit(data);
    }
  }

  /** One chunk that reads, then chunks that read. */
  lemma ReadChunksStep(s: string, b: Byte, rest: seq<Byte>)
    requires |s| >= 2 && ReadByte(s[..2]) == Some(b) && ReadChunks(s[2..]) == Ok(rest)
    ensures ReadChunks(s) == Ok([b] + rest)
  {
  }

  // ---------------------------------------------------------------------------
  // Manufacturer and service data

  /**
   * One `id:data` item: the company id before the first `:` through
   * `ParseInt(_, 16, 16)`, then the data after it. An item without `:`
   * indexes past the end of its split, which panics in Go.
   */
  function ReadManufacturer(item: string): (r: Result<ManufacturerData, GoError>)
    ensures var sub := Split(item, ':');
            r.Ok? <==> ParseInt(sub[0], 16, 16).Some? && |sub| >= 2 && ReadBytes(sub[1]).Ok?
    ensures var sub := Split(item, ':');
            r.Ok? ==> ParseInt(sub[0], 16, 16) == Some(r.value.companyId) && ReadBytes(sub[1]) == Ok(r.value.data)
    ensures ParseInt(Split(item, ':')[0], 16, 16).None? ==> r == Err(BadField("company id"))
    ensures var sub := Split(item, ':');
            ParseInt(sub[0], 16, 16).Some? && |sub| < 2 ==> r.Err? && r.error.Panic?
  {
    var sub := Split(item, ':');
    match ParseInt(sub[0], 16, 16)
    case None => Err(BadField("company id"))
    case Some(id) =>
      PowFacts();
      if |sub| < 2 then Err(Panic("index out of range"))
      else
        var data :- ReadBytes(sub[1]);
        Ok(ManufacturerData(id, data))
  }

  /** The items in order; the first that does not read stops the loop with its error. */
  function ReadManufacturers(items: seq<string>): (r: Result<seq<ManufacturerData>, GoError>)
    ensures r.Ok? <==> forall i | 0 <= i < |items| :: ReadManufacturer(items[i]).Ok?
    ensures r.Ok? ==> |r.value| == |items| && forall i | 0 <= i < |items| :: ReadManufacturer(items[i]) == Ok(r.value[i])
    ensures items != [] && ReadManufacturer(items[0]).Err? ==> r == Err(ReadManufacturer(items[0]).error)
  {
    if items == [] then Ok([])
    else
      var m :- ReadManufacturer(items[0]);
      var rest :- ReadManufacturers(items[1..]);
      TailIndex(items);
      Ok([m] + rest)
  }

  /**
   * One `uuid:data` item. An item with nothing before its first `:` is
   * skipped; otherwise the uuid goes through `ParseInt(_, 16, 64)` and the
   * data after the `:` is read as for manufacturer data.
   */
  function ReadService(item: string): (r: Result<Option<ServiceData>, GoError>)
    ensures r == Ok(None) <==> Split(item, ':')[0] == ""
    ensures var sub := Split(item, ':');
            r.Ok? && r.value.Some? ==>
              ParseInt(sub[0], 16, 64) == Some(r.value.value.uuid) && |sub| >= 2 && ReadBytes(sub[1]) == Ok(r.value.value.data)
    ensures var sub := Split(item, ':');
            sub[0] != "" && ParseInt(sub[0], 16, 64).None? ==> r == Err(BadField("uuid"))
  {
    var sub := Split(item, ':');
    if sub[0] == "" then Ok(None)
    else
      match ParseInt(sub[0], 16, 64)
      case None => Err(BadField("uuid"))
      case Some(uuid) =>
        PowFacts();
        if |sub| < 2 then Err(Panic("index out of range"))
        else
          var data :- ReadBytes(sub[1]);
          Ok(Some(ServiceData(uuid, data)))
  }

  /** The items in order, the skipped ones left out; the first that does not read stops the loop. */
  function ReadServices(items: seq<string>): (r: Result<seq<ServiceData>, GoError>)
    ensures r.Ok? <==> forall i | 0 <= i < |items| :: ReadService(items[i]).Ok?
    ensures r.Ok? ==> r.value == Kept(Outcomes(items)) && |r.value| <= |items|
    ensures items != [] && ReadService(items[0]).Err? ==> r == Err(ReadService(items[0]).error)
  {
    if items == [] then Ok([])
    else
      var s :- ReadService(items[0]);
      var rest :- ReadServices(items[1..]);
      TailIndex(items);
      assert Outcomes(items) == [ReadService(items[0])] + Outcomes(items[1..]);
      match s
      case None => Ok(rest)
      case Some(x) => Ok([x] + rest)
  }

  /** What each item reads as. */
  function Outcomes(items: seq<string>): (os: seq<Result<Option<ServiceData>, GoError>>)
    ensures |os| == |items| && forall i | 0 <= i < |items| :: os[i] == ReadService(items[i])
  {
    seq(|items|, i requires 0 <= i < |items| => ReadService(items[i]))
  }

  /** The services read, in order, leaving out the skipped items and the failures. */
  function Kept(os: seq<Result<Option<ServiceData>, GoError>>): (r: seq<ServiceData>)
    ensures |r| <= |os|
  {
    if os == [] then []
    else (if os[0].Ok? && os[0].value.Some? then [os[0].value.value] else []) + Kept(os[1..])
  }

  /** Items none of which is skipped read as the services they each read as. */
  lemma {:induction false} ReadServicesAll(items: seq<string>, ss: seq<ServiceData>)
    requires |items| == |ss| && forall i | 0 <= i < |items| :: ReadService(items[i]) == Ok(Some(ss[i]))
    ensures ReadServices(items) == Ok(ss)
    decreases |items|
  {
    if items != [] {
      TailIndex(items);
      TailIndex(ss);
      ReadServicesAll(items[1..], ss[1..]);
      ConsSplit(ss);
    }
  }

  /** An empty manufacturer-data field is one empty item, and an empty company id does not parse. */
  lemma EmptyManufacturerField()
    ensures ReadManufacturers(Split("", ',')) == Err(BadField("company id"))
  {
    SplitNoDelimiter("", ',');
    SplitNoDelimiter("", ':');
  }

  /** An empty service-data field is one empty item, which is skipped. */
  lemma EmptyServiceField()
    ensures ReadServices(Split("", ',')) == Ok([])
  {
    SplitNoDelimiter("", ',');
    SplitNoDelimiter("", ':');
  }

  // ---------------------------------------------------------------------------
  // Advertisements

  /** An empty TX power field is the `-999` sentinel; otherwise `strconv.Atoi` must accept it. */
  function ReadTxPower(t: string): Option<Int64> {
    if t == "" then Some(NoTxPower)
    else
      match Atoi(t)
      case None => None
      case Some(n) => Some(n)
  }

  /** The eleven fields before the checksum read as the advertisement `a`. */
  predicate Reads(ft: FloatText, f: seq<string>, a: Advertisement) {
    |f| == 11 && f[0] == a.macAddress && ParseInt(f[1], 10, 64) == Some(a.timestamp) &&
    Parse(ft, f[2]) == Some(a.latitude) && Parse(ft, f[3]) == Some(a.longitude) &&
    Parse(ft, f[4]) == Some(a.altitude) && f[5] == a.model && f[6] == a.deviceName &&
    Atoi(f[7]) == Some(a.rssi) && ReadTxPower(f[8]) == Some(a.txPower) &&
    ReadManufacturers(Split(f[9], ',')) == Ok(a.manufacturerData) &&
    ReadServices(Split(f[10], ',')) == Ok(a.serviceData)
  }

  /** `strconv` failures become the error naming the field. */
  function Need<T>(o: Option<T>, field: string): (r: Result<T, GoError>)
    ensures o.Some? ==> r == Ok(o.value)
    ensures o.None? ==> r == Err(BadField(field))
  {
    match o
    case None => Err(BadField(field))
    case Some(x) => Ok(x)
  }

  /**
   * The conversions in source order: timestamp, latitude, longitude,
   * altitude, RSSI, TX power, manufacturer data, service data. The MAC
   * address, model and device name are kept as received.
   */
  function ReadFields(ft: FloatText, f: seq<string>): (r: Result<Advertisement, GoError>)
    requires |f| == 11
    ensures r.Ok? <==>
              ParseInt(f[1], 10, 64).Some? && Parse(ft, f[2]).Some? && Parse(ft, f[3]).Some? &&
              Parse(ft, f[4]).Some? && Atoi(f[7]).Some? && ReadTxPower(f[8]).Some? &&
              ReadManufacturers(Split(f[9], ',')).Ok? && ReadServices(Split(f[10], ',')).Ok?
    ensures r.Ok? ==> Reads(ft, f, r.value)
    ensures ParseInt(f[1], 10, 64).None? ==> r == Err(BadField("timestamp"))
    ensures ParseInt(f[1], 10, 64).Some? && Parse(ft, f[2]).None? ==> r == Err(BadField("latitude"))
  {
    assert Pow(2, 63) == TwoTo63 by { PowFacts(); }
    var ts :- Need(ParseInt(f[1], 10, 64), "timestamp");
    var lat :- Need(Parse(ft, f[2]), "latitude");
    var lon :- Need(Parse(ft, f[3]), "longitude");
    var alt :- Need(Parse(ft, f[4]), "altitude");
    var rssi :- Need(Atoi(f[7]), "rssi");
    var tx :- Need(ReadTxPower(f[8]), "tx power");
    var mfg :- ReadManufacturers(Split(f[9], ','));
    var svc :- ReadServices(Split(f[10], ','));
    Ok(Advertisement(f[0], ts, lat, lon, alt, rssi, tx, f[5], f[6], mfg, svc))
  }

  /** The text an advertisement's checksum covers: its eleven fields, each followed by `;`. */
  function Covered(f: seq<string>): string {
    Join(f, ';') + ";"
  }

  /**
   * One group of twelve fields: the checksum token (any hex
   * `strconv.ParseUint` accepts, up to 16 bits) and its check come before
   * any field is converted.
   */
  function ReadAdvertisement(tab: Table, ft: FloatText, g: seq<string>): (r: Result<Advertisement, GoError>)
    requires |g| == 12
    ensures r.Ok? <==> ParseUint(g[11], 16, 16) == Some(TextCrc(tab, Covered(g[..11]))) && ReadFields(ft, g[..11]).Ok?
    ensures ParseUint(g[11], 16, 16).None? ==> r == Err(BadCrcToken)
    ensures ParseUint(g[11], 16, 16).Some? && ParseUint(g[11], 16, 16).value != TextCrc(tab, Covered(g[..11])) ==>
              r == Err(CrcMismatch(ParseUint(g[11], 16, 16).value, TextCrc(tab, Covered(g[..11]))))
    ensures ParseUint(g[11], 16, 16) == Some(TextCrc(tab, Covered(g[..11]))) ==> r == ReadFields(ft, g[..11])
  {
    match ParseUint(g[11], 16, 16)
    case None => Err(BadCrcToken)
    case Some(received) =>
      var calculated := TextCrc(tab, Covered(g[..11]));
      if calculated != received then Err(CrcMismatch(received, calculated))
      else ReadFields(ft, g[..11])
  }

  /** The groups of twelve fields read, in order, as the advertisements `ads`. */
  predicate ReadsAll(tab: Table, ft: FloatText, parts: seq<string>, ads: seq<Advertisement>)
    decreases |parts|
  {
    if parts == [] then ads == []
    else
      |parts| >= 12 && ads != [] &&
      ReadAdvertisement(tab, ft, parts[..12]) == Ok(ads[0]) &&
      ReadsAll(tab, ft, parts[12..], ads[1..])
  }

  /**
   * The groups in order; the first that does not read stops the loop with
   * its error. `Decode` has already checked the field count, so a short
   * last group cannot occur; it is reported as that check would report it.
   */
  function ReadAdvertisements(tab: Table, ft: FloatText, parts: seq<string>): (r: Result<seq<Advertisement>, GoError>)
    ensures r.Ok? ==> ReadsAll(tab, ft, parts, r.value)
    ensures |parts| >= 12 && ReadAdvertisement(tab, ft, parts[..12]).Err? ==>
              r == Err(ReadAdvertisement(tab, ft, parts[..12]).error)
    decreases |parts|
  {
    if parts == [] then Ok([])
    else if |parts| < 12 then Err(BadPartMultiple(12))
    else
      var a :- ReadAdvertisement(tab, ft, parts[..12]);
      var rest :- ReadAdvertisements(tab, ft, parts[12..]);
      assert ([a] + rest)[1..] == rest;
      Ok([a] + rest)
  }

  /** Groups that read as `ads` are read as `ads`. */
  lemma {:induction false} ReadAdvertisementsComplete(tab: Table, ft: FloatText, parts: seq<string>, ads: seq<Advertisement>)
    requires ReadsAll(tab, ft, parts, ads)
    ensures |parts| == 12 * |ads| && ReadAdvertisements(tab, ft, parts) == Ok(ads)
    decreases |parts|
  {
    if parts != [] {
      ReadAdvertisementsComplete(tab, ft, parts[12..], ads[1..]);
      ReadAdvertisementsStep(tab, ft, parts, ads[0], ads[1..]);
      ConsSplit(ads);
    }
  }

  /** One group that reads, then groups that read. */
  lemma ReadAdvertisementsStep(tab: Table, ft: FloatText, parts: seq<string>, a: Advertisement, rest: seq<Advertisement>)
    requires |parts| >= 12 && ReadAdvertisement(tab, ft, parts[..12]) == Ok(a)
    requires ReadAdvertisements(tab, ft, parts[12..]) == Ok(rest)
    ensures ReadAdvertisements(tab, ft, parts) == Ok([a] + rest)
  {
  }

  lemma MultipleOfTwelve(k: nat)
    ensures (12 * k) % 12 == 0
  {
  }

  /** A field count that is not a multiple of twelve, then the groups. */
  function Decode(tab: Table, ft: FloatText, parts: seq<string>): (r: Result<Packet, GoError>)
    ensures |parts| % 12 != 0 ==> r == Err(BadPartMultiple(12))
    ensures r.Ok? ==> ReadsAll(tab, ft, parts, r.value.advertisements)
    ensures |parts| % 12 == 0 && |parts| >= 12 && ReadAdvertisement(tab, ft, parts[..12]).Err? ==>
              r == Err(ReadAdvertisement(tab, ft, parts[..12]).error)
  {
    if |parts| % 12 != 0 then Err(BadPartMultiple(12))
    else
      var ads :- ReadAdvertisements(tab, ft, parts);
      Ok(Packet(ads))
  }

  /** The frame checksum is checked before any advertisement's own. */
  function FromPacket(tab: Table, ft: FloatText, raw: string): (r: Result<Packet, GoError>)
    ensures r.Ok? ==> Sealed(tab, raw, "Pb", Payload(raw)) && ReadsAll(tab, ft, SealedFields(Payload(raw)), r.value.advertisements)
    ensures Open(tab, raw, "Pb").Err? ==> r == Err(Open(tab, raw, "Pb").error)
    ensures !Wrapped(raw, "Pb") ==> r == Err(BadEnvelope("Pb"))
  {
    OpenSealed(tab, raw, "Pb");
    var fields :- Open(tab, raw, "Pb");
    Decode(tab, ft, fields)
  }

  /** Every sealed frame whose groups read as the advertisements decodes to them. */
  lemma FromPacketComplete(tab: Table, ft: FloatText, raw: string, p: Packet)
    requires Sealed(tab, raw, "Pb", Payload(raw))
    requires ReadsAll(tab, ft, SealedFields(Payload(raw)), p.advertisements)
    ensures FromPacket(tab, ft, raw) == Ok(p)
  {
    var fields := SealedFields(Payload(raw));
    OpenSealed(tab, raw, "Pb");
    ReadAdvertisementsComplete(tab, ft, fields, p.advertisements);
    MultipleOfTwelve(|p.advertisements|);
    assert Open(tab, raw, "Pb") == Ok(fields);
    assert Decode(tab, ft, fields) == Ok(Packet(p.advertisements));
  }

  /** A frame `Close` makes of `;`-free fields decodes as those fields do. */
  lemma FromClose(tab: Table, ft: FloatText, fields: seq<string>)
    requires |fields| >= 1 && forall t <- fields :: ';' !in t
    ensures FromPacket(tab, ft, Close(tab, "Pb", fields)) == Decode(tab, ft, fields)
  {
    OpenClose(tab, "Pb", fields);
  }

  // ---------------------------------------------------------------------------
  // Encoding

  /** `%04X` of the company id, `:`, and `%X` of the data. */
  function ManufacturerItem(m: ManufacturerData): string {
    GoHex(m.companyId, 4) + ":" + HexBytes(m.data)
  }

  /** `%04X` of the uuid, `:`, and `%X` of the data. */
  function ServiceItem(s: ServiceData): string {
    GoHex(s.uuid, 4) + ":" + HexBytes(s.data)
  }

  function ManufacturerItems(ms: seq<ManufacturerData>): (r: seq<string>)
    ensures |r| == |ms| && forall i | 0 <= i < |ms| :: r[i] == ManufacturerItem(ms[i])
  {
    seq(|ms|, i requires 0 <= i < |ms| => ManufacturerItem(ms[i]))
  }

  function ServiceItems(ss: seq<ServiceData>): (r: seq<string>)
    ensures |r| == |ss| && forall i | 0 <= i < |ss| :: r[i] == ServiceItem(ss[i])
  {
    seq(|ss|, i requires 0 <= i < |ss| => ServiceItem(ss[i]))
  }

  /**
   * The eleven fields `composeAdvertisement` writes: floats with `%f`,
   * integers in decimal (the TX power sentinel as `-999`), the data items
   * joined by `,`.
   */
  function Fields(ft: FloatText, a: Advertisement): (r: seq<string>)
    ensures |r| == 11
  {
    Eleven(a.macAddress, FormatInt(a.timestamp), Format(ft, a.latitude), Format(ft, a.longitude),
      Format(ft, a.altitude), a.model, a.deviceName, FormatInt(a.rssi), FormatInt(a.txPower),
      Join(ManufacturerItems(a.manufacturerData), ','), Join(ServiceItems(a.serviceData), ','))
  }

  /** Eleven fields in order. */
  function Eleven(f0: string, f1: string, f2: string, f3: string, f4: string, f5: string,
                  f6: string, f7: string, f8: string, f9: string, f10: string): (r: seq<string>)
    ensures |r| == 11 && r[0] == f0 && r[1] == f1 && r[2] == f2 && r[3] == f3 && r[4] == f4 && r[5] == f5
    ensures r[6] == f6 && r[7] == f7 && r[8] == f8 && r[9] == f9 && r[10] == f10
  {
    [f0, f1, f2, f3, f4, f5, f6, f7, f8, f9, f10]
  }

  /** `composeAdvertisement`: the fields each followed by `;`, then the checksum of that text. */
  function Compose(tab: Table, ft: FloatText, a: Advertisement): string {
    Seal(tab, Covered(Fields(ft, a)))
  }

  function Items(tab: Table, ft: FloatText, ads: seq<Advertisement>): (r: seq<string>)
    ensures |r| == |ads|
    decreases |ads|
  {
    if ads == [] then [] else [Compose(tab, ft, ads[0])] + Items(tab, ft, ads[1..])
  }

  /** The advertisements joined by `;`, a final `;`, and the checksum of that text. */
  function ToPacket(tab: Table, ft: FloatText, p: Packet): (r: string)
    ensures Payload(r) == Join(Items(tab, ft, p.advertisements), ';') + ";"
    ensures Sealed(tab, r, "Pb", Payload(r)) && Canonical(r)
  {
    CloseSealed(tab, "Pb", Items(tab, ft, p.advertisements));
    CanonicalClose(tab, "Pb", Items(tab, ft, p.advertisements));
    Close(tab, "Pb", Items(tab, ft, p.advertisements))
  }

  /** The twelve fields an advertisement splits into. */
  function Group(tab: Table, ft: FloatText, a: Advertisement): (r: seq<string>)
    ensures |r| == 12 && r[..11] == Fields(ft, a)
  {
    Fields(ft, a) + [Hex4(TextCrc(tab, Covered(Fields(ft, a))))]
  }

  /** An advertisement is its twelve fields joined by `;`. */
  lemma GroupJoin(tab: Table, ft: FloatText, a: Advertisement)
    ensures Join(Group(tab, ft, a), ';') == Compose(tab, ft, a)
  {
    var f := Fields(ft, a);
    var token := Hex4(TextCrc(tab, Covered(f)));
    JoinAppend(f, [token], ';');
    assert Seal(tab, Covered(f)) == Covered(f) + token;
  }

  /** The fields of all advertisements, in order. */
  function Flat(tab: Table, ft: FloatText, ads: seq<Advertisement>): (r: seq<string>)
    ensures |r| == 12 * |ads|
    decreases |ads|
  {
    if ads == [] then [] else Group(tab, ft, ads[0]) + Flat(tab, ft, ads[1..])
  }

  /** Joining the advertisements is joining their fields. */
  lemma {:induction false} FlatJoin(tab: Table, ft: FloatText, ads: seq<Advertisement>)
    requires ads != []
    ensures Join(Items(tab, ft, ads), ';') == Join(Flat(tab, ft, ads), ';')
    decreases |ads|
  {
    GroupJoin(tab, ft, ads[0]);
    var item, g := Compose(tab, ft, ads[0]), Group(tab, ft, ads[0]);
    var rest := ads[1..];
    if |ads| == 1 {
      assert Items(tab, ft, ads) == [item];
      assert Flat(tab, ft, ads) == g + [] == g;
    } else {
      FlatJoin(tab, ft, rest);
      JoinCons(item, Items(tab, ft, rest), ';');
      JoinAppend(g, Flat(tab, ft, rest), ';');
    }
  }

  // ---------------------------------------------------------------------------
  // Round trip

  /** A float as it reads back after `%f`. */
  function Refloat(ft: FloatText, x: Float): Float {
    match Parse(ft, Format(ft, x))
    case Some(y) => y
    case None => x
  }

  /** An advertisement with its floats as they read back. */
  function Reread(ft: FloatText, a: Advertisement): Advertisement {
    a.(latitude := Refloat(ft, a.latitude), longitude := Refloat(ft, a.longitude),
       altitude := Refloat(ft, a.altitude))
  }

  function RereadAll(ft: FloatText, ads: seq<Advertisement>): (r: seq<Advertisement>)
    ensures |r| == |ads|
    decreases |ads|
  {
    if ads == [] then [] else [Reread(ft, ads[0])] + RereadAll(ft, ads[1..])
  }

  /** A company id `ParseInt(_, 16, 16)` reads back. */
  predicate ShortId(m: ManufacturerData) {
    -0x8000 <= m.companyId < 0x8000
  }

  /**
   * An advertisement the encoder can write so that it reads back: text
   * fields without `;`, company ids in signed 16-bit range, and at least one
   * manufacturer item, since an empty field is an unparsable company id.
   */
  predicate Writable(a: Advertisement) {
    ';' !in a.macAddress && ';' !in a.model && ';' !in a.deviceName &&
    a.manufacturerData != [] && forall m <- a.manufacturerData :: ShortId(m)
  }

  /** Signed hex text holds only a sign and hex digits. */
  lemma GoHexFree(n: int, width: nat)
    ensures GoHex(n, width) != ""
    ensures ':' !in GoHex(n, width) && ',' !in GoHex(n, width) && ';' !in GoHex(n, width)
  {
    var h := GoHex(n, width);
    if n < 0 {
      DigitsFree(h[1..], 16);
      SignFree(h);
    } else {
      DigitsFree(h, 16);
    }
  }

  lemma HexBytesFree(data: seq<Byte>)
    ensures ':' !in HexBytes(data) && ',' !in HexBytes(data) && ';' !in HexBytes(data)
  {
    DigitsFree(HexBytes(data), 16);
  }

  /** An item splits on `:` into its id and its data. */
  lemma ItemSplit(id: string, data: seq<Byte>)
    requires ':' !in id
    ensures Split(id + ":" + HexBytes(data), ':') == [id, HexBytes(data)]
  {
    HexBytesFree(data);
    SplitConsPiece(id, ':', HexBytes(data));
    SplitNoDelimiter(HexBytes(data), ':');
  }

  /** Data items hold neither of the separators around them. */
  lemma ItemFree(id: int, data: seq<Byte>)
    ensures var item := GoHex(id, 4) + ":" + HexBytes(data);
            ',' !in item && ';' !in item
  {
    GoHexFree(id, 4);
    HexBytesFree(data);
  }

  /** An item whose two pieces read as `m` reads as `m`. */
  lemma ReadManufacturerFrom(item: string, id: string, hex: string, m: ManufacturerData)
    requires Split(item, ':') == [id, hex]
    requires ParseInt(id, 16, 16) == Some(m.companyId) && ReadBytes(hex) == Ok(m.data)
    ensures ReadManufacturer(item) == Ok(m)
  {
  }

  /** An item whose two pieces read as `x` reads as `x`. */
  lemma ReadServiceFrom(item: string, id: string, hex: string, x: ServiceData)
    requires id != "" && Split(item, ':') == [id, hex]
    requires ParseInt(id, 16, 64) == Some(x.uuid) && ReadBytes(hex) == Ok(x.data)
    ensures ReadService(item) == Ok(Some(x))
  {
  }

  lemma ManufacturerItemReads(m: ManufacturerData)
    requires ShortId(m)
    ensures ',' !in ManufacturerItem(m) && ';' !in ManufacturerItem(m)
    ensures ReadManufacturer(ManufacturerItem(m)) == Ok(m)
  {
    ItemFree(m.companyId, m.data);
    GoHexFree(m.companyId, 4);
    ItemSplit(GoHex(m.companyId, 4), m.data);
    PowFacts();
    ParseIntGoHex(m.companyId, 4, 16);
    ReadHexBytes(m.data);
    ReadManufacturerFrom(ManufacturerItem(m), GoHex(m.companyId, 4), HexBytes(m.data), m);
  }

  lemma ServiceItemReads(s: ServiceData)
    ensures ',' !in ServiceItem(s) && ';' !in ServiceItem(s)
    ensures ReadService(ServiceItem(s)) == Ok(Some(s))
  {
    ItemFree(s.uuid, s.data);
    GoHexFree(s.uuid, 4);
    ItemSplit(GoHex(s.uuid, 4), s.data);
    PowFacts();
    ParseIntGoHex(s.uuid, 4, 64);
    ReadHexBytes(s.data);
    ReadServiceFrom(ServiceItem(s), GoHex(s.uuid, 4), HexBytes(s.data), s);
  }

  /** A non-empty list of manufacturer items with short ids reads back from its field. */
  lemma ManufacturerFieldReads(ms: seq<ManufacturerData>)
    requires ms != [] && forall m <- ms :: ShortId(m)
    ensures ';' !in Join(ManufacturerItems(ms), ',')
    ensures ReadManufacturers(Split(Join(ManufacturerItems(ms), ','), ',')) == Ok(ms)
  {
    var items := ManufacturerItems(ms);
    forall i | 0 <= i < |ms|
      ensures ',' !in items[i] && ';' !in items[i] && ReadManufacturer(items[i]) == Ok(ms[i])
    {
      ManufacturerItemReads(ms[i]);
    }
    JoinFree(items, ',', ';');
    SplitJoin(items, ',');
    assert ReadManufacturers(items).value == ms;
  }

  /** Any list of service items reads back from its field; an empty one is written as an empty field. */
  lemma ServiceFieldReads(ss: seq<ServiceData>)
    ensures ';' !in Join(ServiceItems(ss), ',')
    ensures ReadServices(Split(Join(ServiceItems(ss), ','), ',')) == Ok(ss)
  {
    var items := ServiceItems(ss);
    if ss == [] {
      assert Join(items, ',') == "";
      EmptyServiceField();
    } else {
      forall i | 0 <= i < |ss|
        ensures ',' !in items[i] && ';' !in items[i] && ReadService(items[i]) == Ok(Some(ss[i]))
      {
        ServiceItemReads(ss[i]);
      }
      JoinFree(items, ',', ';');
      SplitJoin(items, ',');
      ReadServicesAll(items, ss);
    }
  }

  /** The fields of a writable advertisement hold no `;`. */
  lemma FieldsFree(ft: FloatText, a: Advertisement)
    requires Lawful(ft) && Writable(a)
    ensures forall t <- Fields(ft, a) :: ';' !in t
  {
    FormatIntNoSeparator(a.timestamp);
    FormatIntNoSeparator(a.rssi);
    FormatIntNoSeparator(a.txPower);
    ManufacturerFieldFree(a.manufacturerData);
    ServiceFieldFree(a.serviceData);
    ElevenFree(a.macAddress, FormatInt(a.timestamp), Format(ft, a.latitude), Format(ft, a.longitude),
      Format(ft, a.altitude), a.model, a.deviceName, FormatInt(a.rssi), FormatInt(a.txPower),
      Join(ManufacturerItems(a.manufacturerData), ','), Join(ServiceItems(a.serviceData), ','));
  }

  lemma ElevenFree(f0: string, f1: string, f2: string, f3: string, f4: string, f5: string,
                   f6: string, f7: string, f8: string, f9: string, f10: string)
    requires ';' !in f0 && ';' !in f1 && ';' !in f2 && ';' !in f3 && ';' !in f4 && ';' !in f5
    requires ';' !in f6 && ';' !in f7 && ';' !in f8 && ';' !in f9 && ';' !in f10
    ensures forall t <- Eleven(f0, f1, f2, f3, f4, f5, f6, f7, f8, f9, f10) :: ';' !in t
  {
  }

  lemma ManufacturerFieldFree(ms: seq<ManufacturerData>)
    ensures ';' !in Join(ManufacturerItems(ms), ',')
  {
    var items := ManufacturerItems(ms);
    forall i | 0 <= i < |ms| ensures ';' !in items[i] {
      ItemFree(ms[i].companyId, ms[i].data);
    }
    JoinFree(items, ',', ';');
  }

  lemma ServiceFieldFree(ss: seq<ServiceData>)
    ensures ';' !in Join(ServiceItems(ss), ',')
  {
    var items := ServiceItems(ss);
    forall i | 0 <= i < |ss| ensures ';' !in items[i] {
      ItemFree(ss[i].uuid, ss[i].data);
    }
    JoinFree(items, ',', ';');
  }

  /** The fields of a writable advertisement read back as it, its floats reparsed. */
  lemma FieldsRead(ft: FloatText, a: Advertisement)
    requires Lawful(ft) && Writable(a)
    ensures ReadFields(ft, Fields(ft, a)) == Ok(Reread(ft, a))
  {
    RefloatReads(ft, a.latitude);
    RefloatReads(ft, a.longitude);
    RefloatReads(ft, a.altitude);
    IntegerReads(a.timestamp);
    IntegerReads(a.rssi);
    IntegerReads(a.txPower);
    ManufacturerFieldReads(a.manufacturerData);
    ServiceFieldReads(a.serviceData);
    ReadsFromParts(ft, a.macAddress, FormatInt(a.timestamp), Format(ft, a.latitude), Format(ft, a.longitude),
      Format(ft, a.altitude), a.model, a.deviceName, FormatInt(a.rssi), FormatInt(a.txPower),
      Join(ManufacturerItems(a.manufacturerData), ','), Join(ServiceItems(a.serviceData), ','),
      Reread(ft, a));
  }

  /** `ReadsFrom` for the eleven fields given one by one. */
  lemma ReadsFromParts(ft: FloatText, f0: string, f1: string, f2: string, f3: string, f4: string, f5: string,
                       f6: string, f7: string, f8: string, f9: string, f10: string, a: Advertisement)
    requires f0 == a.macAddress && ParseInt(f1, 10, 64) == Some(a.timestamp)
    requires Parse(ft, f2) == Some(a.latitude) && Parse(ft, f3) == Some(a.longitude)
    requires Parse(ft, f4) == Some(a.altitude) && f5 == a.model && f6 == a.deviceName
    requires Atoi(f7) == Some(a.rssi) && ReadTxPower(f8) == Some(a.txPower)
    requires ReadManufacturers(Split(f9, ',')) == Ok(a.manufacturerData)
    requires ReadServices(Split(f10, ',')) == Ok(a.serviceData)
    ensures ReadFields(ft, Eleven(f0, f1, f2, f3, f4, f5, f6, f7, f8, f9, f10)) == Ok(a)
  {
    ReadsFrom(ft, Eleven(f0, f1, f2, f3, f4, f5, f6, f7, f8, f9, f10), a);
  }

  lemma RefloatReads(ft: FloatText, x: Float)
    requires Lawful(ft)
    ensures Parse(ft, Format(ft, x)) == Some(Refloat(ft, x))
  {
  }

  /** Decimal text of a 64-bit integer reads back through every integer conversion of an advertisement. */
  lemma IntegerReads(n: Int64)
    ensures ParseInt(FormatInt(n), 10, 64) == Some(n) && Atoi(FormatInt(n)) == Some(n)
    ensures ReadTxPower(FormatInt(n)) == Some(n)
  {
    AtoiFormatInt(n);
  }

  /** Fields that read as `a`, field by field, are read as `a`. */
  lemma ReadsFrom(ft: FloatText, f: seq<string>, a: Advertisement)
    requires |f| == 11 && f[0] == a.macAddress && ParseInt(f[1], 10, 64) == Some(a.timestamp)
    requires Parse(ft, f[2]) == Some(a.latitude) && Parse(ft, f[3]) == Some(a.longitude)
    requires Parse(ft, f[4]) == Some(a.altitude) && f[5] == a.model && f[6] == a.deviceName
    requires Atoi(f[7]) == Some(a.rssi) && ReadTxPower(f[8]) == Some(a.txPower)
    requires ReadManufacturers(Split(f[9], ',')) == Ok(a.manufacturerData)
    requires ReadServices(Split(f[10], ',')) == Ok(a.serviceData)
    ensures ReadFields(ft, f) == Ok(a)
  {
    assert Reads(ft, f, ReadFields(ft, f).value);
  }

  /** A writable advertisement's group is `;`-free and reads back as it, its floats reparsed. */
  lemma GroupReads(tab: Table, ft: FloatText, a: Advertisement)
    requires Lawful(ft) && Writable(a)
    ensures var g := Group(tab, ft, a);
            (forall t <- g :: ';' !in t) && ReadAdvertisement(tab, ft, g) == Ok(Reread(ft, a))
  {
    var g := Group(tab, ft, a);
    var token := Hex4(TextCrc(tab, Covered(Fields(ft, a))));
    FieldsFree(ft, a);
    FieldsRead(ft, a);
    assert ';' !in token by {
      assert forall i | 0 <= i < |token| :: InBase(token[i], 16);
    }
    ParseUintHex4(TextCrc(tab, Covered(Fields(ft, a))));
    assert g[11] == token;
  }

  /** The fields of writable advertisements are `;`-free and read back as them. */
  lemma {:induction false} FlatReads(tab: Table, ft: FloatText, ads: seq<Advertisement>)
    requires Lawful(ft) && forall a <- ads :: Writable(a)
    ensures (forall t <- Flat(tab, ft, ads) :: ';' !in t) && ReadsAll(tab, ft, Flat(tab, ft, ads), RereadAll(ft, ads))
    decreases |ads|
  {
    if ads != [] {
      var rest := ads[1..];
      assert forall a <- rest :: a in ads;
      FlatReads(tab, ft, rest);
      assert ads[0] in ads;
      GroupReads(tab, ft, ads[0]);
      var g := Group(tab, ft, ads[0]);
      var flat := Flat(tab, ft, ads);
      assert flat == g + Flat(tab, ft, rest);
      assert flat[12..] == Flat(tab, ft, rest);
      assert flat[..12] == g;
    }
  }

  /** The fields of a non-empty list of writable advertisements decode as the list. */
  lemma FlatDecodes(tab: Table, ft: FloatText, ads: seq<Advertisement>)
    requires Lawful(ft) && ads != [] && forall a <- ads :: Writable(a)
    ensures (forall t <- Flat(tab, ft, ads) :: ';' !in t)
    ensures Decode(tab, ft, Flat(tab, ft, ads)) == Ok(Packet(RereadAll(ft, ads)))
  {
    var flat := Flat(tab, ft, ads);
    FlatReads(tab, ft, ads);
    ReadAdvertisementsComplete(tab, ft, flat, RereadAll(ft, ads));
    MultipleOfTwelve(|ads|);
  }

  /**
   * A non-empty list of writable advertisements survives encoding and
   * decoding, up to what `%f` keeps of the floats.
   */
  lemma RoundTrip(tab: Table, ft: FloatText, p: Packet)
    requires Lawful(ft) && p.advertisements != [] && forall a <- p.advertisements :: Writable(a)
    ensures FromPacket(tab, ft, ToPacket(tab, ft, p)) == Ok(Packet(RereadAll(ft, p.advertisements)))
  {
    ClosedItemsDecode(tab, ft, p.advertisements);
  }

  /** The frame of a non-empty list of writable advertisements decodes as the list. */
  lemma ClosedItemsDecode(tab: Table, ft: FloatText, ads: seq<Advertisement>)
    requires Lawful(ft) && ads != [] && forall a <- ads :: Writable(a)
    ensures FromPacket(tab, ft, Close(tab, "Pb", Items(tab, ft, ads))) == Ok(Packet(RereadAll(ft, ads)))
  {
    FlatJoin(tab, ft, ads);
    FlatDecodes(tab, ft, ads);
    FromCloseJoin(tab, ft, Items(tab, ft, ads), Flat(tab, ft, ads));
  }

  /** A frame decodes as the fields its joined text splits into. */
  lemma FromCloseJoin(tab: Table, ft: FloatText, xs: seq<string>, ys: seq<string>)
    requires Join(xs, ';') == Join(ys, ';')
    requires |ys| >= 1 && forall t <- ys :: ';' !in t
    ensures FromPacket(tab, ft, Close(tab, "Pb", xs)) == Decode(tab, ft, ys)
  {
    CloseSameJoin(tab, "Pb", xs, ys);
    FromClose(tab, ft, ys);
  }

  /**
   * An empty list is written as the text `;`, which reads as one empty
   * field, not a multiple of twelve, and is rejected.
   */
  lemma EmptyListRejected(tab: Table, ft: FloatText)
    ensures FromPacket(tab, ft, ToPacket(tab, ft, Packet([]))) == Err(BadPartMultiple(12))
  {
    assert Join(Items(tab, ft, []), ';') == Join([""], ';');
    CloseSameJoin(tab, "Pb", Items(tab, ft, []), [""]);
    OpenClose(tab, "Pb", [""]);
  }

  /** The TX power sentinel is written as a non-empty field, which reads back as the sentinel. */
  lemma SentinelWritten(ft: FloatText, a: Advertisement)
    requires a.txPower == NoTxPower
    ensures Fields(ft, a)[8] != "" && ReadTxPower(Fields(ft, a)[8]) == Some(NoTxPower)
  {
    AtoiFormatInt(a.txPower);
  }

  /** A company id above `0x7FFF` is written in four hex digits that `ParseInt(_, 16, 16)` rejects. */
  lemma LongCompanyIdRejected(m: ManufacturerData)
    requires 0x8000 <= m.companyId < 0x1_0000
    ensures ReadManufacturer(ManufacturerItem(m)) == Err(BadField("company id"))
  {
    var h := GoHex(m.companyId, 4);
    ItemSplit(h, m.data);
    PowFacts();
    assert h[0] != '-' && h[0] != '+' by { assert IsUpperHex(h[0]); }
    ParseIntTooLarge(h, 16, 16);
  }
}
