/**
 * The data packet
 * `<Pd>timestamp;lat;lng;alt;speed;direction;satellites;hdop;extra data;CRC</Pd>`
 * (golang/v2/pd.go). The seven position fields may each be empty.
 */
module PdPacket {
  import opened Results
  import opened Strings
  import opened Numbers
  import opened Checksum
  import opened Envelope
  import opened Args
  import opened Floats

  datatype Position = Position(
    latitude: Option<Float>,
    longitude: Option<Float>,
    altitude: Option<Float>,
    speed: Option<Float>,
    direction: Option<Float>,
    satelliteCount: Option<Int64>,
    hdop: Option<Float>)

  /** The timestamp as Unix seconds; the position and the extra data are Go pointers that may be nil. */
  datatype Packet = Packet(timestamp: Int64, position: Option<Position>, extraData: Option<ArgMap>)

  /** The position with every field absent. */
  const NoPosition := Position(None, None, None, None, None, None, None)

  /** The error names of fields 1 to 7, in field order. */
  const FieldNames: seq<string> :=
    ["latitude", "longitude", "altitude", "speed", "direction", "satellite count", "hdop"]

  // ---------------------------------------------------------------------------
  // Decoding

  /** An empty field is an absent float; otherwise the text must parse. */
  function ReadFloat(ft: FloatText, t: string): Option<Option<Float>> {
    if t == "" then Some(None)
    else
      match Parse(ft, t)
      case None => None
      case Some(x) => Some(Some(x))
  }

  /** An empty field is an absent count; otherwise `strconv.Atoi` must accept it. */
  function ReadCount(t: string): Option<Option<Int64>> {
    if t == "" then Some(None)
    else
      match Atoi(t)
      case None => None
      case Some(n) => Some(Some(n))
  }

  /** Field `i` of the position (1 to 7) is empty or converts; field 6 is the integer one. */
  predicate Readable(ft: FloatText, fields: seq<string>, i: nat)
    requires |fields| == 9 && 1 <= i < 8
  {
    if i == 6 then ReadCount(fields[i]).Some? else ReadFloat(ft, fields[i]).Some?
  }

  /** The first position field from `i` on that does not convert, or 8 when all do. */
  function FirstUnreadable(ft: FloatText, fields: seq<string>, i: nat): (r: nat)
    requires |fields| == 9 && 1 <= i <= 8
    ensures i <= r <= 8
    ensures forall j | i <= j < r :: Readable(ft, fields, j)
    ensures r < 8 ==> !Readable(ft, fields, r)
    decreases 8 - i
  {
    if i == 8 then 8
    else if !Readable(ft, fields, i) then i
    else FirstUnreadable(ft, fields, i + 1)
  }

  /** The position fields read as `pos`. */
  predicate PositionReads(ft: FloatText, fields: seq<string>, pos: Position)
    requires |fields| == 9
  {
    ReadFloat(ft, fields[1]) == Some(pos.latitude) && ReadFloat(ft, fields[2]) == Some(pos.longitude) &&
    ReadFloat(ft, fields[3]) == Some(pos.altitude) && ReadFloat(ft, fields[4]) == Some(pos.speed) &&
    ReadFloat(ft, fields[5]) == Some(pos.direction) && ReadCount(fields[6]) == Some(pos.satelliteCount) &&
    ReadFloat(ft, fields[7]) == Some(pos.hdop)
  }

  /** The nine fields read as the packet `p`: a position is always present, and so is the extra data. */
  predicate Reads(ft: FloatText, fields: seq<string>, p: Packet) {
    |fields| == 9 && ParseInt(fields[0], 10, 64) == Some(p.timestamp) &&
    p.position.Some? && PositionReads(ft, fields, p.position.value) &&
    p.extraData == Some(ParseArgs(ft, fields[8]))
  }

  /** The position the seven fields read as, once they all convert. */
  function PositionOf(ft: FloatText, fields: seq<string>): (pos: Position)
    requires |fields| == 9 && forall i | 1 <= i < 8 :: Readable(ft, fields, i)
    ensures PositionReads(ft, fields, pos)
  {
    assert Readable(ft, fields, 1) && Readable(ft, fields, 2) && Readable(ft, fields, 3);
    assert Readable(ft, fields, 4) && Readable(ft, fields, 5) && Readable(ft, fields, 6);
    assert Readable(ft, fields, 7);
    Position(ReadFloat(ft, fields[1]).value, ReadFloat(ft, fields[2]).value,
             ReadFloat(ft, fields[3]).value, ReadFloat(ft, fields[4]).value,
             ReadFloat(ft, fields[5]).value, ReadCount(fields[6]).value,
             ReadFloat(ft, fields[7]).value)
  }

  /** The field after an all-readable prefix that does not convert is the one `FirstUnreadable` finds. */
  lemma FirstUnreadableIs(ft: FloatText, fields: seq<string>, i: nat)
    requires |fields| == 9 && 1 <= i < 8
    requires (forall j | 1 <= j < i :: Readable(ft, fields, j)) && !Readable(ft, fields, i)
    ensures FirstUnreadable(ft, fields, 1) == i
  {
  }

  /**
   * Part count, timestamp, then the seven position fields in order; the
   * first that is neither empty nor convertible names the error.
   */
  function Decode(ft: FloatText, fields: seq<string>): (r: Result<Packet, GoError>)
    ensures r.Ok? <==> |fields| == 9 && ParseInt(fields[0], 10, 64).Some? &&
                       forall i | 1 <= i < 8 :: Readable(ft, fields, i)
    ensures r.Ok? ==> Reads(ft, fields, r.value)
    ensures |fields| != 9 ==> r == Err(BadPartCount(9))
    ensures |fields| == 9 && ParseInt(fields[0], 10, 64).None? ==> r == Err(BadField("timestamp"))
    ensures |fields| == 9 && ParseInt(fields[0], 10, 64).Some? ==>
              forall i | 1 <= i < 8 ::
                (forall j | 1 <= j < i :: Readable(ft, fields, j)) && !Readable(ft, fields, i) ==>
                  r == Err(BadField(FieldNames[i - 1]))
  {
    if |fields| != 9 then Err(BadPartCount(9))
    else
      match ParseInt(fields[0], 10, 64)
      case None => Err(BadField("timestamp"))
      case Some(t) =>
        PowFacts();
        var first := FirstUnreadable(ft, fields, 1);
        assert forall i | 1 <= i < 8 ::
            (forall j | 1 <= j < i :: Readable(ft, fields, j)) && !Readable(ft, fields, i) ==> first == i
        by {
          forall i | 1 <= i < 8 && (forall j | 1 <= j < i :: Readable(ft, fields, j)) && !Readable(ft, fields, i) {
            FirstUnreadableIs(ft, fields, i);
          }
        }
        if first < 8 then Err(BadField(FieldNames[first - 1]))
        else Ok(Packet(t, Some(PositionOf(ft, fields)), Some(ParseArgs(ft, fields[8]))))
  }

  /** The checksum is checked before the fields are looked at. */
  function FromPacket(tab: Table, ft: FloatText, raw: string): (r: Result<Packet, GoError>)
    ensures r.Ok? ==> Sealed(tab, raw, "Pd", Payload(raw)) && Reads(ft, SealedFields(Payload(raw)), r.value)
    ensures Open(tab, raw, "Pd").Err? ==> r == Err(Open(tab, raw, "Pd").error)
    ensures !Wrapped(raw, "Pd") ==> r == Err(BadEnvelope("Pd"))
  {
    OpenSealed(tab, raw, "Pd");
    var fields :- Open(tab, raw, "Pd");
    Decode(ft, fields)
  }

  /** Every sealed frame whose fields read as `p` decodes to `p`. */
  lemma FromPacketComplete(tab: Table, ft: FloatText, raw: string, p: Packet)
    requires Sealed(tab, raw, "Pd", Payload(raw)) && Reads(ft, SealedFields(Payload(raw)), p)
    ensures FromPacket(tab, ft, raw) == Ok(p)
  {
    OpenSealed(tab, raw, "Pd");
    ReadsDecode(ft, SealedFields(Payload(raw)), p);
  }

  /** Fields that read as `p` decode to `p`. */
  lemma ReadsDecode(ft: FloatText, fields: seq<string>, p: Packet)
    requires Reads(ft, fields, p)
    ensures Decode(ft, fields) == Ok(p)
  {
    PositionReadable(ft, fields, p.position.value);
    ReadsUnique(ft, fields, Decode(ft, fields).value, p);
  }

  lemma PositionReadable(ft: FloatText, fields: seq<string>, pos: Position)
    requires |fields| == 9 && PositionReads(ft, fields, pos)
    ensures forall i | 1 <= i < 8 :: Readable(ft, fields, i)
  {
  }

  /** The fields determine the packet they read as. */
  lemma ReadsUnique(ft: FloatText, fields: seq<string>, p: Packet, q: Packet)
    requires Reads(ft, fields, p) && Reads(ft, fields, q)
    ensures p == q
  {
  }

  /** A frame `Close` makes of `;`-free fields decodes as those fields do. */
  lemma FromClose(tab: Table, ft: FloatText, fields: seq<string>)
    requires |fields| >= 1 && forall t <- fields :: ';' !in t
    ensures FromPacket(tab, ft, Close(tab, "Pd", fields)) == Decode(ft, fields)
  {
    OpenClose(tab, "Pd", fields);
  }

  // ---------------------------------------------------------------------------
  // Encoding

  /** `%f` of a present float, nothing for an absent one. */
  function FloatField(ft: FloatText, x: Option<Float>): string {
    match x
    case None => ""
    case Some(v) => Format(ft, v)
  }

  /** `%d` of a present count, nothing for an absent one. */
  function CountField(n: Option<Int64>): string {
    match n
    case None => ""
    case Some(v) => FormatInt(v)
  }

  /** The encoder writes strings with surrounding white space trimmed. */
  function Trimmed(v: Value): Value {
    match v
    case StrV(s) => StrV(TrimSpace(s))
    case _ => v
  }

  /**
   * The entries the encoder writes. Its type switch lists `int` as a case of
   * its own with an empty body (Go cases do not fall through), so integer
   * values are skipped.
   */
  function Kept(m: ArgMap): (r: ArgMap)
    ensures forall k :: k in r <==> k in m && !m[k].IntV?
  {
    map k | k in m && !m[k].IntV? :: Trimmed(m[k])
  }

  /** The iteration order with the skipped keys left out. */
  function KeptOrder(order: seq<string>, m: ArgMap): (r: seq<string>)
    requires forall k <- order :: k in m
    ensures forall k :: k in r <==> k in order && !m[k].IntV?
  {
    if order == [] then []
    else
      assert forall k <- order[1..] :: k in order;
      (if m[order[0]].IntV? then [] else [order[0]]) + KeptOrder(order[1..], m)
  }

  predicate Distinct(s: seq<string>) {
    forall i, j :: 0 <= i < j < |s| ==> s[i] != s[j]
  }

  /** Leaving keys out of a list without repeats leaves none. */
  lemma {:induction false} KeptDistinct(order: seq<string>, m: ArgMap)
    requires forall k <- order :: k in m
    requires Distinct(order)
    ensures Distinct(KeptOrder(order, m))
  {
    if order != [] {
      var rest := order[1..];
      assert forall k <- rest :: k in order;
      assert Distinct(rest) by {
        forall i, j | 0 <= i < j < |rest| ensures rest[i] != rest[j] {
          assert rest[i] == order[i + 1] && rest[j] == order[j + 1];
        }
      }
      KeptDistinct(rest, m);
      var tail := KeptOrder(rest, m);
      assert order[0] !in rest by {
        forall i | 0 <= i < |rest| ensures rest[i] != order[0] {
          assert rest[i] == order[i + 1];
        }
      }
      var kept := KeptOrder(order, m);
      if !m[order[0]].IntV? {
        assert kept == [order[0]] + tail;
        forall i, j | 0 <= i < j < |kept| ensures kept[i] != kept[j] {
          assert kept[j] == tail[j - 1];
          if i > 0 {
            assert kept[i] == tail[i - 1];
          }
        }
      }
    }
  }

  /** Leaving keys out of an iteration order keeps it an iteration order, of the kept entries. */
  lemma KeptIsOrder(order: seq<string>, m: ArgMap)
    requires IsOrder(order, m)
    ensures IsOrder(KeptOrder(order, m), Kept(m))
  {
    KeptDistinct(order, m);
  }

  /** The extra-data field: the kept items joined by `,`; nil extra data writes nothing. */
  function ExtraField(ft: FloatText, extra: Option<ArgMap>, order: seq<string>): string
    requires extra.Some? ==> IsOrder(order, extra.value)
  {
    match extra
    case None => ""
    case Some(m) =>
      KeptIsOrder(order, m);
      EncodeArgs(ft, PercentF, Kept(m), KeptOrder(order, m))
  }

  /** The nine texts the encoder writes; a nil position writes seven empty fields. */
  function Fields(ft: FloatText, p: Packet, order: seq<string>): (r: seq<string>)
    requires p.extraData.Some? ==> IsOrder(order, p.extraData.value)
    ensures |r| == 9
  {
    Row(ft, p.timestamp, p.position, ExtraField(ft, p.extraData, order))
  }

  /** The timestamp, the seven position fields and the extra-data text. */
  function Row(ft: FloatText, timestamp: Int64, pos: Option<Position>, extra: string): (r: seq<string>)
    ensures |r| == 9 && r[0] == FormatInt(timestamp) && r[8] == extra
  {
    var ts := FormatInt(timestamp);
    match pos
    case None => [ts, "", "", "", "", "", "", "", extra]
    case Some(q) =>
      [ts, FloatField(ft, q.latitude), FloatField(ft, q.longitude), FloatField(ft, q.altitude),
       FloatField(ft, q.speed), FloatField(ft, q.direction), CountField(q.satelliteCount),
       FloatField(ft, q.hdop), extra]
  }

  /** The fields, each followed by `;`, and the checksum of that text. */
  function ToPacket(tab: Table, ft: FloatText, p: Packet, order: seq<string>): (r: string)
    requires p.extraData.Some? ==> IsOrder(order, p.extraData.value)
    ensures Payload(r) == Join(Fields(ft, p, order), ';') + ";"
    ensures Sealed(tab, r, "Pd", Payload(r)) && Canonical(r)
  {
    CloseSealed(tab, "Pd", Fields(ft, p, order));
    CanonicalClose(tab, "Pd", Fields(ft, p, order));
    Close(tab, "Pd", Fields(ft, p, order))
  }

  /** A nil position is written exactly as a position whose fields are all absent. */
  lemma NilPositionAsEmpty(tab: Table, ft: FloatText, p: Packet, order: seq<string>)
    requires p.extraData.Some? ==> IsOrder(order, p.extraData.value)
    ensures ToPacket(tab, ft, p.(position := None), order) ==
            ToPacket(tab, ft, p.(position := Some(NoPosition)), order)
  {
    assert Fields(ft, p.(position := None), order) == Fields(ft, p.(position := Some(NoPosition)), order);
  }

  /** Nil extra data is written exactly as an empty map. */
  lemma NilExtraAsEmpty(tab: Table, ft: FloatText, p: Packet)
    ensures ToPacket(tab, ft, p.(extraData := None), []) == ToPacket(tab, ft, p.(extraData := Some(map[])), [])
  {
    assert ExtraField(ft, Some(map[]), []) == "";
    assert Fields(ft, p.(extraData := None), []) == Fields(ft, p.(extraData := Some(map[])), []);
  }

  // ---------------------------------------------------------------------------
  // Round trip

  /** A float after `%f` and `ParseFloat`. */
  function Reparse(ft: FloatText, x: Option<Float>): Option<Float> {
    match x
    case None => None
    case Some(v) => Parse(ft, Format(ft, v))
  }

  /** The position decoding gives back: absent stays absent, floats pass through `%f`. */
  function Reread(ft: FloatText, pos: Option<Position>): Position {
    match pos
    case None => NoPosition
    case Some(q) =>
      Position(Reparse(ft, q.latitude), Reparse(ft, q.longitude), Reparse(ft, q.altitude),
               Reparse(ft, q.speed), Reparse(ft, q.direction), q.satelliteCount, Reparse(ft, q.hdop))
  }

  /** The extra data decoding gives back: nil becomes empty, integers are gone, strings trimmed. */
  function Reextra(extra: Option<ArgMap>): ArgMap {
    match extra
    case None => map[]
    case Some(m) => Kept(m)
  }

  /** Entries of the extra data that survive the text unchanged. */
  predicate ExtraStable(ft: FloatText, m: ArgMap) {
    forall k <- Kept(m) :: Stable(ft, PercentF, k, Kept(m)[k]) && ';' !in k && ';' !in Render(ft, PercentF, Kept(m)[k])
  }

  lemma FloatFieldReads(ft: FloatText, x: Option<Float>)
    requires Lawful(ft)
    ensures ';' !in FloatField(ft, x) && ReadFloat(ft, FloatField(ft, x)) == Some(Reparse(ft, x))
  {
    if x.Some? {
      assert Format(ft, x.value) != "" && Parse(ft, Format(ft, x.value)).Some?;
    }
  }

  lemma CountFieldReads(n: Option<Int64>)
    ensures ';' !in CountField(n) && ReadCount(CountField(n)) == Some(n)
  {
    if n.Some? {
      FormatIntNoSeparator(n.value);
      AtoiFormatInt(n.value);
    }
  }

  /** Position fields written from `q` are `;`-free and read back as the reparsed position. */
  lemma PositionFieldsRead(ft: FloatText, fields: seq<string>, q: Position)
    requires Lawful(ft) && |fields| == 9
    requires fields[1] == FloatField(ft, q.latitude) && fields[2] == FloatField(ft, q.longitude)
    requires fields[3] == FloatField(ft, q.altitude) && fields[4] == FloatField(ft, q.speed)
    requires fields[5] == FloatField(ft, q.direction) && fields[6] == CountField(q.satelliteCount)
    requires fields[7] == FloatField(ft, q.hdop)
    ensures ';' !in fields[1] && ';' !in fields[2] && ';' !in fields[3] && ';' !in fields[4]
    ensures ';' !in fields[5] && ';' !in fields[6] && ';' !in fields[7]
    ensures PositionReads(ft, fields, Reread(ft, Some(q)))
  {
    FloatFieldReads(ft, q.latitude);
    FloatFieldReads(ft, q.longitude);
    FloatFieldReads(ft, q.altitude);
    FloatFieldReads(ft, q.speed);
    FloatFieldReads(ft, q.direction);
    CountFieldReads(q.satelliteCount);
    FloatFieldReads(ft, q.hdop);
  }

  /** The extra-data field parses back to the kept entries. */
  lemma ExtraFieldReads(ft: FloatText, extra: Option<ArgMap>, order: seq<string>)
    requires extra.Some? ==> IsOrder(order, extra.value) && ExtraStable(ft, extra.value)
    ensures ParseArgs(ft, ExtraField(ft, extra, order)) == Reextra(extra)
  {
    if extra.Some? {
      var m := extra.value;
      KeptIsOrder(order, m);
      ParseEncode(ft, PercentF, Kept(m), KeptOrder(order, m));
    }
  }

  /** The extra-data field holds no `;`. */
  lemma ExtraFieldFree(ft: FloatText, extra: Option<ArgMap>, order: seq<string>)
    requires extra.Some? ==> IsOrder(order, extra.value) && ExtraStable(ft, extra.value)
    ensures ';' !in ExtraField(ft, extra, order)
  {
    if extra.Some? {
      var m := extra.value;
      KeptIsOrder(order, m);
      EncodeArgsFree(ft, PercentF, Kept(m), KeptOrder(order, m), ';');
    }
  }

  /**
   * Decoding an encoded packet gives back its timestamp, the position after
   * `%f` (nil read as all-absent), and the extra data without its integer
   * entries and with strings trimmed (nil read as empty).
   */
  lemma RoundTrip(tab: Table, ft: FloatText, p: Packet, order: seq<string>)
    requires Lawful(ft)
    requires p.extraData.Some? ==> IsOrder(order, p.extraData.value) && ExtraStable(ft, p.extraData.value)
    ensures FromPacket(tab, ft, ToPacket(tab, ft, p, order)) ==
            Ok(Packet(p.timestamp, Some(Reread(ft, p.position)), Some(Reextra(p.extraData))))
  {
    var fields := Fields(ft, p, order);
    var expected := Packet(p.timestamp, Some(Reread(ft, p.position)), Some(Reextra(p.extraData)));
    FieldsFree(ft, p, order);
    FieldsRead(ft, p, order);
    FromClose(tab, ft, fields);
    ReadsDecode(ft, fields, expected);
  }

  /** The encoder's fields read as the packet decoding gives back. */
  lemma FieldsRead(ft: FloatText, p: Packet, order: seq<string>)
    requires Lawful(ft)
    requires p.extraData.Some? ==> IsOrder(order, p.extraData.value) && ExtraStable(ft, p.extraData.value)
    ensures Reads(ft, Fields(ft, p, order), Packet(p.timestamp, Some(Reread(ft, p.position)), Some(Reextra(p.extraData))))
  {
    ExtraFieldReads(ft, p.extraData, order);
    PositionRead(ft, p.timestamp, p.position, ExtraField(ft, p.extraData, order));
    ReadsFrom(ft, Fields(ft, p, order), p.timestamp, Reread(ft, p.position), Reextra(p.extraData));
  }

  /** The encoder's fields hold no `;`. */
  lemma FieldsFree(ft: FloatText, p: Packet, order: seq<string>)
    requires Lawful(ft)
    requires p.extraData.Some? ==> IsOrder(order, p.extraData.value) && ExtraStable(ft, p.extraData.value)
    ensures forall t <- Fields(ft, p, order) :: ';' !in t
  {
    var fields := Fields(ft, p, order);
    ExtraFieldFree(ft, p.extraData, order);
    FormatIntNoSeparator(p.timestamp);
    PositionFree(ft, p.timestamp, p.position, ExtraField(ft, p.extraData, order));
    assert forall i | 0 <= i < 9 :: ';' !in fields[i];
  }

  /** The seven position fields are `;`-free and read as the reparsed position. */
  lemma PositionRead(ft: FloatText, timestamp: Int64, pos: Option<Position>, extra: string)
    requires Lawful(ft)
    ensures var fields := Row(ft, timestamp, pos, extra);
            ';' !in fields[1] && ';' !in fields[2] && ';' !in fields[3] && ';' !in fields[4] &&
            ';' !in fields[5] && ';' !in fields[6] && ';' !in fields[7] &&
            PositionReads(ft, fields, Reread(ft, pos))
  {
    match pos
    case None =>
      NoPositionRead(Row(ft, timestamp, pos, extra));
    case Some(q) =>
      PositionFieldsRead(ft, Row(ft, timestamp, pos, extra), q);
  }

  /** The seven position fields hold no `;`. */
  lemma PositionFree(ft: FloatText, timestamp: Int64, pos: Option<Position>, extra: string)
    requires Lawful(ft)
    ensures forall i | 1 <= i < 8 :: ';' !in Row(ft, timestamp, pos, extra)[i]
  {
    PositionRead(ft, timestamp, pos, extra);
  }

  /** Seven empty fields read as the position with every field absent. */
  lemma NoPositionRead(fields: seq<string>)
    requires |fields| == 9 && forall i | 1 <= i < 8 :: fields[i] == ""
    ensures forall ft: FloatText :: PositionReads(ft, fields, NoPosition)
  {
  }

  lemma ReadsFrom(ft: FloatText, fields: seq<string>, t: Int64, pos: Position, extra: ArgMap)
    requires |fields| == 9 && fields[0] == FormatInt(t) && PositionReads(ft, fields, pos)
    requires ParseArgs(ft, fields[8]) == extra
    ensures Reads(ft, fields, Packet(t, Some(pos), Some(extra)))
  {
    PowFacts();
    ParseIntFormatInt(t, 64);
  }

  /** An integer entry of the extra data does not come back. */
  lemma IntegersDropped(tab: Table, ft: FloatText, p: Packet, order: seq<string>, k: string)
    requires Lawful(ft)
    requires p.extraData.Some? ==> IsOrder(order, p.extraData.value) && ExtraStable(ft, p.extraData.value)
    requires p.extraData.Some? && k in p.extraData.value && p.extraData.value[k].IntV?
    ensures var r := FromPacket(tab, ft, ToPacket(tab, ft, p, order));
            r.Ok? && k !in r.value.extraData.value
  {
    RoundTrip(tab, ft, p, order);
  }
}
